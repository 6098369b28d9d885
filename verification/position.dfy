/**
 * The value-level meaning of a tic-tac-toe board: its squares, the side to
 * move and the list of moves played. The Board class in Boards stores the same
 * information in an array and is specified by the functions of this module.
 */
module Position {
  import opened Wrappers
  import opened Pieces

  /** The squares of a board, indexed cells[row][col] like the Java Board's array. */
  type Grid = g: seq<seq<Piece>> | |g| == 3 && forall r :: 0 <= r < 3 ==> |g[r]| == 3
    witness [[E, E, E], [E, E, E], [E, E, E]]

  const EmptyGrid: Grid := [[E, E, E], [E, E, E], [E, E, E]]

  /** A board as Java's Board.equals compares it: squares, side to move, moves. */
  datatype State = State(cells: Grid, turn: Piece, moves: seq<string>)

  /** The position the default constructor produces: X to move on an empty grid. */
  const Initial: State := State(EmptyGrid, X, [])

  /** The grid with one square replaced. */
  function SetCell(g: Grid, row: int, col: int, p: Piece): (h: Grid)
    requires 0 <= row < 3 && 0 <= col < 3
    ensures h[row][col] == p
    ensures forall r, c :: 0 <= r < 3 && 0 <= c < 3 && (r != row || c != col) ==> h[r][c] == g[r][c]
  {
    g[row := g[row][col := p]]
  }

  // ---------------------------------------------------------------------------
  // Square designators such as "a1": a column letter and a row digit.

  /** The strings the pattern [a-c][1-3] matches in full. */
  predicate IsDesignator(s: string) {
    |s| == 2 && 'a' <= s[0] <= 'c' && '1' <= s[1] <= '3'
  }

  /** The (column, row) a designator names, by offset from 'a' and from '1'. */
  function Coords(place: string): (cr: (int, int))
    requires |place| >= 2
    ensures IsDesignator(place) ==> 0 <= cr.0 < 3 && 0 <= cr.1 < 3
  {
    (place[0] as int - 'a' as int, place[1] as int - '1' as int)
  }

  function ColumnLetter(col: int): string {
    if col == 0 then "a" else if col == 1 then "b" else if col == 2 then "c" else ""
  }

  function RowDigit(row: int): string {
    if row == 0 then "1" else if row == 1 then "2" else if row == 2 then "3" else ""
  }

  /** The designator of a square; a coordinate outside 0..2 contributes nothing. */
  function Place(col: int, row: int): (s: string)
    ensures 0 <= col < 3 && 0 <= row < 3 ==> IsDesignator(s)
    ensures !(0 <= col < 3 && 0 <= row < 3) ==> |s| < 2
  {
    ColumnLetter(col) + RowDigit(row)
  }

  /** Coords undoes Place on the board's squares. */
  lemma CoordsOfPlace(col: int, row: int)
    requires 0 <= col < 3 && 0 <= row < 3
    ensures Coords(Place(col, row)) == (col, row)
  {
  }

  /** Place undoes Coords on every designator. */
  lemma PlaceOfCoords(s: string)
    requires IsDesignator(s)
    ensures Place(Coords(s).0, Coords(s).1) == s
  {
    var t := Place(Coords(s).0, Coords(s).1);
    assert t[0] == s[0] && t[1] == s[1];
  }

  /** Distinct designators name distinct squares. */
  lemma CoordsInjective(s: string, t: string)
    requires IsDesignator(s) && IsDesignator(t) && s != t
    ensures Coords(s) != Coords(t)
  {
    PlaceOfCoords(s);
    PlaceOfCoords(t);
  }

  /** The square a designator names. */
  function CellAt(g: Grid, s: string): Piece
    requires IsDesignator(s)
  {
    g[Coords(s).1][Coords(s).0]
  }

  // ---------------------------------------------------------------------------
  // Column-major scan: position k names column k / 3 and row k % 3, so the
  // scan visits a1, a2, a3, b1, ..., c3. The quotient and remainder are
  // spelled out by comparison, which keeps the arithmetic linear.

  /** The column of scan position k, that is k / 3. */
  function ScanColumn(k: int): int
    requires 0 <= k < 9
  {
    if k < 3 then 0 else if k < 6 then 1 else 2
  }

  /** The row of scan position k, that is k % 3. */
  function ScanRow(k: int): int
    requires 0 <= k < 9
  {
    if k < 3 then k else if k < 6 then k - 3 else k - 6
  }

  function ScanCell(g: Grid, k: int): Piece
    requires 0 <= k < 9
  {
    g[ScanRow(k)][ScanColumn(k)]
  }

  function ScanPlace(k: int): string
    requires 0 <= k < 9
  {
    Place(ScanColumn(k), ScanRow(k))
  }

  /** The position of a designator's square in the scan. */
  function ScanIndex(s: string): (k: int)
    requires IsDesignator(s)
    ensures 0 <= k < 9
  {
    3 * Coords(s).0 + Coords(s).1
  }

  lemma ScanPlaceFacts(g: Grid, k: int)
    requires 0 <= k < 9
    ensures IsDesignator(ScanPlace(k))
    ensures ScanIndex(ScanPlace(k)) == k
    ensures CellAt(g, ScanPlace(k)) == ScanCell(g, k)
  {
    CoordsOfPlace(ScanColumn(k), ScanRow(k));
  }

  /** The designators of the empty squares among the first k of the scan. */
  function EmptyPlacesUpTo(g: Grid, k: nat): seq<string>
    requires k <= 9
  {
    if k == 0 then []
    else EmptyPlacesUpTo(g, k - 1) + (if ScanCell(g, k - 1) == E then [ScanPlace(k - 1)] else [])
  }

  /** One step of the scan visits square (col, row) and lists it when empty. */
  lemma ScanStep(g: Grid, col: int, row: int)
    requires 0 <= col < 3 && 0 <= row < 3
    ensures EmptyPlacesUpTo(g, 3 * col + row + 1) ==
      EmptyPlacesUpTo(g, 3 * col + row) + (if g[row][col] == E then [Place(col, row)] else [])
  {
    assert ScanColumn(3 * col + row) == col;
  }

  /** The designators of all empty squares, in column-major order. */
  function EmptyPlacesOf(g: Grid): seq<string> {
    EmptyPlacesUpTo(g, 9)
  }

  /** The number of squares holding p among the first k of the scan. */
  function CountUpTo(g: Grid, p: Piece, k: nat): (n: nat)
    requires k <= 9
    ensures n <= k
  {
    if k == 0 then 0 else CountUpTo(g, p, k - 1) + (if ScanCell(g, k - 1) == p then 1 else 0)
  }

  /** The number of squares holding p. */
  function Count(g: Grid, p: Piece): nat {
    CountUpTo(g, p, 9)
  }

  /** Every square holds exactly one of E, X and O. */
  lemma {:induction false} CountPartition(g: Grid, k: nat)
    requires k <= 9
    ensures CountUpTo(g, E, k) + CountUpTo(g, X, k) + CountUpTo(g, O, k) == k
  {
    if k > 0 {
      CountPartition(g, k - 1);
    }
  }

  /** Replacing one square moves one unit of count from its old piece to its new one. */
  lemma {:induction false} CountUpToSetCell(g: Grid, row: int, col: int, q: Piece, p: Piece, k: nat)
    requires 0 <= row < 3 && 0 <= col < 3 && k <= 9
    ensures CountUpTo(SetCell(g, row, col, q), p, k)
         == CountUpTo(g, p, k)
            + (if 3 * col + row < k then (if q == p then 1 else 0) - (if g[row][col] == p then 1 else 0) else 0)
  {
    if k > 0 {
      CountUpToSetCell(g, row, col, q, p, k - 1);
      var m := k - 1;
      if m == 3 * col + row {
        assert ScanCell(SetCell(g, row, col, q), m) == q;
        assert ScanCell(g, m) == g[row][col];
      } else {
        assert ScanRow(m) != row || ScanColumn(m) != col;
        assert ScanCell(SetCell(g, row, col, q), m) == ScanCell(g, m);
      }
    }
  }

  lemma CountSetCell(g: Grid, row: int, col: int, q: Piece, p: Piece)
    requires 0 <= row < 3 && 0 <= col < 3
    ensures Count(SetCell(g, row, col, q), p)
         == Count(g, p) + (if q == p then 1 else 0) - (if g[row][col] == p then 1 else 0)
  {
    CountUpToSetCell(g, row, col, q, p, 9);
  }

  /** The scan prefix lists one place per empty square it has passed. */
  lemma {:induction false} EmptyPlacesUpToLength(g: Grid, k: nat)
    requires k <= 9
    ensures |EmptyPlacesUpTo(g, k)| == CountUpTo(g, E, k)
  {
    if k > 0 {
      EmptyPlacesUpToLength(g, k - 1);
    }
  }

  /** p names only empty squares among the first k of the scan, in scan order. */
  predicate ScanOrdered(g: Grid, p: seq<string>, k: int) {
    && (forall i :: 0 <= i < |p| ==> IsDesignator(p[i]) && ScanIndex(p[i]) < k && CellAt(g, p[i]) == E)
    && (forall i, j :: 0 <= i < j < |p| ==> ScanIndex(p[i]) < ScanIndex(p[j]))
  }

  /** The scan prefix lists only empty squares it has passed, in scan order. */
  lemma {:induction false} EmptyPlacesUpToSound(g: Grid, k: nat)
    requires k <= 9
    ensures ScanOrdered(g, EmptyPlacesUpTo(g, k), k)
  {
    if k > 0 {
      var q := EmptyPlacesUpTo(g, k - 1);
      EmptyPlacesUpToSound(g, k - 1);
      if ScanCell(g, k - 1) == E {
        ScanPlaceFacts(g, k - 1);
        var p := q + [ScanPlace(k - 1)];
        assert EmptyPlacesUpTo(g, k) == p;
        forall i | 0 <= i < |p|
          ensures IsDesignator(p[i]) && ScanIndex(p[i]) < k && CellAt(g, p[i]) == E
        {
          if i < |q| {
            assert p[i] == q[i];
          }
        }
        forall i, j | 0 <= i < j < |p|
          ensures ScanIndex(p[i]) < ScanIndex(p[j])
        {
          assert p[i] == q[i];
          if j < |q| {
            assert p[j] == q[j];
          }
        }
      }
    }
  }

  /** The scan prefix lists every empty square it has passed. */
  lemma {:induction false} EmptyPlacesUpToComplete(g: Grid, k: nat)
    requires k <= 9
    ensures forall m :: 0 <= m < k && ScanCell(g, m) == E ==> ScanPlace(m) in EmptyPlacesUpTo(g, k)
  {
    if k > 0 {
      EmptyPlacesUpToComplete(g, k - 1);
    }
  }

  /** A square is among the empty places exactly when it is empty. */
  lemma EmptyPlaceMembership(g: Grid, col: int, row: int)
    requires 0 <= col < 3 && 0 <= row < 3
    ensures Place(col, row) in EmptyPlacesOf(g) <==> g[row][col] == E
  {
    var p := EmptyPlacesOf(g);
    CoordsOfPlace(col, row);
    var m := 3 * col + row;
    assert ScanPlace(m) == Place(col, row) && ScanCell(g, m) == g[row][col];
    if Place(col, row) in p {
      EmptyPlacesUpToSound(g, 9);
      var i :| 0 <= i < |p| && p[i] == Place(col, row);
      assert CellAt(g, p[i]) == E;
    } else {
      EmptyPlacesUpToComplete(g, 9);
    }
  }

  /** The empty places are exactly the empty squares, each listed once, in
      column-major order, and there are as many as there are empty squares. */
  lemma EmptyPlacesExact(g: Grid)
    ensures var p := EmptyPlacesOf(g);
      && (forall i :: 0 <= i < |p| ==> IsDesignator(p[i]) && CellAt(g, p[i]) == E)
      && (forall i, j :: 0 <= i < j < |p| ==> ScanIndex(p[i]) < ScanIndex(p[j]))
      && (forall i, j :: 0 <= i < j < |p| ==> p[i] != p[j])
      && (forall col, row :: 0 <= col < 3 && 0 <= row < 3 ==> (Place(col, row) in p <==> g[row][col] == E))
      && |p| == Count(g, E)
  {
    var p := EmptyPlacesOf(g);
    EmptyPlacesUpToLength(g, 9);
    EmptyPlacesUpToSound(g, 9);
    assert ScanOrdered(g, p, 9);
    forall col, row | 0 <= col < 3 && 0 <= row < 3
      ensures Place(col, row) in p <==> g[row][col] == E
    {
      EmptyPlaceMembership(g, col, row);
    }
  }

  /** The designators of the nine squares. */
  lemma PlaceNames()
    ensures Place(0, 0) == "a1" && Place(0, 1) == "a2" && Place(0, 2) == "a3"
    ensures Place(1, 0) == "b1" && Place(1, 1) == "b2" && Place(1, 2) == "b3"
    ensures Place(2, 0) == "c1" && Place(2, 1) == "c2" && Place(2, 2) == "c3"
  {
  }

  /** An empty grid offers all nine squares, in column-major order. */
  lemma EmptyPlacesOfEmptyGrid()
    ensures EmptyPlacesOf(EmptyGrid) == ["a1", "a2", "a3", "b1", "b2", "b3", "c1", "c2", "c3"]
  {
    PlaceNames();
    assert EmptyPlacesUpTo(EmptyGrid, 3) == ["a1", "a2", "a3"];
    assert EmptyPlacesUpTo(EmptyGrid, 6) == ["a1", "a2", "a3", "b1", "b2", "b3"];
  }

  /** A full grid offers no square. */
  lemma EmptyPlacesOfFullGrid(g: Grid)
    requires forall r, c :: 0 <= r < 3 && 0 <= c < 3 ==> g[r][c] != E
    ensures EmptyPlacesOf(g) == []
  {
    EmptyPlacesExact(g);
    NoneCounted(g, E, 9);
  }

  /** A piece found on no square is counted zero times. */
  lemma {:induction false} NoneCounted(g: Grid, p: Piece, k: nat)
    requires k <= 9
    requires forall r, c :: 0 <= r < 3 && 0 <= c < 3 ==> g[r][c] != p
    ensures CountUpTo(g, p, k) == 0
  {
    if k > 0 {
      NoneCounted(g, p, k - 1);
    }
  }

  // ---------------------------------------------------------------------------
  // Lines and the winner.

  /** The squares (row, col) of line k, in the order Java's Board.winner tests them:
      rows 0..2, then columns 0..2, then the two diagonals. */
  function Line(k: int): (l: seq<(int, int)>)
    requires 0 <= k < 8
    ensures |l| == 3 && forall i :: 0 <= i < 3 ==> 0 <= l[i].0 < 3 && 0 <= l[i].1 < 3
  {
    if k < 3 then [(k, 0), (k, 1), (k, 2)]
    else if k < 6 then [(0, k - 3), (1, k - 3), (2, k - 3)]
    else if k == 6 then [(0, 0), (1, 1), (2, 2)]
    else [(0, 2), (1, 1), (2, 0)]
  }

  /** The piece that fills all three squares of line k, or E when none does. */
  function LineOwner(g: Grid, k: int): Piece
    requires 0 <= k < 8
  {
    var l := Line(k);
    var a, b, c := g[l[0].0][l[0].1], g[l[1].0][l[1].1], g[l[2].0][l[2].1];
    if a == b && b == c then a else E
  }

  /** Some line is filled by one side. */
  predicate HasCompleteLine(g: Grid) {
    exists k :: 0 <= k < 8 && LineOwner(g, k) != E
  }

  /** The three squares hold the same piece and it is not E. */
  predicate Three(a: Piece, b: Piece, c: Piece) {
    a == b && b == c && a != E
  }

  /** The eight tests of Java's Board.winner, written out square by square. */
  lemma CompleteLineCases(g: Grid)
    ensures HasCompleteLine(g) <==>
      || Three(g[0][0], g[0][1], g[0][2])
      || Three(g[1][0], g[1][1], g[1][2])
      || Three(g[2][0], g[2][1], g[2][2])
      || Three(g[0][0], g[1][0], g[2][0])
      || Three(g[0][1], g[1][1], g[2][1])
      || Three(g[0][2], g[1][2], g[2][2])
      || Three(g[0][0], g[1][1], g[2][2])
      || Three(g[0][2], g[1][1], g[2][0])
  {
    if HasCompleteLine(g) {
      var k :| 0 <= k < 8 && LineOwner(g, k) != E;
      if k == 0 {} else if k == 1 {} else if k == 2 {} else if k == 3 {}
      else if k == 4 {} else if k == 5 {} else if k == 6 {} else {}
    }
    if Three(g[0][0], g[0][1], g[0][2]) { assert LineOwner(g, 0) != E; }
    if Three(g[1][0], g[1][1], g[1][2]) { assert LineOwner(g, 1) != E; }
    if Three(g[2][0], g[2][1], g[2][2]) { assert LineOwner(g, 2) != E; }
    if Three(g[0][0], g[1][0], g[2][0]) { assert LineOwner(g, 3) != E; }
    if Three(g[0][1], g[1][1], g[2][1]) { assert LineOwner(g, 4) != E; }
    if Three(g[0][2], g[1][2], g[2][2]) { assert LineOwner(g, 5) != E; }
    if Three(g[0][0], g[1][1], g[2][2]) { assert LineOwner(g, 6) != E; }
    if Three(g[0][2], g[1][1], g[2][0]) { assert LineOwner(g, 7) != E; }
  }

  /** Java's Board.winner: a completed line is credited to the side that does
      not have the move, without looking at the pieces on the line; otherwise
      a board with no empty place is a tie (Some(E)); otherwise the game goes
      on (None). */
  function WinnerOf(s: State): Option<Piece> {
    if HasCompleteLine(s.cells) then Some(Opposite(s.turn))
    else if |EmptyPlacesOf(s.cells)| == 0 then Some(E)
    else None
  }

  /** What each answer of WinnerOf means, for a board whose side to move is a
      side: a line beats a tie, a tie is a full board without a line, and None
      means no line and at least one empty square. */
  lemma WinnerCases(s: State)
    requires s.turn != E
    ensures WinnerOf(s) == Some(Opposite(s.turn)) <==> HasCompleteLine(s.cells)
    ensures WinnerOf(s) == Some(E) <==>
      !HasCompleteLine(s.cells) && forall r, c :: 0 <= r < 3 && 0 <= c < 3 ==> s.cells[r][c] != E
    ensures WinnerOf(s) == None <==>
      !HasCompleteLine(s.cells) && exists r, c :: 0 <= r < 3 && 0 <= c < 3 && s.cells[r][c] == E
  {
    var g := s.cells;
    EmptyPlacesExact(g);
    if forall r, c :: 0 <= r < 3 && 0 <= c < 3 ==> g[r][c] != E {
      EmptyPlacesOfFullGrid(g);
    } else {
      var r, c :| 0 <= r < 3 && 0 <= c < 3 && g[r][c] == E;
      assert Place(c, r) in EmptyPlacesOf(g);
    }
  }

  // ---------------------------------------------------------------------------
  // Moves and their reversal.

  /** The square is free, so a put there succeeds. */
  predicate IsFree(s: State, col: int, row: int)
    requires 0 <= col < 3 && 0 <= row < 3
  {
    s.cells[row][col] == E
  }

  /** The board after the side to move puts a piece on (col, row). */
  function Played(s: State, col: int, row: int): State
    requires 0 <= col < 3 && 0 <= row < 3
  {
    State(SetCell(s.cells, row, col, s.turn), Opposite(s.turn), s.moves + [Place(col, row)])
  }

  /** The most recent move names a square, so undo can clear it. */
  predicate CanUndo(s: State) {
    |s.moves| > 0 && IsDesignator(s.moves[|s.moves| - 1])
  }

  /** The board after the most recent move is taken back. */
  function Undone(s: State): State
    requires CanUndo(s)
  {
    var cr := Coords(s.moves[|s.moves| - 1]);
    State(SetCell(s.cells, cr.1, cr.0, E), Opposite(s.turn), s.moves[..|s.moves| - 1])
  }

  /** Undoing a successful put restores the board: squares, turn and moves. */
  lemma PutThenUndo(s: State, col: int, row: int)
    requires 0 <= col < 3 && 0 <= row < 3 && IsFree(s, col, row)
    ensures CanUndo(Played(s, col, row))
    ensures Undone(Played(s, col, row)) == s
  {
    CoordsOfPlace(col, row);
    OppositeInvolution(s.turn);
    var t := Played(s, col, row);
    assert t.moves[..|t.moves| - 1] == s.moves;
    var g := SetCell(t.cells, row, col, E);
    assert forall r :: 0 <= r < 3 ==> g[r] == s.cells[r];
  }

  // ---------------------------------------------------------------------------
  // The history invariant kept by the constructors, put and undo.

  /** The side that makes move number i (counting from 0): X moves first. */
  function Mover(i: nat): (p: Piece)
    ensures p != E
  {
    if i % 2 == 0 then X else O
  }

  /** Consecutive moves are made by opposite sides. */
  lemma MoverAlternates(i: nat)
    ensures Opposite(Mover(i)) == Mover(i + 1)
  {
  }

  /** Every recorded move names a distinct square that still holds its mover's
      piece, the counts of X and O match the number of moves, and the side to
      move is the next mover. */
  predicate Consistent(s: State) {
    && s.turn == Mover(|s.moves|)
    && (forall i :: 0 <= i < |s.moves| ==> IsDesignator(s.moves[i]) && CellAt(s.cells, s.moves[i]) == Mover(i))
    && (forall i, j :: 0 <= i < j < |s.moves| ==> s.moves[i] != s.moves[j])
    && Count(s.cells, X) == (|s.moves| + 1) / 2
    && Count(s.cells, O) == |s.moves| / 2
  }

  lemma InitialConsistent()
    ensures Consistent(Initial)
  {
  }

  /** The invariant stated as counts: one occupied square per
      move, X to move exactly after an even number of moves, and X ahead of O
      by 0 or 1. */
  lemma ConsistentBalance(s: State)
    requires Consistent(s)
    ensures Count(s.cells, X) + Count(s.cells, O) == |s.moves|
    ensures |EmptyPlacesOf(s.cells)| == 9 - |s.moves|
    ensures s.turn == X <==> |s.moves| % 2 == 0
    ensures s.turn != E
    ensures 0 <= Count(s.cells, X) - Count(s.cells, O) <= 1
  {
    CountPartition(s.cells, 9);
    EmptyPlacesExact(s.cells);
  }

  /** A put on a free square keeps the invariant. */
  lemma PlayedConsistent(s: State, col: int, row: int)
    requires Consistent(s)
    requires 0 <= col < 3 && 0 <= row < 3 && IsFree(s, col, row)
    ensures Consistent(Played(s, col, row))
  {
    var t := Played(s, col, row);
    var n := |s.moves|;
    CoordsOfPlace(col, row);
    CountSetCell(s.cells, row, col, s.turn, X);
    CountSetCell(s.cells, row, col, s.turn, O);
    forall i | 0 <= i < n
      ensures IsDesignator(t.moves[i]) && CellAt(t.cells, t.moves[i]) == Mover(i)
      ensures t.moves[i] != Place(col, row)
    {
      assert t.moves[i] == s.moves[i];
      var cr := Coords(s.moves[i]);
      assert s.cells[cr.1][cr.0] == Mover(i) != E;
      assert cr != (col, row);
    }
  }

  /** Taking back the last move keeps the invariant. */
  lemma UndoneConsistent(s: State)
    requires Consistent(s) && |s.moves| > 0
    ensures CanUndo(s)
    ensures Consistent(Undone(s))
  {
    var n := |s.moves|;
    var last := s.moves[n - 1];
    var cr := Coords(last);
    var t := Undone(s);
    assert s.cells[cr.1][cr.0] == Mover(n - 1);
    CountSetCell(s.cells, cr.1, cr.0, E, X);
    CountSetCell(s.cells, cr.1, cr.0, E, O);
    forall i | 0 <= i < n - 1
      ensures IsDesignator(t.moves[i]) && CellAt(t.cells, t.moves[i]) == Mover(i)
    {
      assert t.moves[i] == s.moves[i];
      CoordsInjective(s.moves[i], last);
    }
  }

  /** Under the invariant, undo followed by replaying the undone move gives the
      board back. */
  lemma UndoThenReplay(s: State)
    requires Consistent(s) && |s.moves| > 0
    ensures CanUndo(s)
    ensures var cr := Coords(s.moves[|s.moves| - 1]);
      IsFree(Undone(s), cr.0, cr.1) && Played(Undone(s), cr.0, cr.1) == s
  {
    var n := |s.moves|;
    var last := s.moves[n - 1];
    var cr := Coords(last);
    var u := Undone(s);
    PlaceOfCoords(last);
    assert s.cells[cr.1][cr.0] == Mover(n - 1) == Opposite(s.turn);
    OppositeInvolution(s.turn);
    var t := Played(u, cr.0, cr.1);
    assert t.moves == s.moves;
    assert forall r :: 0 <= r < 3 ==> t.cells[r] == s.cells[r];
  }

  /** put(String) on the value level: a malformed designator or an occupied
      square leaves the board as it was. */
  function PutPlaced(s: State, place: string): State {
    if IsDesignator(place) && IsFree(s, Coords(place).0, Coords(place).1)
    then Played(s, Coords(place).0, Coords(place).1)
    else s
  }

  /** The board reached from the initial one by put(String) of each move in turn. */
  function Replay(moves: seq<string>): State {
    if moves == [] then Initial else PutPlaced(Replay(moves[..|moves| - 1]), moves[|moves| - 1])
  }

  /** A board that satisfies the invariant with no moves is the initial one. */
  lemma ConsistentWithoutMoves(s: State)
    requires Consistent(s) && s.moves == []
    ensures s == Initial
  {
    forall r, c | 0 <= r < 3 && 0 <= c < 3
      ensures s.cells[r][c] == E
    {
      EmptyCellsFromCounts(s.cells, r, c);
    }
    assert forall r :: 0 <= r < 3 ==> s.cells[r] == EmptyGrid[r];
  }

  /** Every board that satisfies the invariant is the one its move list
      produces from the initial board, and each of those puts succeeds: the
      board after the first i moves has exactly those i moves recorded. */
  lemma {:induction false} ConsistentIsReplay(s: State)
    requires Consistent(s)
    ensures Replay(s.moves) == s
    ensures forall i :: 0 <= i <= |s.moves| ==> Replay(s.moves[..i]).moves == s.moves[..i]
    decreases |s.moves|
  {
    if s.moves == [] {
      ConsistentWithoutMoves(s);
    } else {
      var n := |s.moves|;
      var u := Undone(s);
      UndoneConsistent(s);
      UndoThenReplay(s);
      ConsistentIsReplay(u);
      assert u.moves == s.moves[..n - 1];
      assert Replay(s.moves) == PutPlaced(u, s.moves[n - 1]);
      forall i | 0 <= i <= n
        ensures Replay(s.moves[..i]).moves == s.moves[..i]
      {
        if i < n {
          assert s.moves[..i] == u.moves[..i];
        } else {
          assert s.moves[..i] == s.moves;
        }
      }
    }
  }

  /** A put by a side occupies the square it names and leaves the occupancy
      of every other square as it was. */
  lemma OccupiedAfterPlayed(s: State, col: int, row: int, place: string)
    requires 0 <= col < 3 && 0 <= row < 3 && s.turn != E && IsDesignator(place)
    ensures CellAt(Played(s, col, row).cells, place) != E <==>
      CellAt(s.cells, place) != E || place == Place(col, row)
  {
    CoordsOfPlace(col, row);
    if place != Place(col, row) {
      CoordsInjective(place, Place(col, row));
    }
  }

  /** Under the invariant the occupied squares are exactly the ones the move
      list names: a designator's square holds a piece iff it was played. */
  lemma {:induction false} OccupiedIffPlayed(s: State, place: string)
    requires Consistent(s) && IsDesignator(place)
    ensures CellAt(s.cells, place) != E <==> place in s.moves
    decreases |s.moves|
  {
    if s.moves == [] {
      ConsistentWithoutMoves(s);
    } else {
      var n := |s.moves|;
      var last := s.moves[n - 1];
      var u := Undone(s);
      UndoneConsistent(s);
      UndoThenReplay(s);
      OccupiedIffPlayed(u, place);
      var cr := Coords(last);
      PlaceOfCoords(last);
      OccupiedAfterPlayed(u, cr.0, cr.1, place);
      assert s.moves == u.moves + [last];
    }
  }

  /** Under the invariant the empty places are the squares no move names. */
  lemma EmptyPlacesAreUnplayed(s: State, place: string)
    requires Consistent(s) && IsDesignator(place)
    ensures place in EmptyPlacesOf(s.cells) <==> place !in s.moves
  {
    var cr := Coords(place);
    PlaceOfCoords(place);
    EmptyPlaceMembership(s.cells, cr.0, cr.1);
    OccupiedIffPlayed(s, place);
  }

  /** With no X and no O counted, every square is empty. */
  lemma EmptyCellsFromCounts(g: Grid, r: int, c: int)
    requires 0 <= r < 3 && 0 <= c < 3
    requires Count(g, X) == 0 && Count(g, O) == 0
    ensures g[r][c] == E
  {
    if g[r][c] != E {
      CountSetCell(g, r, c, E, g[r][c]);
    }
  }

  // ---------------------------------------------------------------------------
  // Whom the winner names.

  /** A put can complete only lines through its own square. */
  lemma LineOwnerAfterSet(g: Grid, row: int, col: int, p: Piece, k: int)
    requires 0 <= row < 3 && 0 <= col < 3 && 0 <= k < 8
    ensures var o := LineOwner(SetCell(g, row, col, p), k);
      o == E || o == p || o == LineOwner(g, k)
  {
  }

  /** From an undecided board, a put completes only lines of the side that
      moved, and the winner Board.winner then reports is that side; so while no
      move is made on a decided board, the reported winner owns a line. */
  lemma WinnerAfterPut(s: State, col: int, row: int)
    requires 0 <= col < 3 && 0 <= row < 3 && IsFree(s, col, row)
    requires s.turn != E && WinnerOf(s) == None
    ensures var t := Played(s, col, row);
      forall k :: 0 <= k < 8 && LineOwner(t.cells, k) != E ==> LineOwner(t.cells, k) == s.turn
    ensures var t := Played(s, col, row);
      WinnerOf(t) == Some(s.turn) <==> exists k :: 0 <= k < 8 && LineOwner(t.cells, k) == s.turn
  {
    var t := Played(s, col, row);
    OppositeInvolution(s.turn);
    forall k | 0 <= k < 8 && LineOwner(t.cells, k) != E
      ensures LineOwner(t.cells, k) == s.turn
    {
      LineOwnerAfterSet(s.cells, row, col, s.turn, k);
    }
    if WinnerOf(t) == Some(s.turn) {
      assert s.turn != E;
      WinnerCases(t);
    }
  }

  /** The board after a1, b1, a2, b2, a3, c1: column a is X's, and X is to move. */
  const PlayedOn: State :=
    State([[X, O, O], [X, O, E], [X, E, E]], X, ["a1", "b1", "a2", "b2", "a3", "c1"])

  lemma PlayedOnCounts()
    ensures Count(PlayedOn.cells, X) == 3 && Count(PlayedOn.cells, O) == 3
  {
    var g := PlayedOn.cells;
    assert CountUpTo(g, X, 3) == 3 && CountUpTo(g, O, 3) == 0;
    assert CountUpTo(g, X, 6) == 3 && CountUpTo(g, O, 6) == 2;
  }

  lemma PlayedOnMovesPlaced()
    ensures forall i :: 0 <= i < |PlayedOn.moves| ==>
      IsDesignator(PlayedOn.moves[i]) && CellAt(PlayedOn.cells, PlayedOn.moves[i]) == Mover(i)
  {
    var m := PlayedOn.moves;
    assert CellAt(PlayedOn.cells, m[0]) == X && CellAt(PlayedOn.cells, m[1]) == O;
    assert CellAt(PlayedOn.cells, m[2]) == X && CellAt(PlayedOn.cells, m[3]) == O;
    assert CellAt(PlayedOn.cells, m[4]) == X && CellAt(PlayedOn.cells, m[5]) == O;
  }

  lemma PlayedOnMovesDistinct()
    ensures forall i, j :: 0 <= i < j < |PlayedOn.moves| ==> PlayedOn.moves[i] != PlayedOn.moves[j]
  {
    var m := PlayedOn.moves;
    forall i, j | 0 <= i < j < |m|
      ensures m[i] != m[j]
    {
      assert m[i][0] != m[j][0] || m[i][1] != m[j][1];
    }
  }

  /** PlayedOn satisfies the history invariant, so (by ConsistentIsReplay) the
      six puts of its move list produce it from the initial board. */
  lemma PlayedOnReached()
    ensures Consistent(PlayedOn)
    ensures Replay(PlayedOn.moves) == PlayedOn
  {
    PlayedOnCounts();
    PlayedOnMovesPlaced();
    PlayedOnMovesDistinct();
    ConsistentIsReplay(PlayedOn);
  }

  /** Once play continues past a decided board, Board.winner can name a
      side that owns no line: after a1, b1, a2, b2, a3, c1 only X fills a line
      (column a), yet O is reported. */
  lemma PlayOnMisattributes()
    ensures Replay(PlayedOn.moves) == PlayedOn
    ensures WinnerOf(PlayedOn) == Some(O)
    ensures LineOwner(PlayedOn.cells, 3) == X
    ensures forall k :: 0 <= k < 8 ==> LineOwner(PlayedOn.cells, k) != O
  {
    PlayedOnReached();
    PlayedOnLines();
    assert HasCompleteLine(PlayedOn.cells);
  }

  /** Of the eight lines of PlayedOn, column a is X's and none is O's. */
  lemma PlayedOnLines()
    ensures LineOwner(PlayedOn.cells, 3) == X
    ensures forall k :: 0 <= k < 8 ==> LineOwner(PlayedOn.cells, k) != O
  {
    var g := PlayedOn.cells;
    assert LineOwner(g, 0) == E && LineOwner(g, 1) == E && LineOwner(g, 2) == E;
    assert LineOwner(g, 3) == X && LineOwner(g, 4) == E && LineOwner(g, 5) == E;
    assert LineOwner(g, 6) == E && LineOwner(g, 7) == E;
  }

  /** The board after all nine squares are played in the order a1, a2, a3,
      b1, ..., c3: X holds both diagonals and O is to move. */
  const FilledInOrder: State :=
    State([[X, O, X], [O, X, O], [X, O, X]], O, ["a1", "a2", "a3", "b1", "b2", "b3", "c1", "c2", "c3"])

  lemma FilledInOrderCounts()
    ensures Count(FilledInOrder.cells, X) == 5 && Count(FilledInOrder.cells, O) == 4
  {
    var g := FilledInOrder.cells;
    assert CountUpTo(g, X, 3) == 2 && CountUpTo(g, O, 3) == 1;
    assert CountUpTo(g, X, 6) == 3 && CountUpTo(g, O, 6) == 3;
  }

  lemma FilledInOrderMovesPlaced()
    ensures forall i :: 0 <= i < |FilledInOrder.moves| ==>
      IsDesignator(FilledInOrder.moves[i]) && CellAt(FilledInOrder.cells, FilledInOrder.moves[i]) == Mover(i)
  {
    var m, g := FilledInOrder.moves, FilledInOrder.cells;
    assert CellAt(g, m[0]) == X && CellAt(g, m[1]) == O && CellAt(g, m[2]) == X;
    assert CellAt(g, m[3]) == O && CellAt(g, m[4]) == X && CellAt(g, m[5]) == O;
    assert CellAt(g, m[6]) == X && CellAt(g, m[7]) == O && CellAt(g, m[8]) == X;
  }

  lemma FilledInOrderMovesDistinct()
    ensures forall i, j :: 0 <= i < j < |FilledInOrder.moves| ==> FilledInOrder.moves[i] != FilledInOrder.moves[j]
  {
    var m := FilledInOrder.moves;
    forall i, j | 0 <= i < j < |m|
      ensures m[i] != m[j]
    {
      assert m[i][0] != m[j][0] || m[i][1] != m[j][1];
    }
  }

  /** Putting on every square in column-major order does not end in a tie:
      the nine puts all succeed, the board is full, and Board.winner reports
      X, which owns the main diagonal. */
  lemma FilledInOrderWon()
    ensures Replay(FilledInOrder.moves) == FilledInOrder
    ensures forall r, c :: 0 <= r < 3 && 0 <= c < 3 ==> FilledInOrder.cells[r][c] != E
    ensures LineOwner(FilledInOrder.cells, 6) == X
    ensures WinnerOf(FilledInOrder) == Some(X)
  {
    FilledInOrderCounts();
    FilledInOrderMovesPlaced();
    FilledInOrderMovesDistinct();
    ConsistentIsReplay(FilledInOrder);
    assert LineOwner(FilledInOrder.cells, 6) == X;
  }
}
