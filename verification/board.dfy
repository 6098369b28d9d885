/**
 * The tic-tac-toe board as the Java class game.Board keeps it: a 3x3 array updated in place,
 * the side to move, the list of moves played, and two memo caches (the empty
 * places and the winner). Each method is specified against the value-level
 * functions of Position.
 */
module Boards {
  import opened Wrappers
  import opened Pieces
  import opened Position

  class Board {
    /** The squares, indexed grid[row, col]. */
    var grid: array2<Piece>
    /** The side that puts the next piece. */
    var turn: Piece
    /** The designators of the moves played so far, oldest first. */
    var moves: seq<string>
    /** Memo of the empty places; meaningful only while emptyPlacesInitialized. */
    var emptyPlaces: seq<string>
    var emptyPlacesInitialized: bool
    /** Memo of the winner; meaningful only while winnerKnown. */
    var winner: Option<Piece>
    var winnerKnown: bool

    ghost predicate Shaped()
      reads this`grid
    {
      grid.Length0 == 3 && grid.Length1 == 3
    }

    /** The squares as a value. */
    ghost function Cells(): Grid
      reads this`grid, grid
      requires Shaped()
    {
      [[grid[0, 0], grid[0, 1], grid[0, 2]],
       [grid[1, 0], grid[1, 1], grid[1, 2]],
       [grid[2, 0], grid[2, 1], grid[2, 2]]]
    }

    /** Square (r, c) of the value is the array element [r, c]. */
    lemma CellOf(r: int, c: int)
      requires Shaped() && 0 <= r < 3 && 0 <= c < 3
      ensures Cells()[r][c] == grid[r, c]
    {
    }

    /** What equals compares: squares, side to move and moves. */
    ghost function Snapshot(): State
      reads this, grid
      requires Shaped()
    {
      State(Cells(), turn, moves)
    }

    /** The board's history is consistent and each memo, when set, is exact. */
    ghost predicate Valid()
      reads this, grid
    {
      && Shaped()
      && Consistent(Snapshot())
      && (emptyPlacesInitialized ==> emptyPlaces == EmptyPlacesOf(Cells()))
      && (winnerKnown ==> winner == WinnerOf(Snapshot()))
    }

    /** An empty board with X to move. */
    constructor ()
      ensures Valid() && fresh(grid)
      ensures Snapshot() == Initial
      ensures !emptyPlacesInitialized && !winnerKnown
    {
      grid := new Piece[3, 3];
      turn := E;
      moves := [];
      emptyPlaces := [];
      emptyPlacesInitialized := false;
      winner := None;
      winnerKnown := false;
      new;
      Reset();
      InitialConsistent();
    }

    /** A board equal to other, on an array of its own; the memos are copied too. */
    constructor Copy(other: Board)
      requires other.Valid()
      ensures Valid() && fresh(grid)
      ensures Snapshot() == other.Snapshot()
      ensures emptyPlacesInitialized == other.emptyPlacesInitialized
      ensures emptyPlaces == if other.emptyPlacesInitialized then other.emptyPlaces else []
      ensures winnerKnown == other.winnerKnown && winner == other.winner
    {
      grid := new Piece[3, 3];
      turn := other.turn;
      moves := [] + other.moves;
      emptyPlacesInitialized := other.emptyPlacesInitialized;
      emptyPlaces := if other.emptyPlacesInitialized then [] + other.emptyPlaces else [];
      winnerKnown := other.winnerKnown;
      winner := other.winner;
      new;
      for r := 0 to 3
        modifies grid
        invariant forall i, j :: 0 <= i < r && 0 <= j < 3 ==> grid[i, j] == other.grid[i, j]
      {
        for c := 0 to 3
          modifies grid
          invariant forall i, j :: 0 <= i < r && 0 <= j < 3 ==> grid[i, j] == other.grid[i, j]
          invariant forall j :: 0 <= j < c ==> grid[r, j] == other.grid[r, j]
        {
          grid[r, c] := other.grid[r, c];
        }
      }
      assert Cells() == other.Cells();
      assert Snapshot() == other.Snapshot();
    }

    /** Clears every square and gives X the move. The move list is kept, so
        only a board with no moves comes out consistent. */
    method Reset()
      requires Shaped()
      modifies this, grid
      ensures grid == old(grid) && Shaped()
      ensures Cells() == EmptyGrid && turn == X && moves == old(moves)
      ensures !emptyPlacesInitialized && !winnerKnown
      ensures emptyPlaces == old(emptyPlaces) && winner == old(winner)
    {
      for r := 0 to 3
        modifies grid
        invariant forall i, j :: 0 <= i < r && 0 <= j < 3 ==> grid[i, j] == E
      {
        for c := 0 to 3
          modifies grid
          invariant forall i, j :: 0 <= i < r && 0 <= j < 3 ==> grid[i, j] == E
          invariant forall j :: 0 <= j < c ==> grid[r, j] == E
        {
          grid[r, c] := E;
        }
      }
      turn := X;
      emptyPlacesInitialized := false;
      winnerKnown := false;
    }

    /** Puts the side to move's piece on (col, row) if that square is empty,
        recording the move, passing the turn and dropping both memos; on an
        occupied square it changes nothing. */
    method Put(col: int, row: int) returns (ok: bool)
      requires Valid()
      requires 0 <= col < 3 && 0 <= row < 3
      modifies this, grid
      ensures Valid() && grid == old(grid)
      ensures ok == IsFree(old(Snapshot()), col, row)
      ensures Snapshot() == if ok then Played(old(Snapshot()), col, row) else old(Snapshot())
      ensures ok ==> !emptyPlacesInitialized && !winnerKnown
      ensures !ok ==> unchanged(this)
    {
      if grid[row, col] == E {
        ghost var before := Snapshot();
        PlayedConsistent(before, col, row);
        Write(row, col, turn);
        moves := moves + [Place(col, row)];
        turn := Opposite(turn);
        emptyPlacesInitialized := false;
        winnerKnown := false;
        assert Snapshot() == Played(before, col, row);
        return true;
      }
      return false;
    }

    /** Writes one square of the array; the other eight keep their pieces. */
    method Write(row: int, col: int, p: Piece)
      requires Shaped() && 0 <= row < 3 && 0 <= col < 3
      modifies grid
      ensures Shaped() && Cells() == SetCell(old(Cells()), row, col, p)
    {
      ghost var g := SetCell(Cells(), row, col, p);
      grid[row, col] := p;
      forall r | 0 <= r < 3
        ensures Cells()[r] == g[r]
      {
        assert forall c :: 0 <= c < 3 ==> Cells()[r][c] == g[r][c];
      }
    }

    /** put(String): a string that is not a designator is refused; otherwise
        the put goes to the square it names. */
    method PutPlace(place: string) returns (ok: bool)
      requires Valid()
      modifies this, grid
      ensures Valid() && grid == old(grid)
      ensures ok == (IsDesignator(place) && CellAt(old(Cells()), place) == E)
      ensures Snapshot() == PutPlaced(old(Snapshot()), place)
      ensures ok ==> !emptyPlacesInitialized && !winnerKnown
      ensures !ok ==> unchanged(this)
    {
      if IsDesignator(place) {
        var cr := Coords(place);
        ok := Put(cr.0, cr.1);
      } else {
        ok := false;
      }
    }

    /** Takes back the most recent move: clears its square, drops it from the
        list, passes the turn back and drops both memos. */
    method Undo()
      requires Valid() && |moves| > 0
      modifies this, grid
      ensures Valid() && grid == old(grid)
      ensures CanUndo(old(Snapshot())) && Snapshot() == Undone(old(Snapshot()))
      ensures !emptyPlacesInitialized && !winnerKnown
    {
      ghost var before := Snapshot();
      UndoneConsistent(before);
      var recent := moves[|moves| - 1];
      var cr := Coords(recent);
      Write(cr.1, cr.0, E);
      moves := moves[..|moves| - 1];
      emptyPlacesInitialized := false;
      winnerKnown := false;
      turn := Opposite(turn);
      assert Snapshot() == Undone(before);
    }

    /** The scan behind emptyPlaces: columns a to c, rows 1 to 3 within each. */
    method ScanEmptyPlaces() returns (places: seq<string>)
      requires Shaped()
      ensures places == EmptyPlacesOf(Cells())
    {
      ghost var g := Cells();
      places := [];
      for c := 0 to 3
        invariant places == EmptyPlacesUpTo(g, 3 * c)
      {
        for r := 0 to 3
          invariant places == EmptyPlacesUpTo(g, 3 * c + r)
        {
          ScanStep(g, c, r);
          CellOf(r, c);
          if grid[r, c] == E {
            places := places + [Place(c, r)];
          }
        }
      }
    }

    /** The empty places, from the memo when it is set. */
    method EmptyPlaces() returns (places: seq<string>)
      requires Valid()
      modifies this`emptyPlaces, this`emptyPlacesInitialized
      ensures Valid()
      ensures places == EmptyPlacesOf(Cells())
      ensures emptyPlacesInitialized && emptyPlaces == places
    {
      if emptyPlacesInitialized {
        return emptyPlaces;
      }
      places := ScanEmptyPlaces();
      emptyPlacesInitialized := true;
      emptyPlaces := places;
    }

    /** The eight line tests of Java's Board.winner, square by square: a line counts
        when its three squares agree and are not empty. */
    method HasLine() returns (b: bool)
      requires Shaped()
      ensures b == HasCompleteLine(Cells())
    {
      b := Three(grid[0, 0], grid[0, 1], grid[0, 2])
        || Three(grid[1, 0], grid[1, 1], grid[1, 2])
        || Three(grid[2, 0], grid[2, 1], grid[2, 2])
        || Three(grid[0, 0], grid[1, 0], grid[2, 0])
        || Three(grid[0, 1], grid[1, 1], grid[2, 1])
        || Three(grid[0, 2], grid[1, 2], grid[2, 2])
        || Three(grid[0, 0], grid[1, 1], grid[2, 2])
        || Three(grid[0, 2], grid[1, 1], grid[2, 0]);
      CompleteLineCases(Cells());
    }

    /** The winner: the side that made the last move if some line is filled,
        E for a tie, None while the game goes on; computed once and then
        served from the memo until the next put or undo. */
    method Winner() returns (w: Option<Piece>)
      requires Valid()
      modifies this`winner, this`winnerKnown, this`emptyPlaces, this`emptyPlacesInitialized
      ensures Valid()
      ensures w == WinnerOf(Snapshot())
      ensures winnerKnown && winner == w
      ensures old(winnerKnown) ==> unchanged(this)
    {
      if winnerKnown {
        return winner;
      }
      var line := HasLine();
      if line {
        w := Some(Opposite(turn));
      } else {
        var places := EmptyPlaces();
        if |places| == 0 {
          w := Some(E);
        } else {
          w := None;
        }
      }
      winner := w;
      winnerKnown := true;
    }

    /** equals: the same squares, the same side to move and the same moves. */
    method Equals(other: Board) returns (eq: bool)
      requires Shaped() && other.Shaped()
      ensures eq <==> Snapshot() == other.Snapshot()
    {
      for r := 0 to 3
        invariant forall i, j :: 0 <= i < r && 0 <= j < 3 ==> grid[i, j] == other.grid[i, j]
      {
        for c := 0 to 3
          invariant forall i, j :: 0 <= i < r && 0 <= j < 3 ==> grid[i, j] == other.grid[i, j]
          invariant forall j :: 0 <= j < c ==> grid[r, j] == other.grid[r, j]
        {
          if grid[r, c] != other.grid[r, c] {
            assert Cells()[r][c] != other.Cells()[r][c];
            return false;
          }
        }
      }
      assert Cells() == other.Cells();
      if turn != other.turn {
        return false;
      }
      if |moves| != |other.moves| {
        return false;
      }
      if |moves| > 0 {
        for i := 0 to |moves|
          invariant forall j :: 0 <= j < i ==> moves[j] == other.moves[j]
        {
          if moves[i] != other.moves[i] {
            return false;
          }
        }
      }
      assert moves == other.moves;
      return true;
    }
  }
}
