# Tic-tac-toe board and search-tree node

A model of the game state behind a Monte Carlo tree search player for
tic-tac-toe, with proofs about it. The model covers three parts:

- the `Board`: a 3x3 array of pieces, the side to move, the list of moves
  played (designators such as `"a1"`), and two memo caches for the empty
  places and the winner;
- the `Piece` enum `E | X | O` and its `opposite`;
- the structural half of a search-tree `TreeNode`: its constructor,
  `expand`, `isLeaf`, `winner` and the visit and win counters.

The project has six modules:

- `Wrappers` holds `Option`. `None` stands for Java's `null` winner and for
  the missing move of a root node.
- `Pieces` models the `Piece` enum.
- `Position` is the value-level meaning of a board: a `Grid` of rows, and a
  `State` of squares, side to move and moves. It defines what `put`, `undo`,
  `emptyPlaces` and `winner` compute, and a history invariant `Consistent`
  that the default constructor, `put` and `undo` keep. The invariant says:
  - every move names a distinct square that still holds its mover's piece;
  - X has made `ceil(n/2)` of the `n` moves and O `floor(n/2)`;
  - X is to move exactly after an even number of moves.
- `Boards` models the `Board` class over an `array2<Piece>`. Each method
  is specified against `Position` through the ghost views `Cells()` and
  `Snapshot()`. `Valid()` is `Consistent` plus exact memos.
- `Mcts` models the `TreeNode` class. `expand` is a loop that appends one
  child per empty place. Each child wraps a fresh copy of the board with
  that move put.
- `BoardTests` restates the JUnit tests as client methods that hold for
  any board the tests' moves apply to.

The Javadoc of `Board.winner` (src/game/Board.java:203) promises "the
winning Piece". The code (src/game/Board.java:219) credits any completed
line to the side that does not have the move (`_turn.opposite()`) and
never reads the pieces on the line. The model keeps the code's rule in
`WinnerOf`, and two lemmas compare it with the Javadoc:

- `WinnerAfterPut` shows the two agree for every put made from an
  undecided board, so they agree in any game that stops once it is
  decided.
- `PlayOnMisattributes` shows they differ once play goes on past a
  decided board.

Puts do not stop at a decided board either. `FilledInOrderWon` plays all
nine squares in the order a1, a2, a3, b1, ..., c3. Every put succeeds,
and the full board is not a tie: `winner` reports X, which holds both
diagonals.

## Model

| member | source | states |
|---|---|---|
| Pieces.Opposite | src/game/Piece.java:17-26 | Only E maps to E, and a side never maps to itself, so X goes to O and O to X |
| Pieces.OppositeInvolution | src/game/Piece.java:17-26 | Taking the opposite twice gives back the piece |
| Position.SetCell | src/game/Board.java:150 | Writing one square changes that square and leaves the other eight alone |
| Position.Coords | src/game/Board.java:83-85 | A designator maps to a column and a row that are both in 0..2 |
| Position.Place | src/game/Board.java:93-118 | An in-range square gets a two-character designator; an out-of-range coordinate adds nothing, so the string is shorter |
| Position.CoordsOfPlace | src/game/Board.java:83-118 | `coords(place(c, r)) == (c, r)` for every square |
| Position.PlaceOfCoords | src/game/Board.java:83-118 | `place(coords(s)) == s` for every string matching `[a-c][1-3]` |
| Position.CoordsInjective | src/game/Board.java:83-85 | Distinct designators name distinct squares |
| Position.ScanStep | src/game/Board.java:129-134 | One step of the column-major scan appends the visited square exactly when it is empty |
| Position.CountPartition | src/game/Board.java:291 | Each square holds exactly one of E, X and O, so the three counts sum to the squares scanned |
| Position.CountSetCell | src/game/Board.java:150 | Writing a square moves one unit of count from its old piece to its new one |
| Position.EmptyPlacesUpToLength | src/game/Board.java:128-135 | The scan so far lists one place per empty square it has passed |
| Position.EmptyPlacesUpToSound | src/game/Board.java:128-135 | The scan so far lists only empty squares it has passed, in strictly increasing scan order |
| Position.EmptyPlacesUpToComplete | src/game/Board.java:128-135 | The scan so far lists every empty square it has passed |
| Position.EmptyPlaceMembership | src/game/Board.java:124-139 | A square is among the empty places if and only if it is empty |
| Position.EmptyPlacesExact | src/game/Board.java:124-139 | The empty places are exactly the empty squares: each one once, in column-major order, as many as there are empty squares |
| Position.PlaceNames | src/game/Board.java:93-118 | The nine squares are named a1, a2, a3, b1, ..., c3 |
| Position.EmptyPlacesOfEmptyGrid | src/game/BoardTests.java:53-68 | An empty board offers all nine squares in the order a1, a2, a3, b1, b2, b3, c1, c2, c3 |
| Position.EmptyPlacesOfFullGrid | src/game/Board.java:124-139 | A board with no empty square offers no place |
| Position.CompleteLineCases | src/game/Board.java:210-218 | "Some line is filled by one side" is equivalent to the eight square-by-square tests of `winner` |
| Position.WinnerCases | src/game/Board.java:205-226 | While a side is to move: a completed line means the last mover is reported, even on a full board; a tie means no line and no empty square; None means no line and some empty square |
| Position.PutThenUndo | src/game/Board.java:148-158 | A successful put followed by undo gives back the same squares, side to move and moves |
| Position.MoverAlternates | src/game/Board.java:152 | The movers of consecutive moves are opposite sides |
| Position.InitialConsistent | src/game/Board.java:22-24 | The board of the default constructor satisfies the history invariant |
| Position.ConsistentBalance | src/game/Board.java:148-158 | Under the invariant: one occupied square per move, as many empty places as 9 minus the moves, X to move exactly after an even number of moves, and X ahead of O by 0 or 1 |
| Position.PlayedConsistent | src/game/Board.java:148-158 | A put on a free square keeps the invariant |
| Position.UndoneConsistent | src/game/Board.java:175-183 | Undo on a non-empty history keeps the invariant, and the last move is a designator |
| Position.UndoThenReplay | src/game/Board.java:175-183 | Under the invariant, undo followed by a put of the undone move gives back the board |
| Position.ConsistentWithoutMoves | src/game/Board.java:67-76 | A board satisfying the invariant with no moves is the empty board with X to move |
| Position.ConsistentIsReplay | src/game/Board.java:166-183 | Every board satisfying the invariant is the board its move list produces from the start by put(String), and each of those puts succeeds |
| Position.OccupiedAfterPlayed | src/game/Board.java:148-158 | A put occupies its square and leaves whether any other square is occupied as it was |
| Position.OccupiedIffPlayed | src/game/Board.java:148-158 | Under the invariant, a square holds a piece if and only if some recorded move names it |
| Position.EmptyPlacesAreUnplayed | src/game/Board.java:124-139 | Under the invariant, the empty places are exactly the designators no recorded move names |
| Position.LineOwnerAfterSet | src/game/Board.java:210-218 | Writing one square can only complete lines of the piece written |
| Position.WinnerAfterPut | src/game/Board.java:205-226 | From an undecided board, a put completes only lines of the side that moved, and the winner reported afterwards is that side exactly when it owns a line |
| Position.PlayedOnCounts | src/game/Board.java:148-158 | The board after a1, b1, a2, b2, a3, c1 has three X and three O |
| Position.PlayedOnMovesPlaced | src/game/Board.java:148-158 | Each of those six moves holds the piece of its mover |
| Position.PlayedOnMovesDistinct | src/game/Board.java:148-158 | Those six moves name distinct squares |
| Position.PlayedOnReached | src/game/Board.java:166-172 | The six puts succeed and produce that board from the empty one |
| Position.PlayedOnLines | src/game/Board.java:210-218 | On that board column a is X's, and O owns no line |
| Position.PlayOnMisattributes | src/game/Board.java:219 | After those six puts `winner` reports O, although only X owns a line |
| Position.FilledInOrderCounts | src/game/Board.java:148-158 | The board after a1, a2, ..., c3 has five X and four O |
| Position.FilledInOrderMovesPlaced | src/game/Board.java:148-158 | Each of those nine moves holds the piece of its mover |
| Position.FilledInOrderMovesDistinct | src/game/Board.java:148-158 | Those nine moves name distinct squares |
| Position.FilledInOrderWon | src/game/Board.java:205-226 | The nine puts a1, a2, ..., c3 succeed and fill the board, X owns the main diagonal, and `winner` reports X, not a tie |
| Boards.Board.constructor | src/game/Board.java:22-24 | A fresh board, valid, with empty squares, X to move, no moves and no memo |
| Boards.Board.Copy | src/game/Board.java:30-64 | A valid board on an array of its own, equal in squares, turn and moves to the source, with the memos copied |
| Boards.Board.Reset | src/game/Board.java:67-76 | Every square is E, X is to move, the move list is kept and both memo flags are cleared |
| Boards.Board.Put | src/game/Board.java:148-158 | Succeeds exactly on an empty square. It then plays the move: the piece is set, the move appended, the turn passed and both memos dropped. It changes nothing on an occupied square. Validity is kept |
| Boards.Board.Write | src/game/Board.java:150 | One array write changes one square of the value view and nothing else |
| Boards.Board.PutPlace | src/game/Board.java:166-172 | Succeeds exactly for a `[a-c][1-3]` designator of an empty square. The board becomes `PutPlaced` of the old one and is unchanged otherwise |
| Boards.Board.Undo | src/game/Board.java:175-183 | With a non-empty history, the board becomes the old one with the last move taken back. Validity is kept and both memos are dropped |
| Boards.Board.ScanEmptyPlaces | src/game/Board.java:128-135 | The nested column-major loop returns `EmptyPlacesOf` the squares |
| Boards.Board.EmptyPlaces | src/game/Board.java:124-139 | Returns the exact empty places, from the memo when it is set, and leaves the memo set to them |
| Boards.Board.HasLine | src/game/Board.java:210-218 | The eight tests hold exactly when some line is filled by one side |
| Boards.Board.Winner | src/game/Board.java:205-226 | Returns `WinnerOf` the board and leaves it memoised. A call with the memo set changes nothing, so repeated calls agree |
| Boards.Board.Equals | src/game/Board.java:261-288 | True exactly when squares, turn and moves agree |
| Mcts.TreeNode.constructor | src/game/MCTS/TreeNode.java:26-35 | Wraps the given board, caches its side to move, records parent and move, has no children and zero statistics |
| Mcts.TreeNode.Expand | src/game/MCTS/TreeNode.java:38-45 | Appends one fresh child per empty place, in order, so a full board stays a leaf. Each child's board is a fresh copy of the parent's with that move put; its parent is this node, its move is that place and its side is the opposite. The parent's board keeps its squares, turn and moves |
| Mcts.TreeNode.AddChildren | src/game/MCTS/TreeNode.java:40-44 | The loop appends one expanded child per given move, in order |
| Mcts.TreeNode.AddChild | src/game/MCTS/TreeNode.java:41-43 | One iteration appends the next child and leaves the children made before it as they were |
| Mcts.TreeNode.NewChild | src/game/MCTS/TreeNode.java:41-43 | A copy of the board with the move put, wrapped in a fresh leaf whose parent is this node |
| Mcts.ExpandedValid | src/game/MCTS/TreeNode.java:41-43 | A child expanded from a board satisfying the invariant is a valid board itself |
| Mcts.TreeNode.IsLeaf | src/game/MCTS/TreeNode.java:60-62 | True if and only if there are no children |
| Mcts.TreeNode.Winner | src/game/MCTS/TreeNode.java:68-70 | Exactly the wrapped board's winner; the board's squares, turn and moves are kept |
| Mcts.TreeNode.IncrementVisited | src/game/MCTS/TreeNode.java:110-112 | The visit count goes up by exactly one and nothing else changes |
| Mcts.TreeNode.IncrementWins | src/game/MCTS/TreeNode.java:116-118 | The win total goes up by exactly `amt` and nothing else changes |
| BoardTests.EmptyPlacesOfColumnCFilled | src/game/BoardTests.java:70-76 | The puts c3, c2 and c1 from the initial board give a grid whose empty places are a1, a2, a3, b1, b2, b3 |
| BoardTests.PutUnplayed | src/game/BoardTests.java:29-32 | A put on a square no recorded move names succeeds and appends the move |
| BoardTests.CopyTest | src/game/BoardTests.java:11-23 | A copy equals its source; after a put on the source they differ, and after the undo they are equal again |
| BoardTests.MovesListTest | src/game/BoardTests.java:25-44 | A put appends its designator to the move list and undo removes it |
| BoardTests.CopiedMovesListTest | src/game/BoardTests.java:46-50 | A copy has the source's moves, and a put on the copy leaves the source's list alone |
| BoardTests.EmptyPlacesTest | src/game/BoardTests.java:78-83 | A copy reports the same empty places, and a put on the copy shortens its list but not the source's |

## Left out

- `TreeNode.score`, `TreeNode.uct` and `TreeNode.toString`: floating-point arithmetic with `Math.log`, `Math.sqrt` and infinities.
- `TreeNode.play`, `randomChild` and `setUpRNG`: random rollouts over an unseeded random generator. The constructor's call to `setUpRNG` is left out for the same reason.
- `MonteCarloTreeSearch`, `Tree` and `Game`: the search loop, the tree wrapper and the console game. The search is driven by the wall clock and by random numbers, and it calls members that `Tree.Node` does not define.
- `Board.toString`: display formatting only.
- `Board.rawBoard` and `Board.moves`: they return the internal array and list, which is aliasing rather than behaviour. The model reads `moves` as a field. Likewise `emptyPlaces` returning the memo list itself is modelled as returning its value.
- `Board(Piece[][], Piece)`: it sets squares without recording moves, so it breaks the history invariant every other operation relies on.
- Boards.Board.Put: `put(int,int)` throws on a coordinate outside 0..2 (src/game/Board.java:149). The model makes 0..2 a precondition, which its only caller, `put(String)`, guarantees.
- Boards.Board.Copy: the package-private `copy(Board)` appends the other board's moves to the existing list (src/game/Board.java:57). It is modelled only through the copy constructor, where that list starts empty.
- Boards.Board.Undo: undo on an empty history throws in the source. The model makes a non-empty history a precondition.
- Boards.Board.Equals: takes a `Board`. The `ClassCastException` path for an argument of another class does not arise, and neither does the `NullPointerException` that `equals(null)` throws at src/game/Board.java:266.
- Boards.Board.Reset: modelled as the source has it, keeping the move list. So a board is valid after it only when the list was already empty, which is the case in the default constructor, its only caller.
- Mcts.TreeNode.IncrementVisited: the visit count is a `nat` rather than a `double`, and the win total a `real`. Rounding of large doubles is not modelled.
- Mcts.TreeNode.Expand: states that each child's board satisfies the history invariant only through the lemma `Mcts.ExpandedValid`, not in its own postcondition.
- BoardTests.CopyTest: the tests are stated for any valid board and any square not yet played, not for the literal move sequences of the JUnit file. The literal empty-place lists are the lemmas `Position.EmptyPlacesOfEmptyGrid` and `BoardTests.EmptyPlacesOfColumnCFilled`.
