/**
 * The unit tests of the board, restated as client code over any board the
 * tests' moves apply to, checked from the specifications of Board alone.
 */
module BoardTests {
  import opened Pieces
  import opened Position
  import opened Boards

  /** The board of the empty-places test after c3, c2 and c1. */
  const ColumnCFilled: Grid := [[E, E, X], [E, E, O], [E, E, X]]

  /** The puts c3, c2 and c1 from the initial board produce that grid, and its
      empty places are the six squares of columns a and b, in order. */
  lemma EmptyPlacesOfColumnCFilled()
    ensures Replay(["c3", "c2", "c1"]).cells == ColumnCFilled
    ensures EmptyPlacesOf(ColumnCFilled) == ["a1", "a2", "a3", "b1", "b2", "b3"]
  {
    assert ["c3"][..0] == [];
    assert ["c3", "c2"][..1] == ["c3"];
    assert ["c3", "c2", "c1"][..2] == ["c3", "c2"];
    var s1 := PutPlaced(Initial, "c3");
    var s2 := PutPlaced(s1, "c2");
    var s3 := PutPlaced(s2, "c1");
    assert Replay(["c3", "c2", "c1"]) == s3;
    assert s3.cells[0] == [E, E, X] && s3.cells[1] == [E, E, O] && s3.cells[2] == [E, E, X];
    PlaceNames();
    assert EmptyPlacesUpTo(ColumnCFilled, 3) == ["a1", "a2", "a3"];
    assert EmptyPlacesUpTo(ColumnCFilled, 6) == ["a1", "a2", "a3", "b1", "b2", "b3"];
  }

  /** A put on a square no recorded move names is accepted: the move is
      appended and the board is the one Played describes. */
  method PutUnplayed(b: Board, place: string)
    requires b.Valid() && IsDesignator(place) && place !in b.moves
    modifies b, b.grid
    ensures b.Valid() && b.grid == old(b.grid)
    ensures IsFree(old(b.Snapshot()), Coords(place).0, Coords(place).1)
    ensures b.Snapshot() == Played(old(b.Snapshot()), Coords(place).0, Coords(place).1)
    ensures b.moves == old(b.moves) + [place]
  {
    OccupiedIffPlayed(b.Snapshot(), place);
    PlaceOfCoords(place);
    var ok := b.PutPlace(place);
  }

  /** A copy equals the board it was made from; a put on that board makes them differ, and
      undoing it makes them equal again. */
  method CopyTest(b: Board, place: string)
    requires b.Valid() && IsDesignator(place) && place !in b.moves
    modifies b, b.grid
    ensures b.Valid() && b.Snapshot() == old(b.Snapshot())
  {
    var b1 := new Board.Copy(b);
    var eq := b1.Equals(b);
    assert eq;

    PutUnplayed(b, place);
    eq := b1.Equals(b);
    assert !eq by {
      assert |b.moves| == |b1.moves| + 1;
    }

    b.Undo();
    eq := b1.Equals(b);
    assert eq by {
      PutThenUndo(b1.Snapshot(), Coords(place).0, Coords(place).1);
    }
  }

  /** The move list records a put at its end and loses it on undo. */
  method MovesListTest(b: Board, place: string)
    requires b.Valid() && IsDesignator(place) && place !in b.moves
    modifies b, b.grid
    ensures b.Valid() && b.moves == old(b.moves)
  {
    PutUnplayed(b, place);
    assert b.moves[..|b.moves| - 1] == old(b.moves);
    b.Undo();
  }

  /** A copy has the same move list as the board it was made from, and a put
      on the copy leaves that board's list alone. */
  method CopiedMovesListTest(b: Board, place: string)
    requires b.Valid() && IsDesignator(place) && place !in b.moves
  {
    var b1 := new Board.Copy(b);
    assert b.moves == b1.moves;
    PutUnplayed(b1, place);
    assert b.moves != b1.moves by {
      assert |b1.moves| == |b.moves| + 1;
    }
  }

  /** A copy reports the same empty places as the board it was made from, and
      a put on the copy shortens the copy's list and not the original's. */
  method EmptyPlacesTest(b: Board, place: string)
    requires b.Valid() && IsDesignator(place) && place !in b.moves
    modifies b`emptyPlaces, b`emptyPlacesInitialized
    ensures b.Valid()
  {
    var places := b.EmptyPlaces();
    var b1 := new Board.Copy(b);
    var places1 := b1.EmptyPlaces();
    assert places1 == places;

    PutUnplayed(b1, place);
    places1 := b1.EmptyPlaces();
    ConsistentBalance(b.Snapshot());
    ConsistentBalance(b1.Snapshot());
    assert places != places1 by {
      assert |places1| == |places| - 1;
    }
  }
}
