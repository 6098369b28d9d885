/**
 * The structural half of a Monte Carlo search tree node: the board it wraps,
 * the side to move there, its parent, the move that reached it, its children
 * and its visit and win statistics.
 */
module Mcts {
  import opened Wrappers
  import opened Pieces
  import opened Position
  import opened Boards

  class TreeNode {
    /** The position at this node; the node holds the board it was given. */
    var state: Board
    /** The side to move at this node, cached when the node is made. */
    var side: Piece
    /** The node this one was expanded from; null for a root. */
    var parent: TreeNode?
    /** The move that led here from the parent; None for a root. */
    var achievingMove: Option<string>
    var children: seq<TreeNode>
    var timesVisited: nat
    var timesWon: real

    /** A node for board with no children and zero statistics. */
    constructor (board: Board, parent: TreeNode?, move: Option<string>)
      ensures state == board && side == board.turn
      ensures this.parent == parent && achievingMove == move
      ensures children == [] && timesVisited == 0 && timesWon == 0.0
    {
      state := board;
      side := board.turn;
      this.parent := parent;
      children := [];
      achievingMove := move;
      timesVisited := 0;
      timesWon := 0.0;
    }

    /** Adds one child per empty place of the board, in the order emptyPlaces
        lists them; added names the new children. Each wraps a fresh copy of
        the board with that move put, names this node as parent and the move
        as its achieving move, and has the other side to move. The board of
        this node keeps its squares, turn and moves; only its empty-places
        memo may be filled in. */
    method Expand() returns (ghost added: seq<TreeNode>)
      requires state.Valid()
      modifies this`children, state`emptyPlaces, state`emptyPlacesInitialized
      ensures state.Valid() && state.Snapshot() == old(state.Snapshot())
      ensures children == old(children) + added
      ensures |added| == |EmptyPlacesOf(state.Cells())| == 9 - |state.moves|
      ensures forall j :: 0 <= j < |added| ==>
        && fresh(added[j]) && fresh(added[j].state) && fresh(added[j].state.grid)
        && ExpandedFrom(added[j], this, state.Snapshot(), EmptyPlacesOf(state.Cells())[j])
      ensures side == state.turn ==> forall j :: 0 <= j < |added| ==> added[j].side == Opposite(side)
    {
      var places := state.EmptyPlaces();
      ghost var before := state.Snapshot();
      EmptyPlacesExact(state.Cells());
      ConsistentBalance(before);
      added := AddChildren(places, before);
    }

    /** The loop of expansion: one new child per move, appended in order. */
    method AddChildren(places: seq<string>, ghost before: State) returns (ghost added: seq<TreeNode>)
      requires state.Valid() && state.Snapshot() == before
      requires forall j :: 0 <= j < |places| ==>
        IsDesignator(places[j]) && IsFree(before, Coords(places[j]).0, Coords(places[j]).1)
      modifies this`children
      ensures children == old(children) + added && |added| == |places|
      ensures forall j :: 0 <= j < |places| ==> fresh(added[j]) && fresh(added[j].state) && fresh(added[j].state.grid)
      ensures forall j :: 0 <= j < |places| ==> ExpandedFrom(added[j], this, before, places[j])
    {
      added := [];
      for i := 0 to |places|
        invariant children == old(children) + added && |added| == i
        invariant forall j :: 0 <= j < i ==> fresh(added[j]) && fresh(added[j].state) && fresh(added[j].state.grid)
        invariant forall j :: 0 <= j < i ==> ExpandedFrom(added[j], this, before, places[j])
      {
        var child := AddChild(places, i, before, added);
        added := added + [child];
      }
    }

    /** One iteration of that loop: the child for the next move is appended,
        and the children made before it are left as they were. */
    method AddChild(places: seq<string>, i: nat, ghost before: State, ghost added: seq<TreeNode>)
      returns (child: TreeNode)
      requires state.Valid() && state.Snapshot() == before
      requires i == |added| < |places|
      requires IsDesignator(places[i]) && IsFree(before, Coords(places[i]).0, Coords(places[i]).1)
      requires forall j :: 0 <= j < i ==> ExpandedFrom(added[j], this, before, places[j])
      modifies this`children
      ensures children == old(children) + [child]
      ensures fresh(child) && fresh(child.state) && fresh(child.state.grid)
      ensures ExpandedFrom(child, this, before, places[i])
      ensures forall j :: 0 <= j < i ==> ExpandedFrom(added[j], this, before, places[j])
      ensures forall j :: 0 <= j < i ==> added[j].state == old(added[j].state) && added[j].state.grid == old(added[j].state.grid)
    {
      child := NewChild(places[i], before);
      children := children + [child];
    }

    /** One step of expansion: a child wrapping a copy of this node's board
        with move put. */
    method NewChild(move: string, ghost before: State) returns (child: TreeNode)
      requires state.Valid() && state.Snapshot() == before
      requires IsDesignator(move) && IsFree(before, Coords(move).0, Coords(move).1)
      ensures fresh(child) && fresh(child.state) && fresh(child.state.grid)
      ensures ExpandedFrom(child, this, before, move)
    {
      var temp := new Board.Copy(state);
      var ok := temp.PutPlace(move);
      child := new TreeNode(temp, this, Some(move));
    }

    /** A node is a leaf exactly when it has no children. */
    method IsLeaf() returns (leaf: bool)
      ensures leaf <==> children == []
    {
      leaf := |children| == 0;
    }

    /** The winner of the wrapped board. */
    method Winner() returns (w: Option<Piece>)
      requires state.Valid()
      modifies state`winner, state`winnerKnown, state`emptyPlaces, state`emptyPlacesInitialized
      ensures state.Valid() && state.Snapshot() == old(state.Snapshot())
      ensures w == WinnerOf(state.Snapshot())
    {
      w := state.Winner();
    }

    /** One more visit. */
    method IncrementVisited()
      modifies this`timesVisited
      ensures timesVisited == old(timesVisited) + 1
    {
      timesVisited := timesVisited + 1;
    }

    /** amt more wins. */
    method IncrementWins(amt: real)
      modifies this`timesWon
      ensures timesWon == old(timesWon) + amt
    {
      timesWon := timesWon + amt;
    }
  }

  /** child is the fresh leaf that expansion makes for move from a parent whose
      board was before: its board is before with move put, and it names parent
      and move. */
  ghost predicate ExpandedFrom(child: TreeNode, parent: TreeNode, before: State, move: string)
    reads child, child.state, child.state.grid
  {
    && child.parent == parent
    && child.achievingMove == Some(move)
    && child.children == [] && child.timesVisited == 0 && child.timesWon == 0.0
    && child.side == child.state.turn == Opposite(before.turn)
    && IsDesignator(move) && IsFree(before, Coords(move).0, Coords(move).1)
    && child.state.Shaped() && !child.state.emptyPlacesInitialized && !child.state.winnerKnown
    && child.state.Snapshot() == Played(before, Coords(move).0, Coords(move).1)
  }

  /** A child made by expansion from a board that satisfies the history
      invariant satisfies it too, with both memos unset, so every Board
      operation applies to it. */
  lemma ExpandedValid(child: TreeNode, parent: TreeNode, before: State, move: string)
    requires Consistent(before) && ExpandedFrom(child, parent, before, move)
    ensures child.state.Valid()
  {
    PlayedConsistent(before, Coords(move).0, Coords(move).1);
  }
}
