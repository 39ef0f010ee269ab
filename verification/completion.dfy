/**
 * `checkPuzzleCompletion` of script.js and its call from the `drop` handler:
 * the puzzle counts as solved when every grid cell's first child carries the
 * cell's own position. An empty cell has no first child and so fails the test.
 */
module Completion {
  import opened Tiles
  import opened Cells
  import opened PuzzleBoard
  import opened DragDrop

  /**
   * Every cell's first child exists and carries the cell's index. An empty
   * cell fails the test; with no cells at all it passes, as `every` does on
   * an empty list.
   */
  predicate IsComplete(b: Board)
    ensures IsComplete(b) ==> forall q :: 0 <= q < |b.cells| ==> b.cells[q].pieces != []
    ensures b.cells == [] ==> IsComplete(b)
  {
    forall q :: 0 <= q < |b.cells| ==>
      b.cells[q].pieces != [] && b.cells[q].pieces[0].originalIndex == b.cells[q].index
  }

  /** On a valid board, the puzzle is solved exactly when no cell is empty. */
  lemma CompleteIffNoEmptyCell(b: Board)
    requires Valid(b)
    ensures IsComplete(b) <==> forall q :: 0 <= q < |b.cells| ==> b.cells[q].pieces != []
  {
    if forall q :: 0 <= q < |b.cells| ==> b.cells[q].pieces != [] {
      forall q | 0 <= q < |b.cells|
        ensures b.cells[q].pieces[0].originalIndex == b.cells[q].index
      {
        assert HoldsOwnPieceOnly(b.cells[q]) && b.cells[q].pieces[0] in b.cells[q].pieces;
      }
    }
  }

  /** On a valid board, the puzzle is solved exactly when cell `q` holds the piece of `q` alone, for every `q`. */
  lemma CompleteIffEveryPieceHome(b: Board)
    requires Valid(b)
    ensures IsComplete(b) <==> forall q :: 0 <= q < CellCount ==> b.cells[q].pieces == [PieceFor(q)]
  {
    CompleteIffNoEmptyCell(b);
    forall q | 0 <= q < CellCount
      ensures b.cells[q].pieces != [] <==> b.cells[q].pieces == [PieceFor(q)]
    {
      FindOnValidBoard(b, q);
    }
  }

  /** On a valid board, the puzzle is solved exactly when the tray is empty. */
  lemma CompleteIffTrayEmpty(b: Board)
    requires Valid(b)
    ensures IsComplete(b) <==> b.tray == []
  {
    CompleteIffNoEmptyCell(b);
    TilesBelowCountsFilled(b.cells, CellCount);
    forall i | 0 <= i < |b.cells|
      ensures |b.cells[i].pieces| <= 1
    {
      assert HoldsOwnPieceOnly(b.cells[i]);
    }
    assert |multiset(b.tray)| + |CellsTiles(b.cells)| == |multiset(Pieces())| == PieceCount;
  }

  /** What a drop event leaves behind: the board, and whether the congratulation was shown. */
  datatype DropOutcome = DropOutcome(board: Board, congratulated: bool)

  /**
   * The `drop` handler with its completion check: the check runs only after an
   * accepted drop that found its piece, and congratulates when the board is solved.
   */
  function HandleDrop(b: Board, k: int, target: nat): (r: DropOutcome)
    requires target < |b.cells|
    ensures r.board == Drop(b, k, target)
    ensures r.congratulated ==> IsComplete(r.board) && k == b.cells[target].index
  {
    var after := Drop(b, k, target);
    DropOutcome(after, k == b.cells[target].index && HasPiece(b, k) && IsComplete(after))
  }

  /**
   * On a valid board, a drop congratulates exactly when it is accepted and
   * leaves the puzzle solved.
   */
  lemma CongratulatedIffAcceptedAndSolved(b: Board, k: int, target: nat)
    requires Valid(b) && target < |b.cells|
    ensures HandleDrop(b, k, target).congratulated <==>
              k == b.cells[target].index && IsComplete(Drop(b, k, target))
  {
    if k == b.cells[target].index {
      ValidBoardHasEveryPiece(b, k);
    }
  }

  /** The boards after dropping each piece of `order` onto its own cell, in turn. */
  function Replay(b: Board, order: seq<nat>): (r: Board)
    requires forall i :: 0 <= i < |order| ==> order[i] < |b.cells|
    ensures |r.cells| == |b.cells|
    decreases |order|
  {
    if order == [] then b
    else
      var n := |order| - 1;
      Drop(Replay(b, order[..n]), order[n], order[n])
  }

  /** No position occurs twice in `order`. */
  predicate Distinct(order: seq<nat>) {
    forall i, j :: 0 <= i < j < |order| ==> order[i] != order[j]
  }

  /**
   * The board after the correct drops of `done`: valid, exactly the cells of
   * `done` filled, and the tray holding the pieces not yet dropped.
   */
  predicate Progress(b: Board, done: seq<nat>) {
    && Valid(b)
    && (forall q :: 0 <= q < CellCount ==> (b.cells[q].pieces != [] <==> q in done))
    && |b.tray| + |done| == PieceCount
  }

  /** A freshly built board is the board after no drops. */
  lemma FreshBoardProgress(choices: seq<nat>)
    requires Shuffling.ValidChoices(choices, PieceCount)
    ensures Progress(FreshBoard(choices), [])
  {
    FreshBoardValid(choices);
    NoProgressYet(FreshBoard(choices));
  }

  /** A valid board with every cell empty and a full tray is the board after no drops. */
  lemma NoProgressYet(b: Board)
    requires Valid(b) && |b.tray| == PieceCount
    requires forall q :: 0 <= q < |b.cells| ==> b.cells[q].pieces == []
    ensures Progress(b, [])
  {
  }

  /** Dropping a piece not dropped before onto its own cell extends the progress by that piece. */
  lemma ProgressStep(b: Board, done: seq<nat>, k: nat)
    requires Progress(b, done) && k < CellCount && k !in done
    ensures Progress(Drop(b, k, k), done + [k])
  {
    AcceptedDropFromTray(b, k);
    DropPreservesValid(b, k, k);
  }

  /**
   * Starting from a freshly built board, after distinct correct drops the
   * board is valid, exactly the dropped cells are filled and the tray holds
   * the pieces not dropped yet.
   */
  lemma {:induction false} ReplayState(choices: seq<nat>, order: seq<nat>)
    requires Shuffling.ValidChoices(choices, PieceCount)
    requires Distinct(order) && forall i :: 0 <= i < |order| ==> order[i] < CellCount
    ensures Progress(Replay(FreshBoard(choices), order), order)
    decreases |order|
  {
    if order == [] {
      FreshBoardProgress(choices);
    } else {
      var n := |order| - 1;
      ReplayState(choices, order[..n]);
      assert order[n] !in order[..n];
      ProgressStep(Replay(FreshBoard(choices), order[..n]), order[..n], order[n]);
      assert order == order[..n] + [order[n]];
    }
  }

  /**
   * From a freshly built board, dropping the sixteen pieces onto their own
   * cells in any order solves the puzzle at the sixteenth drop and not before.
   */
  lemma CompletesExactlyAtLastDrop(choices: seq<nat>, order: seq<nat>, m: nat)
    requires Shuffling.ValidChoices(choices, PieceCount)
    requires |order| == PieceCount && Distinct(order)
    requires forall i :: 0 <= i < |order| ==> order[i] < CellCount
    requires m <= |order|
    ensures IsComplete(Replay(FreshBoard(choices), order[..m])) <==> m == PieceCount
  {
    ReplayState(choices, order[..m]);
    CompleteIffTrayEmpty(Replay(FreshBoard(choices), order[..m]));
  }

  /** The board after the drops of `drops` in turn, each a dragged index and a target cell. */
  function ReplayDrops(b: Board, drops: seq<(int, nat)>): (r: Board)
    requires forall i :: 0 <= i < |drops| ==> drops[i].1 < |b.cells|
    ensures |r.cells| == |b.cells|
    decreases |drops|
  {
    if drops == [] then b
    else
      var n := |drops| - 1;
      Drop(ReplayDrops(b, drops[..n]), drops[n].0, drops[n].1)
  }

  /**
   * Any sequence of drops, accepted or rejected, onto any cells, keeps a valid
   * board valid, and the board it leaves is solved exactly when its tray is empty.
   */
  lemma {:induction false} AnyDropsKeepValid(b: Board, drops: seq<(int, nat)>)
    requires Valid(b) && forall i :: 0 <= i < |drops| ==> drops[i].1 < |b.cells|
    ensures Valid(ReplayDrops(b, drops))
    ensures IsComplete(ReplayDrops(b, drops)) <==> ReplayDrops(b, drops).tray == []
    decreases |drops|
  {
    if drops != [] {
      var n := |drops| - 1;
      AnyDropsKeepValid(b, drops[..n]);
      DropPreservesValid(ReplayDrops(b, drops[..n]), drops[n].0, drops[n].1);
    }
    CompleteIffTrayEmpty(ReplayDrops(b, drops));
  }

  /** Each position of `order` as a drop of its own piece onto its own cell. */
  function SelfDrops(order: seq<nat>): (r: seq<(int, nat)>)
    ensures |r| == |order|
    ensures forall i :: 0 <= i < |order| ==> r[i].0 == r[i].1 == order[i]
  {
    seq(|order|, i requires 0 <= i < |order| => (order[i] as int, order[i]))
  }

  /** Replaying correct drops is the general fold of drops, restricted to self drops. */
  lemma {:induction false} ReplayIsReplayDrops(b: Board, order: seq<nat>)
    requires forall i :: 0 <= i < |order| ==> order[i] < |b.cells|
    ensures Replay(b, order) == ReplayDrops(b, SelfDrops(order))
    decreases |order|
  {
    if order != [] {
      var n := |order| - 1;
      ReplayIsReplayDrops(b, order[..n]);
      assert SelfDrops(order)[..n] == SelfDrops(order[..n]);
    }
  }
}
