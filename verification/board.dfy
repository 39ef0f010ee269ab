/**
 * The puzzle board that script.js keeps implicitly in the page: the tray
 * (`puzzle-container`) holding pieces not yet placed, and the sixteen grid
 * cells (`grid-container`), each holding the pieces appended to it.
 * Also the `save-map` handler that (re)builds it.
 */
module PuzzleBoard {
  import opened Tiles
  import opened Cells
  import Shuffling

  const CellCount: int := 16

  /** The tray's pieces in page order, and the grid cells in page order. */
  datatype Board = Board(tray: seq<Tile>, cells: seq<Cell>)

  /** Every piece on the board, wherever it is. */
  function AllTiles(b: Board): multiset<Tile> {
    multiset(b.tray) + CellsTiles(b.cells)
  }

  /** A cell holds at most one piece, and only the piece of its own position. */
  predicate HoldsOwnPieceOnly(c: Cell) {
    |c.pieces| <= 1 && forall t :: t in c.pieces ==> t.originalIndex == c.index
  }

  /**
   * The board invariant: sixteen cells indexed 0..15 in order, no cell with a
   * wrong or a second piece, and every one of the sixteen pieces present
   * exactly once, in the tray or in a cell.
   */
  predicate Valid(b: Board) {
    && |b.cells| == CellCount
    && (forall i :: 0 <= i < |b.cells| ==> b.cells[i].index == i)
    && (forall i :: 0 <= i < |b.cells| ==> HoldsOwnPieceOnly(b.cells[i]))
    && AllTiles(b) == multiset(Pieces())
  }

  /** The grid as the builder leaves it: cells 0..15, all empty. */
  function EmptyCells(): seq<Cell> {
    seq(CellCount, i => Cell(i, []))
  }

  /** The board built from a snapshot, with `choices` as the shuffle's draws. */
  function FreshBoard(choices: seq<nat>): Board
    requires Shuffling.ValidChoices(choices, PieceCount)
  {
    Board(Shuffling.Shuffled(Pieces(), choices), EmptyCells())
  }

  /** The loop that creates the grid cells. */
  method BuildCells() returns (cells: seq<Cell>)
    ensures |cells| == CellCount
    ensures forall i :: 0 <= i < |cells| ==> cells[i].index == i && cells[i].pieces == []
  {
    cells := [];
    var i := 0;
    while i < CellCount
      invariant 0 <= i <= CellCount
      invariant |cells| == i
      invariant forall j :: 0 <= j < i ==> cells[j] == Cell(j, [])
    {
      cells := cells + [Cell(i, [])];
      i := i + 1;
    }
  }

  /**
   * The `save-map` handler. When the snapshot fails the board is left as it
   * was; otherwise both containers are emptied, the sixteen pieces go into the
   * tray in shuffled order and sixteen empty cells are created.
   */
  method Rebuild(prev: Board, snapshotOk: bool, choices: seq<nat>) returns (b: Board)
    requires Shuffling.ValidChoices(choices, PieceCount)
    ensures !snapshotOk ==> b == prev
    ensures snapshotOk ==> b == FreshBoard(choices)
    ensures snapshotOk ==> Valid(b)
    ensures snapshotOk ==> multiset(b.tray) == multiset(Pieces())
    ensures snapshotOk ==> Positions(b.tray) == GridPositions() && IndicesDistinct(b.tray)
    ensures snapshotOk ==> |b.cells| == CellCount
    ensures snapshotOk ==> forall i :: 0 <= i < |b.cells| ==> b.cells[i] == Cell(i, [])
  {
    if !snapshotOk {
      return prev;
    }
    var pieces := BuildPieces();
    assert pieces == Pieces();
    var tray := Shuffling.Shuffle(pieces, choices);
    var cells := BuildCells();
    assert cells == EmptyCells();
    b := Board(tray, cells);
    FreshBoardValid(choices);
    FreshTrayCoversEachIndexOnce(choices);
  }

  /** A freshly built board satisfies the board invariant. */
  lemma FreshBoardValid(choices: seq<nat>)
    requires Shuffling.ValidChoices(choices, PieceCount)
    ensures Valid(FreshBoard(choices))
    ensures multiset(FreshBoard(choices).tray) == multiset(Pieces())
    ensures |FreshBoard(choices).tray| == PieceCount
    ensures forall q :: 0 <= q < |FreshBoard(choices).cells| ==> FreshBoard(choices).cells[q].pieces == []
  {
    Shuffling.ShuffledIsPermutation(Pieces(), choices);
    TilesBelowOfEmptyCells(EmptyCells(), CellCount);
  }

  /** No piece occurs twice among the sixteen pieces. */
  lemma PiecesOccurOnce(x: Tile)
    ensures multiset(Pieces())[x] <= 1
  {
    DistinctOccurOnce(Pieces(), x);
  }

  /** In a sequence without repeats every value occurs at most once. */
  lemma {:induction false} DistinctOccurOnce<T>(s: seq<T>, x: T)
    requires forall i, j :: 0 <= i < j < |s| ==> s[i] != s[j]
    ensures multiset(s)[x] <= 1
    decreases |s|
  {
    if |s| > 0 {
      var n := |s| - 1;
      assert s == s[..n] + [s[n]];
      DistinctOccurOnce(s[..n], x);
      if x == s[n] {
        assert x !in s[..n];
      }
    }
  }

  /** Every piece is the piece of its own position, and that position is on the grid. */
  lemma MemberOfPieces(x: Tile)
    requires x in multiset(Pieces())
    ensures 0 <= x.originalIndex < PieceCount && x == PieceFor(x.originalIndex)
  {
    var i :| 0 <= i < |Pieces()| && Pieces()[i] == x;
  }

  /** The positions carried by the pieces of `s`. */
  function Positions(s: seq<Tile>): set<int> {
    set i | 0 <= i < |s| :: s[i].originalIndex
  }

  /** The positions of the grid, 0..15. */
  function GridPositions(): (ks: set<int>)
    ensures forall k :: k in ks ==> 0 <= k < PieceCount
    ensures forall k :: 0 <= k < PieceCount ==> k in ks
  {
    var ks := set i | 0 <= i < PieceCount :: Pieces()[i].originalIndex;
    assert forall k :: 0 <= k < PieceCount ==> k in ks by {
      forall k | 0 <= k < PieceCount
        ensures k in ks
      {
        assert Pieces()[k].originalIndex == k;
      }
    }
    ks
  }

  /** No two pieces of `s` carry the same position. */
  predicate IndicesDistinct(s: seq<Tile>) {
    forall i, j :: 0 <= i < |s| && 0 <= j < |s| && s[i].originalIndex == s[j].originalIndex ==> i == j
  }

  /**
   * Any arrangement of the sixteen pieces carries each of the positions 0..15
   * exactly once, and no other position.
   */
  lemma ArrangementCoversEachIndexOnce(s: seq<Tile>)
    requires multiset(s) == multiset(Pieces())
    ensures |s| == PieceCount
    ensures Positions(s) == GridPositions()
    ensures IndicesDistinct(s)
  {
    assert |s| == |multiset(s)| == |multiset(Pieces())| == PieceCount;
    forall p | p in Positions(s)
      ensures p in GridPositions()
    {
      var i :| 0 <= i < |s| && s[i].originalIndex == p;
      assert s[i] in multiset(s);
      MemberOfPieces(s[i]);
    }
    forall k | k in GridPositions()
      ensures k in Positions(s)
    {
      assert Pieces()[k] in multiset(Pieces());
      var i :| 0 <= i < |s| && s[i] == PieceFor(k);
    }
    forall i, j | 0 <= i < |s| && 0 <= j < |s| && s[i].originalIndex == s[j].originalIndex
      ensures i == j
    {
      if i != j {
        assert s[i] in multiset(s) && s[j] in multiset(s);
        MemberOfPieces(s[i]);
        MemberOfPieces(s[j]);
        TwoPositionsCountTwice(s, i, j);
        PiecesOccurOnce(s[i]);
      }
    }
  }

  /** The freshly shuffled tray carries each of the positions 0..15 exactly once. */
  lemma FreshTrayCoversEachIndexOnce(choices: seq<nat>)
    requires Shuffling.ValidChoices(choices, PieceCount)
    ensures |FreshBoard(choices).tray| == PieceCount
    ensures Positions(FreshBoard(choices).tray) == GridPositions()
    ensures IndicesDistinct(FreshBoard(choices).tray)
  {
    FreshBoardValid(choices);
    ArrangementCoversEachIndexOnce(FreshBoard(choices).tray);
  }

  /** A value at two distinct positions occurs at least twice. */
  lemma TwoPositionsCountTwice<T>(s: seq<T>, i: nat, j: nat)
    requires i < |s| && j < |s| && i != j && s[i] == s[j]
    ensures multiset(s)[s[i]] >= 2
  {
    var lo, hi := if i < j then i else j, if i < j then j else i;
    assert s == s[..hi] + s[hi..];
    assert s[lo] in s[..hi];
    assert s[hi] in s[hi..];
  }

  /** On a valid board every piece present is the piece of its own position. */
  lemma ValidBoardPiece(b: Board, x: Tile)
    requires Valid(b) && x in AllTiles(b)
    ensures 0 <= x.originalIndex < PieceCount && x == PieceFor(x.originalIndex)
  {
    MemberOfPieces(x);
  }

  /** On a valid board a piece still in the tray has its cell empty. */
  lemma TrayPieceMeansEmptyCell(b: Board, i: nat)
    requires Valid(b) && i < |b.tray|
    ensures 0 <= b.tray[i].originalIndex < CellCount
    ensures b.cells[b.tray[i].originalIndex].pieces == []
  {
    var t := b.tray[i];
    assert t in multiset(b.tray);
    ValidBoardPiece(b, t);
    var k := t.originalIndex;
    if b.cells[k].pieces != [] {
      var u := b.cells[k].pieces[0];
      assert u in b.cells[k].pieces;
      CellsTilesContains(b.cells, k);
      assert u in CellsTiles(b.cells);
      ValidBoardPiece(b, u);
      assert multiset(b.tray)[t] >= 1 && CellsTiles(b.cells)[t] >= 1;
      PiecesOccurOnce(t);
      assert false;
    }
  }

  /** On a valid board, the piece of an empty cell is waiting in the tray. */
  lemma EmptyCellMeansTrayPiece(b: Board, k: int)
    requires Valid(b) && 0 <= k < CellCount && b.cells[k].pieces == []
    ensures PieceFor(k) in b.tray
  {
    assert Pieces()[k] == PieceFor(k);
    assert PieceFor(k) in AllTiles(b);
    if PieceFor(k) !in b.tray {
      CellsTilesMember(b.cells, PieceFor(k));
      assert false;
    }
  }
}
