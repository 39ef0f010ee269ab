/**
 * The `drop` handler of script.js: a piece dragged onto a cell is accepted only
 * when its `data-original-index` equals the cell's `data-index`; the accepted
 * piece is then looked up among all pieces of the page and appended to the cell.
 */
module DragDrop {
  import opened Wrappers
  import opened Tiles
  import opened Cells
  import opened PuzzleBoard

  /** Where a piece sits: a position in the tray, or a position among a cell's children. */
  datatype Place = InTray(pos: nat) | InCell(cell: nat, pos: nat)

  predicate PlaceOk(b: Board, p: Place) {
    match p
    case InTray(i) => i < |b.tray|
    case InCell(q, i) => q < |b.cells| && i < |b.cells[q].pieces|
  }

  function TileAt(b: Board, p: Place): Tile
    requires PlaceOk(b, p)
  {
    match p
    case InTray(i) => b.tray[i]
    case InCell(q, i) => b.cells[q].pieces[i]
  }

  /** Some piece on the board, in the tray or in a cell, carries position `k`. */
  predicate HasPiece(b: Board, k: int) {
    || (exists i :: 0 <= i < |b.tray| && b.tray[i].originalIndex == k)
    || (exists q, i :: 0 <= q < |b.cells| && 0 <= i < |b.cells[q].pieces| && b.cells[q].pieces[i].originalIndex == k)
  }

  function RemoveAt<T>(s: seq<T>, i: nat): (r: seq<T>)
    requires i < |s|
    ensures |r| == |s| - 1
    ensures multiset(r) + multiset{s[i]} == multiset(s)
  {
    assert s == s[..i] + [s[i]] + s[i + 1..];
    s[..i] + s[i + 1..]
  }

  /** The first piece of `s` carrying position `k`, as `Array.prototype.find` returns it. */
  function FindIn(s: seq<Tile>, k: int): (r: Option<nat>)
    ensures r.Some? ==> r.value < |s| && s[r.value].originalIndex == k
    ensures r.Some? ==> forall i :: 0 <= i < r.value ==> s[i].originalIndex != k
    ensures r.None? ==> forall i :: 0 <= i < |s| ==> s[i].originalIndex != k
  {
    if |s| == 0 then None
    else if s[0].originalIndex == k then Some(0)
    else match FindIn(s[1..], k)
      case None => None
      case Some(i) => Some(i + 1)
  }

  /** The first cell from `from` on whose children include a piece carrying `k`. */
  function FindInCells(cells: seq<Cell>, k: int, from: nat): (r: Option<Place>)
    requires from <= |cells|
    ensures r.Some? ==> r.value.InCell? && from <= r.value.cell < |cells|
    ensures r.Some? ==> r.value.pos < |cells[r.value.cell].pieces|
    ensures r.Some? ==> cells[r.value.cell].pieces[r.value.pos].originalIndex == k
    ensures r.None? ==> forall q, i :: from <= q < |cells| && 0 <= i < |cells[q].pieces| ==> cells[q].pieces[i].originalIndex != k
    decreases |cells| - from
  {
    if from == |cells| then None
    else match FindIn(cells[from].pieces, k)
      case Some(i) => Some(InCell(from, i))
      case None => FindInCells(cells, k, from + 1)
  }

  /**
   * The lookup `[...querySelectorAll(".puzzle-piece")].find(...)`: the first piece
   * carrying `k` in page order, taken here as the tray before the grid.
   */
  function FindPiece(b: Board, k: int): (r: Option<Place>)
    ensures r.Some? ==> PlaceOk(b, r.value) && TileAt(b, r.value).originalIndex == k
    ensures r.None? <==> !HasPiece(b, k)
  {
    match FindIn(b.tray, k)
    case Some(i) => Some(InTray(i))
    case None => FindInCells(b.cells, k, 0)
  }

  /** The board with the piece at `p` taken out of its container. */
  function Lift(b: Board, p: Place): (r: Board)
    requires PlaceOk(b, p)
    ensures |r.cells| == |b.cells|
    ensures forall q :: 0 <= q < |b.cells| ==> r.cells[q].index == b.cells[q].index
  {
    match p
    case InTray(i) => b.(tray := RemoveAt(b.tray, i))
    case InCell(q, i) => b.(cells := b.cells[q := b.cells[q].(pieces := RemoveAt(b.cells[q].pieces, i))])
  }

  /** `appendChild`: the piece at `p` leaves its container and becomes the last child of cell `target`. */
  function MovePiece(b: Board, p: Place, target: nat): (r: Board)
    requires PlaceOk(b, p) && target < |b.cells|
    ensures |r.cells| == |b.cells|
    ensures forall q :: 0 <= q < |b.cells| ==> r.cells[q].index == b.cells[q].index
    ensures |r.cells[target].pieces| > 0 && r.cells[target].pieces[|r.cells[target].pieces| - 1] == TileAt(b, p)
    ensures p.InTray? ==> r.tray == b.tray[..p.pos] + b.tray[p.pos + 1..]
    ensures p.InCell? ==> r.tray == b.tray
    ensures p.InCell? && p.cell != target ==>
              r.cells[p.cell].pieces == b.cells[p.cell].pieces[..p.pos] + b.cells[p.cell].pieces[p.pos + 1..]
    ensures forall q :: 0 <= q < |b.cells| && q != target && !(p.InCell? && p.cell == q) ==> r.cells[q] == b.cells[q]
    ensures !(p.InCell? && p.cell == target) ==> r.cells[target].pieces == b.cells[target].pieces + [TileAt(b, p)]
    ensures p.InCell? && p.cell == target ==>
              r.cells[target].pieces == b.cells[target].pieces[..p.pos] + b.cells[target].pieces[p.pos + 1..] + [TileAt(b, p)]
  {
    var t := TileAt(b, p);
    var lifted := Lift(b, p);
    lifted.(cells := lifted.cells[target := lifted.cells[target].(pieces := lifted.cells[target].pieces + [t])])
  }

  /**
   * A drop of the piece carrying `k` onto cell `target`: accepted only when `k`
   * equals the cell's index and some piece carries `k`; otherwise nothing changes.
   */
  function Drop(b: Board, k: int, target: nat): (r: Board)
    requires target < |b.cells|
    ensures |r.cells| == |b.cells|
    ensures forall q :: 0 <= q < |b.cells| ==> r.cells[q].index == b.cells[q].index
    ensures k != b.cells[target].index ==> r == b
    ensures !HasPiece(b, k) ==> r == b
    ensures k == b.cells[target].index && HasPiece(b, k) ==>
              |r.cells[target].pieces| > 0 && r.cells[target].pieces[|r.cells[target].pieces| - 1].originalIndex == k
  {
    if k != b.cells[target].index then b
    else match FindPiece(b, k)
      case None => b
      case Some(p) => MovePiece(b, p, target)
  }

  /** Taking a piece out of its container removes exactly that piece from the board. */
  lemma LiftRemovesPiece(b: Board, p: Place)
    requires PlaceOk(b, p)
    ensures AllTiles(Lift(b, p)) + multiset{TileAt(b, p)} == AllTiles(b)
  {
    match p
    case InTray(i) =>
    case InCell(q, i) =>
      var c := b.cells[q].(pieces := RemoveAt(b.cells[q].pieces, i));
      CellsTilesShrink(b.cells, q, c, multiset{TileAt(b, p)});
  }

  /** Moving a piece into a cell neither loses nor duplicates any piece. */
  lemma MoveKeepsEveryPiece(b: Board, p: Place, target: nat)
    requires PlaceOk(b, p) && target < |b.cells|
    ensures AllTiles(MovePiece(b, p, target)) == AllTiles(b)
  {
    var t := TileAt(b, p);
    var lifted := Lift(b, p);
    LiftRemovesPiece(b, p);
    var c := lifted.cells[target].(pieces := lifted.cells[target].pieces + [t]);
    assert multiset(c.pieces) == multiset(lifted.cells[target].pieces) + multiset{t};
    CellsTilesGrow(lifted.cells, target, c, multiset{t});
  }

  /** Whatever is dropped where, no piece appears, disappears or is duplicated. */
  lemma DropKeepsEveryPiece(b: Board, k: int, target: nat)
    requires target < |b.cells|
    ensures AllTiles(Drop(b, k, target)) == AllTiles(b)
  {
    if k == b.cells[target].index {
      var found := FindPiece(b, k);
      if found.Some? {
        MoveKeepsEveryPiece(b, found.value, target);
      }
    }
  }

  /** On a valid board the piece of every position is somewhere. */
  lemma ValidBoardHasEveryPiece(b: Board, k: int)
    requires Valid(b) && 0 <= k < PieceCount
    ensures HasPiece(b, k)
  {
    assert Pieces()[k] == PieceFor(k);
    assert PieceFor(k) in AllTiles(b);
    if PieceFor(k) in b.tray {
      var i :| 0 <= i < |b.tray| && b.tray[i] == PieceFor(k);
    } else {
      CellsTilesMember(b.cells, PieceFor(k));
    }
  }

  /**
   * On a valid board the lookup always finds the piece carrying `k`: in the
   * tray when cell `k` is empty, and as the only child of cell `k` otherwise.
   */
  lemma FindOnValidBoard(b: Board, k: int)
    requires Valid(b) && 0 <= k < CellCount
    ensures FindPiece(b, k).Some?
    ensures b.cells[k].pieces == [] ==>
              FindPiece(b, k).value.InTray? && b.tray[FindPiece(b, k).value.pos] == PieceFor(k)
    ensures b.cells[k].pieces != [] ==>
              FindPiece(b, k) == Some(InCell(k, 0)) && b.cells[k].pieces == [PieceFor(k)]
  {
    ValidBoardHasEveryPiece(b, k);
    match FindPiece(b, k).value
    case InTray(i) =>
      assert b.tray[i] in multiset(b.tray);
      ValidBoardPiece(b, b.tray[i]);
      TrayPieceMeansEmptyCell(b, i);
    case InCell(q, i) =>
      var t := b.cells[q].pieces[i];
      assert HoldsOwnPieceOnly(b.cells[q]) && t in b.cells[q].pieces;
      CellsTilesContains(b.cells, q);
      ValidBoardPiece(b, t);
  }

  /**
   * On a valid board with cell `k` empty, dropping the piece carrying `k` onto
   * cell `k` takes that piece out of the tray and makes it the cell's only
   * child; the rest of the tray keeps its order and no other cell changes.
   */
  lemma AcceptedDropFromTray(b: Board, k: int)
    requires Valid(b) && 0 <= k < CellCount && b.cells[k].pieces == []
    ensures Drop(b, k, k).cells == b.cells[k := Cell(k, [PieceFor(k)])]
    ensures exists i :: 0 <= i < |b.tray| && b.tray[i] == PieceFor(k) && Drop(b, k, k).tray == b.tray[..i] + b.tray[i + 1..]
  {
    FindOnValidBoard(b, k);
    var p := FindPiece(b, k).value;
    assert Drop(b, k, k) == MovePiece(b, p, k);
    assert Lift(b, p) == b.(tray := RemoveAt(b.tray, p.pos));
    assert TileAt(b, p) == PieceFor(k) && b.cells[k] == Cell(k, []);
    assert b.cells[k].pieces + [PieceFor(k)] == [PieceFor(k)];
  }

  /** On a valid board, dropping a piece onto the cell already holding it changes nothing. */
  lemma AcceptedDropInPlace(b: Board, k: int)
    requires Valid(b) && 0 <= k < CellCount && b.cells[k].pieces != []
    ensures Drop(b, k, k) == b
  {
    FindOnValidBoard(b, k);
    var p := InCell(k, 0);
    assert Drop(b, k, k) == MovePiece(b, p, k);
    assert Lift(b, p).cells == b.cells[k := b.cells[k].(pieces := [])];
    assert TileAt(b, p) == PieceFor(k) && b.cells[k] == Cell(k, [PieceFor(k)]);
    assert [] + [PieceFor(k)] == [PieceFor(k)];
    assert b.cells[k := Cell(k, [PieceFor(k)])] == b.cells;
  }

  /**
   * On a valid board, an accepted drop leaves exactly the piece carrying `k`
   * in cell `k` and no other cell changes.
   */
  lemma AcceptedDrop(b: Board, k: int)
    requires Valid(b) && 0 <= k < CellCount
    ensures Drop(b, k, k).cells[k].pieces == [PieceFor(k)]
    ensures forall q :: 0 <= q < CellCount && q != k ==> Drop(b, k, k).cells[q] == b.cells[q]
  {
    if b.cells[k].pieces == [] {
      AcceptedDropFromTray(b, k);
    } else {
      AcceptedDropInPlace(b, k);
      FindOnValidBoard(b, k);
    }
  }

  /** Every drop, accepted or not, keeps the board invariant. */
  lemma DropPreservesValid(b: Board, k: int, target: nat)
    requires Valid(b) && target < |b.cells|
    ensures Valid(Drop(b, k, target))
  {
    if k == target {
      var r := Drop(b, k, k);
      AcceptedDrop(b, k);
      DropKeepsEveryPiece(b, k, k);
      assert HoldsOwnPieceOnly(r.cells[k]);
      RebuiltCellsValid(b, r);
    }
  }

  /**
   * A board with the same cells (by index), the same pieces, and only cells
   * holding their own piece alone is valid when the original was.
   */
  lemma RebuiltCellsValid(b: Board, r: Board)
    requires Valid(b) && |r.cells| == |b.cells| && AllTiles(r) == AllTiles(b)
    requires forall q :: 0 <= q < |b.cells| ==> r.cells[q].index == b.cells[q].index
    requires forall q :: 0 <= q < |r.cells| ==> HoldsOwnPieceOnly(r.cells[q])
    ensures Valid(r)
  {
  }
}
