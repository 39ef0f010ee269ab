/**
 * The puzzle pieces cut from the map snapshot in the `save-map` handler of
 * script.js: a 4 × 4 grid of 200 × 125 px pieces, each tagged with its
 * row-major position and shifted so that it shows its own part of the image.
 */
module Tiles {
  import opened Wrappers

  const Columns: int := 4
  const Rows: int := 4
  const PieceCount: int := 16
  const PieceWidth: int := 200
  const PieceHeight: int := 125

  /** A CSS `background-position` in pixels. */
  datatype Offset = Offset(x: int, y: int)

  /** A puzzle piece: `data-original-index` and the part of the snapshot it shows. */
  datatype Tile = Tile(originalIndex: int, offset: Offset)

  /** The image offset that shows the part of the snapshot belonging at position `k`. */
  function OffsetOf(k: int): Offset
    requires 0 <= k
  {
    Offset(-(k % Columns) * PieceWidth, -(k / Columns) * PieceHeight)
  }

  /** The piece that belongs at position `k`. */
  function PieceFor(k: int): Tile
    requires 0 <= k
  {
    Tile(k, OffsetOf(k))
  }

  /** The sixteen pieces in creation (row-major) order. */
  function Pieces(): seq<Tile> {
    seq(PieceCount, k requires 0 <= k => PieceFor(k))
  }

  /**
   * Recovers the position from an image offset; `None` for an offset that no
   * piece of the grid carries.
   */
  function IndexOfOffset(o: Offset): (r: Option<int>)
    ensures r.Some? ==> 0 <= r.value < PieceCount && OffsetOf(r.value) == o
    ensures r.None? ==> forall k :: 0 <= k < PieceCount ==> OffsetOf(k) != o
  {
    var col := -o.x;
    var row := -o.y;
    if 0 <= col && 0 <= row && col % PieceWidth == 0 && row % PieceHeight == 0
       && col / PieceWidth < Columns && row / PieceHeight < Rows
    then
      var k := row / PieceHeight * Columns + col / PieceWidth;
      assert k % Columns == col / PieceWidth && k / Columns == row / PieceHeight;
      Some(k)
    else
      assert forall k :: 0 <= k < PieceCount ==> OffsetOf(k) != o by {
        forall k | 0 <= k < PieceCount
          ensures OffsetOf(k) != o
        {
          OffsetDecodes(k);
        }
      }
      None
  }

  /** The offset of position `k` passes every test of the decoder. */
  lemma OffsetDecodes(k: int)
    requires 0 <= k < PieceCount
    ensures 0 <= -OffsetOf(k).x && -OffsetOf(k).x % PieceWidth == 0 && -OffsetOf(k).x / PieceWidth == k % Columns
    ensures 0 <= -OffsetOf(k).y && -OffsetOf(k).y % PieceHeight == 0 && -OffsetOf(k).y / PieceHeight == k / Columns
  {
  }

  /** The nested row/column loop that creates the pieces. */
  method BuildPieces() returns (pieces: seq<Tile>)
    ensures |pieces| == PieceCount
    ensures forall k :: 0 <= k < |pieces| ==> pieces[k].originalIndex == k
    ensures forall k :: 0 <= k < |pieces| ==> pieces[k].offset == OffsetOf(k)
  {
    pieces := [];
    var y := 0;
    while y < Rows
      invariant 0 <= y <= Rows
      invariant |pieces| == y * Columns
      invariant forall k :: 0 <= k < |pieces| ==> pieces[k] == PieceFor(k)
    {
      var x := 0;
      while x < Columns
        invariant 0 <= x <= Columns
        invariant |pieces| == y * Columns + x
        invariant forall k :: 0 <= k < |pieces| ==> pieces[k] == PieceFor(k)
      {
        var piece := Tile(y * Columns + x, Offset(-(x * PieceWidth), -(y * PieceHeight)));
        assert (y * Columns + x) % Columns == x && (y * Columns + x) / Columns == y;
        pieces := pieces + [piece];
        x := x + 1;
      }
      y := y + 1;
    }
  }

  /** The offset of each position decodes back to that position. */
  lemma OffsetRoundTrip(k: int)
    requires 0 <= k < PieceCount
    ensures IndexOfOffset(OffsetOf(k)) == Some(k)
  {
  }

  /** Distinct positions show distinct parts of the image. */
  lemma OffsetsDistinct(k1: int, k2: int)
    requires 0 <= k1 < PieceCount && 0 <= k2 < PieceCount && k1 != k2
    ensures OffsetOf(k1) != OffsetOf(k2)
  {
    OffsetRoundTrip(k1);
    OffsetRoundTrip(k2);
  }
}
