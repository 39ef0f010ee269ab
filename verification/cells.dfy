/**
 * The grid cells of the puzzle (`grid-cell` elements) and the pieces they hold.
 */
module Cells {
  import opened Tiles

  /** A `grid-cell`: its `data-index` and its child pieces in order. */
  datatype Cell = Cell(index: int, pieces: seq<Tile>)

  /** The pieces held by the first `n` cells, counted with multiplicity. */
  function TilesBelow(cells: seq<Cell>, n: nat): multiset<Tile>
    requires n <= |cells|
  {
    if n == 0 then multiset{} else TilesBelow(cells, n - 1) + multiset(cells[n - 1].pieces)
  }

  /** The pieces held by all the cells. */
  function CellsTiles(cells: seq<Cell>): multiset<Tile> {
    TilesBelow(cells, |cells|)
  }

  /** The number of cells among the first `n` that hold at least one piece. */
  function FilledBelow(cells: seq<Cell>, n: nat): nat
    requires n <= |cells|
  {
    if n == 0 then 0 else FilledBelow(cells, n - 1) + (if cells[n - 1].pieces == [] then 0 else 1)
  }

  /** Only the first `n` cells matter to `TilesBelow(cells, n)`. */
  lemma {:induction false} TilesBelowAgree(c1: seq<Cell>, c2: seq<Cell>, n: nat)
    requires n <= |c1| && n <= |c2|
    requires forall i :: 0 <= i < n ==> c1[i] == c2[i]
    ensures TilesBelow(c1, n) == TilesBelow(c2, n)
  {
    if n > 0 {
      TilesBelowAgree(c1, c2, n - 1);
    }
  }

  /** Replacing cell `q` trades its old children for the new cell's children. */
  lemma {:induction false} TilesBelowUpdate(cells: seq<Cell>, q: nat, c: Cell, n: nat)
    requires q < n <= |cells|
    ensures TilesBelow(cells[q := c], n) + multiset(cells[q].pieces) == TilesBelow(cells, n) + multiset(c.pieces)
  {
    if q == n - 1 {
      TilesBelowAgree(cells[q := c], cells, n - 1);
    } else {
      TilesBelowUpdate(cells, q, c, n - 1);
      AddToBoth(TilesBelow(cells[q := c], n - 1), multiset(cells[q].pieces),
                TilesBelow(cells, n - 1), multiset(c.pieces), multiset(cells[n - 1].pieces));
    }
  }

  /** Adding the same multiset on both sides of an equation keeps it. */
  lemma AddToBoth<T>(a: multiset<T>, b: multiset<T>, c: multiset<T>, d: multiset<T>, x: multiset<T>)
    requires a + b == c + d
    ensures a + x + b == c + x + d
  {
    forall t ensures (a + x + b)[t] == (c + x + d)[t] {
      assert (a + b)[t] == (c + d)[t];
    }
  }

  /** Replacing one cell changes the cells' pieces by exactly that cell's old and new children. */
  lemma CellsTilesUpdate(cells: seq<Cell>, q: nat, c: Cell)
    requires q < |cells|
    ensures CellsTiles(cells[q := c]) + multiset(cells[q].pieces) == CellsTiles(cells) + multiset(c.pieces)
  {
    TilesBelowUpdate(cells, q, c, |cells|);
  }

  /** A cell losing the pieces `x` takes exactly `x` away from the cells' pieces. */
  lemma CellsTilesShrink(cells: seq<Cell>, q: nat, c: Cell, x: multiset<Tile>)
    requires q < |cells| && multiset(cells[q].pieces) == multiset(c.pieces) + x
    ensures CellsTiles(cells[q := c]) + x == CellsTiles(cells)
  {
    CellsTilesUpdate(cells, q, c);
    forall t ensures (CellsTiles(cells[q := c]) + x)[t] == CellsTiles(cells)[t] {
      assert (CellsTiles(cells[q := c]) + multiset(cells[q].pieces))[t] == (CellsTiles(cells) + multiset(c.pieces))[t];
    }
  }

  /** A cell gaining the pieces `x` adds exactly `x` to the cells' pieces. */
  lemma CellsTilesGrow(cells: seq<Cell>, q: nat, c: Cell, x: multiset<Tile>)
    requires q < |cells| && multiset(c.pieces) == multiset(cells[q].pieces) + x
    ensures CellsTiles(cells[q := c]) == CellsTiles(cells) + x
  {
    CellsTilesUpdate(cells, q, c);
    forall t ensures CellsTiles(cells[q := c])[t] == (CellsTiles(cells) + x)[t] {
      assert (CellsTiles(cells[q := c]) + multiset(cells[q].pieces))[t] == (CellsTiles(cells) + multiset(c.pieces))[t];
    }
  }

  /** The children of any one cell are among the cells' pieces. */
  lemma CellsTilesContains(cells: seq<Cell>, q: nat)
    requires q < |cells|
    ensures multiset(cells[q].pieces) <= CellsTiles(cells)
  {
    var emptied := cells[q].(pieces := []);
    CellsTilesUpdate(cells, q, emptied);
    assert multiset(emptied.pieces) == multiset{};
    assert CellsTiles(cells[q := emptied]) + multiset(cells[q].pieces) == CellsTiles(cells);
  }

  /** A piece held by one of the first `n` cells is a child of one of them. */
  lemma {:induction false} TilesBelowMember(cells: seq<Cell>, n: nat, x: Tile)
    requires n <= |cells| && x in TilesBelow(cells, n)
    ensures exists q, i :: 0 <= q < n && 0 <= i < |cells[q].pieces| && cells[q].pieces[i] == x
  {
    if x in multiset(cells[n - 1].pieces) {
      var i :| 0 <= i < |cells[n - 1].pieces| && cells[n - 1].pieces[i] == x;
    } else {
      TilesBelowMember(cells, n - 1, x);
    }
  }

  /** A piece among the cells' pieces is a child of some cell. */
  lemma CellsTilesMember(cells: seq<Cell>, x: Tile)
    requires x in CellsTiles(cells)
    ensures exists q, i :: 0 <= q < |cells| && 0 <= i < |cells[q].pieces| && cells[q].pieces[i] == x
  {
    TilesBelowMember(cells, |cells|, x);
  }

  /** Cells without pieces contribute no pieces. */
  lemma {:induction false} TilesBelowOfEmptyCells(cells: seq<Cell>, n: nat)
    requires n <= |cells|
    requires forall i :: 0 <= i < |cells| ==> cells[i].pieces == []
    ensures TilesBelow(cells, n) == multiset{}
  {
    if n > 0 {
      TilesBelowOfEmptyCells(cells, n - 1);
    }
  }

  /**
   * When no cell holds more than one piece, the number of pieces held is the
   * number of filled cells, which reaches `n` only when all of them are filled.
   */
  lemma {:induction false} TilesBelowCountsFilled(cells: seq<Cell>, n: nat)
    requires n <= |cells|
    requires forall i :: 0 <= i < |cells| ==> |cells[i].pieces| <= 1
    ensures |TilesBelow(cells, n)| == FilledBelow(cells, n) <= n
    ensures FilledBelow(cells, n) == n <==> forall i :: 0 <= i < n ==> cells[i].pieces != []
  {
    if n > 0 {
      TilesBelowCountsFilled(cells, n - 1);
    }
  }
}
