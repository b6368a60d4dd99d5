/** Index arithmetic of the structured grid: cells are visited row by row,
    bottom row first (`for iy in range(ny): for ix in range(nx)`), and
    entities created in such a double loop get consecutive tags. */
module Grid {

  /** Cell `(ix, iy)`: column `ix` counted left to right, row `iy` counted bottom to top. */
  datatype Cell = Cell(ix: nat, iy: nat)

  /** The cells of row `iy`, left to right. */
  function Row(nx: nat, iy: nat): (r: seq<Cell>)
    ensures |r| == nx
    ensures forall ix :: 0 <= ix < nx ==> r[ix] == Cell(ix, iy)
  {
    seq(nx, ix requires 0 <= ix => Cell(ix, iy))
  }

  /** The cells of the bottom `ny` rows in the order the builder's double loops visit them. */
  function CellOrder(nx: nat, ny: nat): (r: seq<Cell>)
    ensures |r| == nx * ny
    ensures forall c :: c in r ==> c.ix < nx && c.iy < ny
  {
    if ny == 0 then [] else CellOrder(nx, ny - 1) + Row(nx, ny - 1)
  }

  /** Every cell of the `nx` by `ny` grid is visited, and none twice. */
  lemma {:induction false} CellOrderEnumerates(nx: nat, ny: nat)
    ensures forall c :: c in CellOrder(nx, ny) <==> c.ix < nx && c.iy < ny
    ensures forall i, j :: 0 <= i < j < nx * ny ==> CellOrder(nx, ny)[i] != CellOrder(nx, ny)[j]
  {
    if ny > 0 {
      CellOrderEnumerates(nx, ny - 1);
      var prev, row := CellOrder(nx, ny - 1), Row(nx, ny - 1);
      assert CellOrder(nx, ny) == prev + row;
      forall c: Cell | c.ix < nx && c.iy < ny
        ensures c in CellOrder(nx, ny)
      {
        if c.iy < ny - 1 {
          assert c in prev;
        } else {
          assert row[c.ix] == c;
        }
      }
    }
  }

  lemma MulMonotone(a: nat, b: nat, w: nat)
    requires a <= b
    ensures a * w <= b * w
  {
  }

  /** Position `iy * w + ix` in a row-major walk with rows of width `w` determines `(ix, iy)`. */
  lemma RowMajorInjective(w: nat, ix: nat, iy: nat, jx: nat, jy: nat)
    requires ix < w && jx < w
    requires iy * w + ix == jy * w + jx
    ensures ix == jx && iy == jy
  {
    if iy < jy {
      MulMonotone(iy + 1, jy, w);
      assert false;
    } else if jy < iy {
      MulMonotone(jy + 1, iy, w);
      assert false;
    }
  }

  /** A row-major position of an `w` by `h` table lies below `w * h`. */
  lemma RowMajorBound(w: nat, h: nat, ix: nat, iy: nat)
    requires ix < w && iy < h
    ensures iy * w + ix < w * h
  {
    MulMonotone(iy + 1, h, w);
    assert (iy + 1) * w == iy * w + w;
  }

  /** The cell visited at step `iy * nx + ix` is `(ix, iy)`. */
  lemma {:induction false} CellOrderAt(nx: nat, ny: nat, ix: nat, iy: nat)
    requires ix < nx && iy < ny
    ensures iy * nx + ix < nx * ny
    ensures CellOrder(nx, ny)[iy * nx + ix] == Cell(ix, iy)
  {
    RowMajorBound(nx, ny, ix, iy);
    var prev := CellOrder(nx, ny - 1);
    if iy < ny - 1 {
      CellOrderAt(nx, ny - 1, ix, iy);
    } else {
      assert |prev| == iy * nx;
    }
  }

  /** The prefix of every visited cell is the whole visit. */
  lemma FullPrefix(cells: seq<Cell>)
    ensures cells[..|cells|] == cells
  {
  }

  /** The step at which the visit enters row `iy`: `nx` steps per row below it. */
  function RowStart(nx: nat, iy: nat): nat
  {
    if iy == 0 then 0 else RowStart(nx, iy - 1) + nx
  }

  lemma {:induction false} RowStartIs(nx: nat, iy: nat)
    ensures RowStart(nx, iy) == iy * nx
  {
    if iy > 0 {
      RowStartIs(nx, iy - 1);
      assert iy * nx == (iy - 1) * nx + nx;
    }
  }

  /** Row `iy` of the grid is visited at steps `RowStart(nx, iy)` up to
      `RowStart(nx, iy) + nx`, all of them inside the visit; after the last row
      the visit is complete. */
  lemma RowInVisit(nx: nat, ny: nat, iy: nat)
    requires iy <= ny
    ensures iy < ny ==> RowStart(nx, iy) + nx <= nx * ny
    ensures iy == ny ==> RowStart(nx, iy) == nx * ny
  {
    RowStartIs(nx, iy);
    if iy < ny {
      MulMonotone(iy + 1, ny, nx);
    }
  }

  /** The cell visited at step `RowStart(nx, iy) + ix` is `(ix, iy)`. */
  lemma CellAtRowStep(nx: nat, ny: nat, ix: nat, iy: nat)
    requires ix < nx && iy < ny
    ensures RowStart(nx, iy) + ix < nx * ny
    ensures CellOrder(nx, ny)[RowStart(nx, iy) + ix] == Cell(ix, iy)
  {
    RowStartIs(nx, iy);
    CellOrderAt(nx, ny, ix, iy);
  }

  /** Where each cell falls in the visit: cell `(ix, iy)` is step `RowStart(nx, iy) + ix`. */
  lemma CellOrderRows(nx: nat, ny: nat)
    ensures forall iy :: 0 <= iy < ny ==> RowStart(nx, iy) + nx <= nx * ny
    ensures forall iy, ix :: 0 <= iy < ny && 0 <= ix < nx ==> CellOrder(nx, ny)[RowStart(nx, iy) + ix] == Cell(ix, iy)
  {
    forall iy | 0 <= iy < ny
      ensures RowStart(nx, iy) + nx <= nx * ny
    {
      RowInVisit(nx, ny, iy);
    }
    forall iy, ix | 0 <= iy < ny && 0 <= ix < nx
      ensures CellOrder(nx, ny)[RowStart(nx, iy) + ix] == Cell(ix, iy)
    {
      CellAtRowStep(nx, ny, ix, iy);
    }
  }

  /** Distinct positions of a row-major walk with rows of width `w` are distinct steps. */
  lemma RowStartInjective(w: nat, ix: nat, iy: nat, jx: nat, jy: nat)
    requires ix < w && jx < w
    requires RowStart(w, iy) + ix == RowStart(w, jy) + jx
    ensures ix == jx && iy == jy
  {
    RowStartIs(w, iy);
    RowStartIs(w, jy);
    RowMajorInjective(w, ix, iy, jx, jy);
  }

  /** Every position of a row-major walk over `h` rows of width `w` comes before `RowStart(w, h)`. */
  lemma RowStartBelow(w: nat, h: nat, i: nat, j: nat)
    requires i < w && j < h
    ensures RowStart(w, j) + i < RowStart(w, h)
  {
    RowStartIs(w, j);
    RowStartIs(w, h);
    RowMajorBound(w, h, i, j);
  }
}
