/** The topology of the structured grid, on the values of the tag tables
    (`t[ix][iy]` for the numpy entry `t[ix, iy]`): which points each line
    joins and how each cell's signed curve loop is put together. */
module Topology {
  import opened Gmsh
  import opened Grid

  /** A table with `w` columns of `h` entries each (numpy shape `(w, h)`). */
  predicate Dims(t: seq<seq<int>>, w: nat, h: nat)
  {
    |t| == w && forall i :: 0 <= i < w ==> |t[i]| == h
  }

  /** No two entries of the `w` by `h` table `t` hold the same tag. */
  predicate DistinctTags(t: seq<seq<int>>, w: nat, h: nat)
    requires Dims(t, w, h)
  {
    forall i1, j1, i2, j2 :: 0 <= i1 < w && 0 <= j1 < h && 0 <= i2 < w && 0 <= j2 < h && t[i1][j1] == t[i2][j2] ==>
      i1 == i2 && j1 == j2
  }

  /** No tag of table `a` appears in table `b`. */
  predicate NoSharedTag(a: seq<seq<int>>, wa: nat, ha: nat, b: seq<seq<int>>, wb: nat, hb: nat)
    requires Dims(a, wa, ha) && Dims(b, wb, hb)
  {
    forall i1, j1, i2, j2 :: 0 <= i1 < wa && 0 <= j1 < ha && 0 <= i2 < wb && 0 <= j2 < hb ==> a[i1][j1] != b[i2][j2]
  }

  /** Tags handed out consecutively row by row (`for j: for i:`) are distinct. */
  lemma RowWiseTagsDistinct(t: seq<seq<int>>, w: nat, h: nat, base: int)
    requires Dims(t, w, h)
    requires forall i, j :: 0 <= i < w && 0 <= j < h ==> t[i][j] == base + RowStart(w, j) + i + 1
    ensures DistinctTags(t, w, h)
  {
    forall i1, j1, i2, j2 | 0 <= i1 < w && 0 <= j1 < h && 0 <= i2 < w && 0 <= j2 < h && t[i1][j1] == t[i2][j2]
      ensures i1 == i2 && j1 == j2
    {
      RowStartInjective(w, i1, j1, i2, j2);
    }
  }

  /** Tags handed out consecutively column by column (`for i: for j:`) are distinct. */
  lemma ColumnWiseTagsDistinct(t: seq<seq<int>>, w: nat, h: nat, base: int)
    requires Dims(t, w, h)
    requires forall i, j :: 0 <= i < w && 0 <= j < h ==> t[i][j] == base + RowStart(h, i) + j + 1
    ensures DistinctTags(t, w, h)
  {
    forall i1, j1, i2, j2 | 0 <= i1 < w && 0 <= j1 < h && 0 <= i2 < w && 0 <= j2 < h && t[i1][j1] == t[i2][j2]
      ensures i1 == i2 && j1 == j2
    {
      RowStartInjective(h, j1, i1, j2, i2);
    }
  }

  /** Line `lx[ix][iy]` is registered and runs from point `(ix, iy)` to point `(ix + 1, iy)`. */
  predicate XEdges(lines: seq<Line>, nodes: seq<seq<int>>, lx: seq<seq<int>>, nx: nat, ny: nat)
  {
    && Dims(nodes, nx + 1, ny + 1) && Dims(lx, nx, ny + 1)
    && forall ix, iy :: 0 <= ix < nx && 0 <= iy <= ny ==>
         0 < lx[ix][iy] <= |lines| && lines[lx[ix][iy] - 1] == Line(nodes[ix][iy], nodes[ix + 1][iy])
  }

  /** Line `ly[ix][iy]` is registered and runs from point `(ix, iy)` to point `(ix, iy + 1)`. */
  predicate YEdges(lines: seq<Line>, nodes: seq<seq<int>>, ly: seq<seq<int>>, nx: nat, ny: nat)
  {
    && Dims(nodes, nx + 1, ny + 1) && Dims(ly, nx + 1, ny)
    && forall ix, iy :: 0 <= ix <= nx && 0 <= iy < ny ==>
         0 < ly[ix][iy] <= |lines| && lines[ly[ix][iy] - 1] == Line(nodes[ix][iy], nodes[ix][iy + 1])
  }

  /** Every tag in the line tables names a line added after the first `before` ones. */
  predicate FreshLines(before: nat, lx: seq<seq<int>>, ly: seq<seq<int>>, nx: nat, ny: nat)
  {
    && Dims(lx, nx, ny + 1) && Dims(ly, nx + 1, ny)
    && (forall ix, iy :: 0 <= ix < nx && 0 <= iy <= ny ==> before < lx[ix][iy])
    && (forall ix, iy :: 0 <= ix <= nx && 0 <= iy < ny ==> before < ly[ix][iy])
  }

  /** What `generate_nodes` and `generate_lines` leave behind: every line joins the
      points the grid says it joins, and no tag is used twice among the points, nor
      among the lines of both directions together. */
  predicate Wired(lines: seq<Line>, nodes: seq<seq<int>>, lx: seq<seq<int>>, ly: seq<seq<int>>, nx: nat, ny: nat)
  {
    && XEdges(lines, nodes, lx, nx, ny) && YEdges(lines, nodes, ly, nx, ny)
    && DistinctTags(nodes, nx + 1, ny + 1)
    && DistinctTags(lx, nx, ny + 1) && DistinctTags(ly, nx + 1, ny)
    && NoSharedTag(lx, nx, ny + 1, ly, nx + 1, ny)
  }

  /** The signed loop of cell `(ix, iy)`: up its right side, back along its top,
      down its left side, along its bottom. */
  function CellLoop(lx: seq<seq<int>>, ly: seq<seq<int>>, nx: nat, ny: nat, ix: nat, iy: nat): (loop: seq<int>)
    requires Dims(lx, nx, ny + 1) && Dims(ly, nx + 1, ny)
    requires ix < nx && iy < ny
    ensures |loop| == 4
  {
    [ly[ix + 1][iy], -lx[ix][iy + 1], -ly[ix][iy], lx[ix][iy]]
  }

  /** The loops of the given cells, in order. */
  function CellLoops(lx: seq<seq<int>>, ly: seq<seq<int>>, nx: nat, ny: nat, cells: seq<Cell>): (r: seq<seq<int>>)
    requires Dims(lx, nx, ny + 1) && Dims(ly, nx + 1, ny)
    requires forall c :: c in cells ==> c.ix < nx && c.iy < ny
    ensures |r| == |cells|
    ensures forall k :: 0 <= k < |cells| ==> r[k] == CellLoop(lx, ly, nx, ny, cells[k].ix, cells[k].iy)
  {
    seq(|cells|, k requires 0 <= k < |cells| => CellLoop(lx, ly, nx, ny, cells[k].ix, cells[k].iy))
  }

  lemma CellLoopsAppend(lx: seq<seq<int>>, ly: seq<seq<int>>, nx: nat, ny: nat, a: seq<Cell>, b: seq<Cell>)
    requires Dims(lx, nx, ny + 1) && Dims(ly, nx + 1, ny)
    requires forall c :: c in a ==> c.ix < nx && c.iy < ny
    requires forall c :: c in b ==> c.ix < nx && c.iy < ny
    ensures CellLoops(lx, ly, nx, ny, a + b) == CellLoops(lx, ly, nx, ny, a) + CellLoops(lx, ly, nx, ny, b)
  {
    assert forall c :: c in a + b ==> c in a || c in b;
    assert CellLoops(lx, ly, nx, ny, a + b) == CellLoops(lx, ly, nx, ny, a) + CellLoops(lx, ly, nx, ny, b);
  }

  /** The loops of a row's first `ix + 1` cells extend those of its first `ix` by cell `ix`'s. */
  lemma CellLoopsRowStep(lx: seq<seq<int>>, ly: seq<seq<int>>, nx: nat, ny: nat, ix: nat, iy: nat)
    requires Dims(lx, nx, ny + 1) && Dims(ly, nx + 1, ny)
    requires ix < nx && iy < ny
    ensures CellLoops(lx, ly, nx, ny, Row(nx, iy)[..ix + 1])
      == CellLoops(lx, ly, nx, ny, Row(nx, iy)[..ix]) + [CellLoop(lx, ly, nx, ny, ix, iy)]
  {
    assert Row(nx, iy)[..ix + 1] == Row(nx, iy)[..ix] + [Cell(ix, iy)];
    CellLoopsAppend(lx, ly, nx, ny, Row(nx, iy)[..ix], [Cell(ix, iy)]);
  }

  /** The loops of the bottom `iy + 1` rows extend those of the bottom `iy` rows by row `iy`'s. */
  lemma CellLoopsNextRow(lx: seq<seq<int>>, ly: seq<seq<int>>, nx: nat, ny: nat, iy: nat)
    requires Dims(lx, nx, ny + 1) && Dims(ly, nx + 1, ny)
    requires iy < ny
    ensures CellLoops(lx, ly, nx, ny, CellOrder(nx, iy + 1))
      == CellLoops(lx, ly, nx, ny, CellOrder(nx, iy)) + CellLoops(lx, ly, nx, ny, Row(nx, iy)[..nx])
  {
    assert Row(nx, iy)[..nx] == Row(nx, iy);
    CellLoopsAppend(lx, ly, nx, ny, CellOrder(nx, iy), Row(nx, iy));
  }

  /** With lines wired as above, each cell's loop is closed, and it visits the
      cell's corners bottom-right, top-right, top-left, bottom-left: counter-clockwise
      when x grows to the right and y grows upwards. */
  lemma CellLoopClosed(lines: seq<Line>, nodes: seq<seq<int>>, lx: seq<seq<int>>, ly: seq<seq<int>>, nx: nat, ny: nat, ix: nat, iy: nat)
    requires XEdges(lines, nodes, lx, nx, ny) && YEdges(lines, nodes, ly, nx, ny)
    requires ix < nx && iy < ny
    ensures ClosedLoop(lines, CellLoop(lx, ly, nx, ny, ix, iy))
    ensures Corners(lines, CellLoop(lx, ly, nx, ny, ix, iy))
      == [nodes[ix + 1][iy], nodes[ix + 1][iy + 1], nodes[ix][iy + 1], nodes[ix][iy]]
  {
    var loop := CellLoop(lx, ly, nx, ny, ix, iy);
    var right, top, left, bottom := Traversed(lines, loop[0]), Traversed(lines, loop[1]), Traversed(lines, loop[2]), Traversed(lines, loop[3]);
    assert right == Line(nodes[ix + 1][iy], nodes[ix + 1][iy + 1]);
    assert top == Line(nodes[ix + 1][iy + 1], nodes[ix][iy + 1]);
    assert left == Line(nodes[ix][iy + 1], nodes[ix][iy]);
    assert bottom == Line(nodes[ix][iy], nodes[ix + 1][iy]);
    FourSidedLoop(lines, loop);
  }

  /** A loop of four line references closes when each side ends where the next begins. */
  lemma FourSidedLoop(lines: seq<Line>, loop: seq<int>)
    requires |loop| == 4 && forall k :: 0 <= k < 4 ==> IsLineRef(lines, loop[k])
    requires Traversed(lines, loop[0]).end == Traversed(lines, loop[1]).start
    requires Traversed(lines, loop[1]).end == Traversed(lines, loop[2]).start
    requires Traversed(lines, loop[2]).end == Traversed(lines, loop[3]).start
    requires Traversed(lines, loop[3]).end == Traversed(lines, loop[0]).start
    ensures ClosedLoop(lines, loop)
    ensures Corners(lines, loop) == [Traversed(lines, loop[0]).start, Traversed(lines, loop[1]).start,
                                     Traversed(lines, loop[2]).start, Traversed(lines, loop[3]).start]
  {
    forall k | 0 <= k < 4
      ensures Traversed(lines, loop[k]).end == Traversed(lines, loop[(k + 1) % 4]).start
    {
      if k == 3 {
        assert (k + 1) % 4 == 0;
      }
    }
  }

  /** Every loop the builder registers for the grid, one per cell in visiting order, is closed. */
  lemma CellLoopsClosed(lines: seq<Line>, nodes: seq<seq<int>>, lx: seq<seq<int>>, ly: seq<seq<int>>, nx: nat, ny: nat)
    requires XEdges(lines, nodes, lx, nx, ny) && YEdges(lines, nodes, ly, nx, ny)
    ensures forall k :: 0 <= k < nx * ny ==> ClosedLoop(lines, CellLoops(lx, ly, nx, ny, CellOrder(nx, ny))[k])
  {
    var cells := CellOrder(nx, ny);
    forall k | 0 <= k < nx * ny
      ensures ClosedLoop(lines, CellLoops(lx, ly, nx, ny, cells)[k])
    {
      assert cells[k] in cells;
      CellLoopClosed(lines, nodes, lx, ly, nx, ny, cells[k].ix, cells[k].iy);
    }
  }
}
