/** The rectangular mesh builder: a structured grid over the coordinate lists
    `x` and `y`, built into a gmsh geometry session table by table, its cells
    sorted into material groups, and the index-set helpers used to pick cells. */
module Mesh {
  import opened Py
  import opened Gmsh
  import opened Grid
  import opened Topology
  import opened Materials
  import opened Selection

  /** The numpy table `a` as nested sequences, `Table(a)[i][j] == a[i, j]`. */
  function Table(a: array2<int>): (t: seq<seq<int>>)
    reads a
    ensures Dims(t, a.Length0, a.Length1)
    ensures forall i, j :: 0 <= i < a.Length0 && 0 <= j < a.Length1 ==> t[i][j] == a[i, j]
  {
    seq(a.Length0, i requires 0 <= i < a.Length0 reads a =>
      seq(a.Length1, j requires 0 <= j < a.Length1 reads a => a[i, j]))
  }

  /** The point facts `generate_nodes` establishes on the numpy table, read on its values. */
  lemma PlacedOfTable(points: seq<Point>, before: nat, nodes: array2<int>, x: seq<real>, y: seq<real>, size: real, nx: nat, ny: nat)
    requires nodes.Length0 == nx + 1 && nodes.Length1 == ny + 1 && |x| == nx + 1 && |y| == ny + 1
    requires forall ix, iy :: 0 <= ix <= nx && 0 <= iy <= ny ==>
      before < nodes[ix, iy] <= |points| && points[nodes[ix, iy] - 1] == Point(x[ix], y[iy], 0.0, size)
    ensures Placed(points, before, Table(nodes), x, y, size, nx, ny)
  {
  }

  /** The line facts `generate_lines` establishes on the numpy tables, read on their values. */
  lemma EdgesOfTables(lines: seq<Line>, before: nat, nodes: array2<int>, linex: array2<int>, liney: array2<int>, nx: nat, ny: nat)
    requires nodes.Length0 == nx + 1 && nodes.Length1 == ny + 1
    requires linex.Length0 == nx && linex.Length1 == ny + 1 && liney.Length0 == nx + 1 && liney.Length1 == ny
    requires forall ix, iy :: 0 <= ix < nx && 0 <= iy <= ny ==>
      before < linex[ix, iy] <= |lines| && lines[linex[ix, iy] - 1] == Line(nodes[ix, iy], nodes[ix + 1, iy])
    requires forall ix, iy :: 0 <= ix <= nx && 0 <= iy < ny ==>
      before < liney[ix, iy] <= |lines| && lines[liney[ix, iy] - 1] == Line(nodes[ix, iy], nodes[ix, iy + 1])
    ensures XEdges(lines, Table(nodes), Table(linex), nx, ny) && YEdges(lines, Table(nodes), Table(liney), nx, ny)
    ensures FreshLines(before, Table(linex), Table(liney), nx, ny)
  {
  }

  /** The points of `generate_nodes` get distinct tags. */
  lemma NodeTagsOfTable(nodes: array2<int>, nx: nat, ny: nat, base: int)
    requires nodes.Length0 == nx + 1 && nodes.Length1 == ny + 1
    requires forall ix, iy :: 0 <= ix <= nx && 0 <= iy <= ny ==> nodes[ix, iy] == base + RowStart(nx + 1, iy) + ix + 1
    ensures DistinctTags(Table(nodes), nx + 1, ny + 1)
  {
    RowWiseTagsDistinct(Table(nodes), nx + 1, ny + 1, base);
  }

  /** The lines of `generate_lines` get distinct tags: those along x among themselves,
      those along y among themselves, and no tag is shared between the two tables. */
  lemma LineTagsOfTables(linex: array2<int>, liney: array2<int>, nx: nat, ny: nat, base: int)
    requires linex.Length0 == nx && linex.Length1 == ny + 1 && liney.Length0 == nx + 1 && liney.Length1 == ny
    requires forall ix, iy :: 0 <= ix < nx && 0 <= iy <= ny ==> linex[ix, iy] == base + RowStart(nx, iy) + ix + 1
    requires forall ix, iy :: 0 <= ix <= nx && 0 <= iy < ny ==> liney[ix, iy] == base + (ny + 1) * nx + RowStart(ny, ix) + iy + 1
    ensures DistinctTags(Table(linex), nx, ny + 1) && DistinctTags(Table(liney), nx + 1, ny)
    ensures NoSharedTag(Table(linex), nx, ny + 1, Table(liney), nx + 1, ny)
  {
    var tx, ty := Table(linex), Table(liney);
    RowWiseTagsDistinct(tx, nx, ny + 1, base);
    ColumnWiseTagsDistinct(ty, nx + 1, ny, base + (ny + 1) * nx);
    RowStartIs(nx, ny + 1);
    forall i1, j1, i2, j2 | 0 <= i1 < nx && 0 <= j1 < ny + 1 && 0 <= i2 < nx + 1 && 0 <= j2 < ny
      ensures tx[i1][j1] != ty[i2][j2]
    {
      RowStartBelow(nx, ny + 1, i1, j1);
    }
  }

  /** Node `(ix, iy)` of the tag table `nodes` names a point registered after the
      first `before` ones, at `(x[ix], y[iy], 0)` with mesh size `size`. */
  ghost predicate Placed(points: seq<Point>, before: nat, nodes: seq<seq<int>>, x: seq<real>, y: seq<real>, size: real, nx: nat, ny: nat)
  {
    && Dims(nodes, nx + 1, ny + 1) && |x| == nx + 1 && |y| == ny + 1
    && forall ix, iy :: 0 <= ix <= nx && 0 <= iy <= ny ==>
         before < nodes[ix][iy] <= |points| && points[nodes[ix][iy] - 1] == Point(x[ix], y[iy], 0.0, size)
  }

  /** The cells went in between `loops0`, `planes0` and `loops`, `planes`: the signed
      loops of the cells in visit order, one surface per loop bounded by that loop
      alone, and the tag tables `curves` and `surfaces` numbering both in visit order. */
  ghost predicate Celled(loops0: seq<seq<int>>, loops: seq<seq<int>>, planes0: seq<seq<int>>, planes: seq<seq<int>>,
                   lx: seq<seq<int>>, ly: seq<seq<int>>, curves: seq<seq<int>>, surfaces: seq<seq<int>>, nx: nat, ny: nat)
  {
    && Dims(lx, nx, ny + 1) && Dims(ly, nx + 1, ny) && Dims(curves, nx, ny) && Dims(surfaces, nx, ny)
    && loops == loops0 + CellLoops(lx, ly, nx, ny, CellOrder(nx, ny))
    && planes == planes0 + Singletons(|loops0|, nx * ny)
    && forall ix, iy :: 0 <= ix < nx && 0 <= iy < ny ==>
         && curves[ix][iy] == |loops0| + RowStart(nx, iy) + ix + 1
         && surfaces[ix][iy] == |planes0| + RowStart(nx, iy) + ix + 1
  }

  /** What sorting the cells `cells`, all inside the surface table `s`, by the material matrix `m`
      into groups named `names` leaves behind, the kernel's groups going from `before`
      to `after`: on Pass, which happens exactly when every cell's material resolves,
      the classified groups, registered in order; otherwise IndexError, the groups as
      the cells before the first unresolvable one made them, and nothing registered. */
  ghost predicate Grouped(outcome: Outcome, m: seq<seq<int>>, names: seq<string>, cells: seq<Cell>, s: seq<seq<int>>, ny: nat,
                    groups: seq<Group>, before: seq<PhysicalGroup>, after: seq<PhysicalGroup>)
  {
    && InTable(s, cells)
    && (outcome == Pass <==> Resolvable(m, |names|, ny, cells))
    && (outcome == Pass ==> groups == Classify(EmptyGroups(names), cells, s, m, ny) && after == before + Registrations(groups))
    && (outcome != Pass ==>
          && outcome == Fail(IndexError) && after == before
          && exists k :: StoppedAt(EmptyGroups(names), cells, s, m, ny, k, groups))
  }

  class RectMesh {
    /** Node coordinates along each axis, 0 included. */
    const x: seq<real>
    const y: seq<real>
    /** Number of cells along each axis. */
    const nx: nat
    const ny: nat
    /** The gmsh session the builder registers its entities with. */
    const geo: Geo

    var materials: Option<seq<seq<int>>>
    var materialNames: Option<seq<string>>
    /** Set by `generate`; absent before. */
    var meshSize: Option<real>

    /** Tag tables: `nodes[ix, iy]` for grid point `(ix, iy)`, `linex` for the
        horizontal lines, `liney` for the vertical lines, `curves` and `surfaces`
        for the cells. Each is 0 by 0 until its generator has run. */
    var nodes: array2<int>
    var linex: array2<int>
    var liney: array2<int>
    var curves: array2<int>
    var surfaces: array2<int>

    var nMaterial: nat
    var physicalGroups: seq<Group>

    predicate Valid()
    {
      |x| == nx + 1 && |y| == ny + 1
    }

    constructor (lx: seq<real>, ly: seq<real>, materials: Option<seq<seq<int>>>, materialNames: Option<seq<string>>, geo: Geo)
      requires |lx| >= 1 && |ly| >= 1
      ensures Valid()
      ensures x == lx && y == ly && nx == |lx| - 1 && ny == |ly| - 1 && this.geo == geo
      ensures this.materials == materials && this.materialNames == materialNames && meshSize == None
      ensures nodes.Length0 == 0 && linex.Length0 == 0 && liney.Length0 == 0
      ensures curves.Length0 == 0 && surfaces.Length0 == 0
      ensures physicalGroups == []
    {
      x, y := lx, ly;
      nx, ny := |lx| - 1, |ly| - 1;
      this.geo := geo;
      this.materials, this.materialNames := materials, materialNames;
      meshSize := None;
      nodes, linex, liney := new int[0, 0], new int[0, 0], new int[0, 0];
      curves, surfaces := new int[0, 0], new int[0, 0];
      nMaterial := 0;
      physicalGroups := [];
    }

    /** Records the mesh size and builds the mesh: points, lines, cell surfaces, then
        the material groups. Every cell loop it registers is closed, and when the
        materials resolve the groups split the cells' surfaces between them. */
    method Generate(size: real) returns (outcome: Outcome)
      requires Valid()
      modifies this`meshSize, this`nodes, this`linex, this`liney, this`curves, this`surfaces
      modifies this`nMaterial, this`materialNames, this`physicalGroups
      modifies geo`points, geo`lines, geo`curveLoops, geo`planeSurfaces, geo`physicalGroups
      ensures meshSize == Some(size)
      ensures |geo.points| == |old(geo.points)| + (ny + 1) * (nx + 1)
      ensures geo.points[..|old(geo.points)|] == old(geo.points)
      ensures Placed(geo.points, |old(geo.points)|, Table(nodes), x, y, size, nx, ny)
      ensures |geo.lines| == |old(geo.lines)| + (ny + 1) * nx + (nx + 1) * ny
      ensures geo.lines[..|old(geo.lines)|] == old(geo.lines)
      ensures Wired(geo.lines, Table(nodes), Table(linex), Table(liney), nx, ny)
      ensures FreshLines(|old(geo.lines)|, Table(linex), Table(liney), nx, ny)
      ensures Celled(old(geo.curveLoops), geo.curveLoops, old(geo.planeSurfaces), geo.planeSurfaces,
                     Table(linex), Table(liney), Table(curves), Table(surfaces), nx, ny)
      ensures forall k :: |old(geo.curveLoops)| <= k < |geo.curveLoops| ==> ClosedLoop(geo.lines, geo.curveLoops[k])
      ensures materials.None? ==>
        && outcome == Fail(RuntimeError("Materials not found."))
        && nMaterial == old(nMaterial) && materialNames == old(materialNames)
        && physicalGroups == old(physicalGroups) && geo.physicalGroups == old(geo.physicalGroups)
      ensures materials.Some? ==>
        && nMaterial == |materials.value|
        && materialNames == (if old(materialNames).None? then Some(DefaultNames(|materials.value|)) else old(materialNames))
        && Grouped(outcome, materials.value, materialNames.value, CellOrder(nx, ny), Table(surfaces), ny,
                   physicalGroups, old(geo.physicalGroups), geo.physicalGroups)
      ensures outcome == Pass ==>
        && TotalEntities(physicalGroups) == nx * ny
        && (forall g1, g2, e ::
              (0 <= g1 < |physicalGroups| && 0 <= g2 < |physicalGroups| &&
               e in physicalGroups[g1].entities && e in physicalGroups[g2].entities) ==> g1 == g2)
    {
      meshSize := Some(size);
      BuildMesh();
      ghost var tn, tx, ty, tc := Table(nodes), Table(linex), Table(liney), Table(curves);
      ghost var points, lines, loops, planes := geo.points, geo.lines, geo.curveLoops, geo.planeSurfaces;
      outcome := GroupCells();
      assert geo.points == points && geo.lines == lines && geo.curveLoops == loops && geo.planeSurfaces == planes;
      assert Table(nodes) == tn && Table(linex) == tx && Table(liney) == ty && Table(curves) == tc;
    }

    /** The material half of `generate`: `generate_physical_groups` on the cells just
        built, with what it means for the groups when it passes. */
    method GroupCells() returns (outcome: Outcome)
      requires surfaces.Length0 == nx && surfaces.Length1 == ny
      requires InTable(Table(surfaces), CellOrder(nx, ny)) && DistinctSurfaces(Table(surfaces), CellOrder(nx, ny))
      modifies this`nMaterial, this`materialNames, this`physicalGroups, geo`physicalGroups
      ensures materials.None? ==>
        && outcome == Fail(RuntimeError("Materials not found."))
        && nMaterial == old(nMaterial) && materialNames == old(materialNames)
        && physicalGroups == old(physicalGroups) && geo.physicalGroups == old(geo.physicalGroups)
      ensures materials.Some? ==>
        && nMaterial == |materials.value|
        && materialNames == (if old(materialNames).None? then Some(DefaultNames(|materials.value|)) else old(materialNames))
        && Grouped(outcome, materials.value, materialNames.value, CellOrder(nx, ny), Table(surfaces), ny,
                   physicalGroups, old(geo.physicalGroups), geo.physicalGroups)
      ensures outcome == Pass ==>
        && TotalEntities(physicalGroups) == nx * ny
        && (forall g1, g2, e ::
              (0 <= g1 < |physicalGroups| && 0 <= g2 < |physicalGroups| &&
               e in physicalGroups[g1].entities && e in physicalGroups[g2].entities) ==> g1 == g2)
    {
      ghost var ts := Table(surfaces);
      outcome := GeneratePhysicalGroups();
      assert Table(surfaces) == ts;
      if outcome == Pass {
        PassedGroups(materialNames.value, CellOrder(nx, ny), ts, materials.value, ny, physicalGroups);
      }
    }

    /** The geometry of `generate`: points, lines and cell surfaces. */
    method BuildMesh()
      requires Valid() && meshSize.Some?
      modifies this`nodes, this`linex, this`liney, this`curves, this`surfaces
      modifies geo`points, geo`lines, geo`curveLoops, geo`planeSurfaces
      ensures |geo.points| == |old(geo.points)| + (ny + 1) * (nx + 1)
      ensures geo.points[..|old(geo.points)|] == old(geo.points)
      ensures Placed(geo.points, |old(geo.points)|, Table(nodes), x, y, meshSize.value, nx, ny)
      ensures |geo.lines| == |old(geo.lines)| + (ny + 1) * nx + (nx + 1) * ny
      ensures geo.lines[..|old(geo.lines)|] == old(geo.lines)
      ensures Wired(geo.lines, Table(nodes), Table(linex), Table(liney), nx, ny)
      ensures FreshLines(|old(geo.lines)|, Table(linex), Table(liney), nx, ny)
      ensures surfaces.Length0 == nx && surfaces.Length1 == ny
      ensures Celled(old(geo.curveLoops), geo.curveLoops, old(geo.planeSurfaces), geo.planeSurfaces,
                     Table(linex), Table(liney), Table(curves), Table(surfaces), nx, ny)
      ensures |geo.curveLoops| == |old(geo.curveLoops)| + nx * ny
      ensures forall k :: |old(geo.curveLoops)| <= k < |geo.curveLoops| ==> ClosedLoop(geo.lines, geo.curveLoops[k])
      ensures InTable(Table(surfaces), CellOrder(nx, ny)) && DistinctSurfaces(Table(surfaces), CellOrder(nx, ny))
    {
      BuildEdges();
      ghost var tn, tx, ty := Table(nodes), Table(linex), Table(liney);
      ghost var points := geo.points;
      BuildCells();
      assert Table(nodes) == tn && Table(linex) == tx && Table(liney) == ty && geo.points == points;
    }

    /** The points and lines of `generate`, and how the lines join the points. */
    method BuildEdges()
      requires Valid() && meshSize.Some?
      modifies this`nodes, this`linex, this`liney, geo`points, geo`lines
      ensures |geo.points| == |old(geo.points)| + (ny + 1) * (nx + 1)
      ensures geo.points[..|old(geo.points)|] == old(geo.points)
      ensures Placed(geo.points, |old(geo.points)|, Table(nodes), x, y, meshSize.value, nx, ny)
      ensures linex.Length0 == nx && linex.Length1 == ny + 1 && liney.Length0 == nx + 1 && liney.Length1 == ny
      ensures |geo.lines| == |old(geo.lines)| + (ny + 1) * nx + (nx + 1) * ny
      ensures geo.lines[..|old(geo.lines)|] == old(geo.lines)
      ensures Wired(geo.lines, Table(nodes), Table(linex), Table(liney), nx, ny)
      ensures FreshLines(|old(geo.lines)|, Table(linex), Table(liney), nx, ny)
    {
      BuildNodes();
      ghost var tn, points := Table(nodes), geo.points;
      BuildLines();
      assert Table(nodes) == tn && geo.points == points;
    }

    /** The lines of `generate`: each joins the nodes it should, under a new tag used once. */
    method BuildLines()
      requires nodes.Length0 == nx + 1 && nodes.Length1 == ny + 1
      modifies this`linex, this`liney, geo`lines
      ensures linex.Length0 == nx && linex.Length1 == ny + 1 && liney.Length0 == nx + 1 && liney.Length1 == ny
      ensures |geo.lines| == |old(geo.lines)| + (ny + 1) * nx + (nx + 1) * ny
      ensures geo.lines[..|old(geo.lines)|] == old(geo.lines)
      ensures XEdges(geo.lines, Table(nodes), Table(linex), nx, ny) && YEdges(geo.lines, Table(nodes), Table(liney), nx, ny)
      ensures FreshLines(|old(geo.lines)|, Table(linex), Table(liney), nx, ny)
      ensures DistinctTags(Table(linex), nx, ny + 1) && DistinctTags(Table(liney), nx + 1, ny)
      ensures NoSharedTag(Table(linex), nx, ny + 1, Table(liney), nx + 1, ny)
    {
      GenerateLines();
      EdgesOfTables(geo.lines, |old(geo.lines)|, nodes, linex, liney, nx, ny);
      LineTagsOfTables(linex, liney, nx, ny, |old(geo.lines)|);
    }

    /** The points of `generate`: one per node, where the node is, under distinct tags. */
    method BuildNodes()
      requires Valid() && meshSize.Some?
      modifies this`nodes, geo`points
      ensures nodes.Length0 == nx + 1 && nodes.Length1 == ny + 1
      ensures |geo.points| == |old(geo.points)| + (ny + 1) * (nx + 1)
      ensures geo.points[..|old(geo.points)|] == old(geo.points)
      ensures Placed(geo.points, |old(geo.points)|, Table(nodes), x, y, meshSize.value, nx, ny)
      ensures DistinctTags(Table(nodes), nx + 1, ny + 1)
    {
      GenerateNodes();
      PlacedOfTable(geo.points, |old(geo.points)|, nodes, x, y, meshSize.value, nx, ny);
      NodeTagsOfTable(nodes, nx, ny, |old(geo.points)|);
    }

    /** The cells of `generate`: one closed curve loop and one plane surface each. */
    method BuildCells()
      requires linex.Length0 == nx && linex.Length1 == ny + 1 && liney.Length0 == nx + 1 && liney.Length1 == ny
      requires Wired(geo.lines, Table(nodes), Table(linex), Table(liney), nx, ny)
      modifies this`curves, this`surfaces, geo`curveLoops, geo`planeSurfaces
      ensures surfaces.Length0 == nx && surfaces.Length1 == ny
      ensures Celled(old(geo.curveLoops), geo.curveLoops, old(geo.planeSurfaces), geo.planeSurfaces,
                     Table(linex), Table(liney), Table(curves), Table(surfaces), nx, ny)
      ensures |geo.curveLoops| == |old(geo.curveLoops)| + nx * ny
      ensures forall k :: |old(geo.curveLoops)| <= k < |geo.curveLoops| ==> ClosedLoop(geo.lines, geo.curveLoops[k])
      ensures InTable(Table(surfaces), CellOrder(nx, ny)) && DistinctSurfaces(Table(surfaces), CellOrder(nx, ny))
    {
      ghost var tn, tx, ty := Table(nodes), Table(linex), Table(liney);
      GenerateSurfaces();
      assert Table(nodes) == tn && Table(linex) == tx && Table(liney) == ty;
      CellLoopsClosed(geo.lines, tn, tx, ty, nx, ny);
      ConsecutiveTagsDistinct(Table(surfaces), nx, ny, |old(geo.planeSurfaces)|);
    }

    /** One point per grid node, row by row from the bottom; node `(ix, iy)` gets the
        next point tag and sits at `(x[ix], y[iy], 0)`. */
    method GenerateNodes()
      requires Valid() && meshSize.Some?
      modifies this`nodes, geo`points
      ensures fresh(nodes) && nodes.Length0 == nx + 1 && nodes.Length1 == ny + 1
      ensures |geo.points| == |old(geo.points)| + (ny + 1) * (nx + 1)
      ensures geo.points[..|old(geo.points)|] == old(geo.points)
      ensures forall ix, iy :: 0 <= ix <= nx && 0 <= iy <= ny ==>
        && nodes[ix, iy] == |old(geo.points)| + RowStart(nx + 1, iy) + ix + 1
        && |old(geo.points)| < nodes[ix, iy] <= |geo.points|
        && geo.points[nodes[ix, iy] - 1] == Point(x[ix], y[iy], 0.0, meshSize.value)
    {
      var base, size := |geo.points|, meshSize.value;
      var t := new int[nx + 1, ny + 1];
      var iy := 0;
      while iy < ny + 1
        invariant 0 <= iy <= ny + 1
        invariant |geo.points| == base + RowStart(nx + 1, iy)
        invariant geo.points[..base] == old(geo.points)
        invariant forall jx, jy :: 0 <= jx <= nx && 0 <= jy < iy ==>
          && t[jx, jy] == base + RowStart(nx + 1, jy) + jx + 1
          && base < t[jx, jy] <= |geo.points|
          && geo.points[t[jx, jy] - 1] == Point(x[jx], y[jy], 0.0, size)
      {
        AddNodeRow(t, iy, size);
        iy := iy + 1;
      }
      RowStartIs(nx + 1, ny + 1);
      nodes := t;
    }

    /** The inner loop of `GenerateNodes`: the points of row `iy`, left to right. */
    method AddNodeRow(t: array2<int>, iy: nat, size: real)
      requires Valid() && t.Length0 == nx + 1 && t.Length1 == ny + 1 && iy <= ny
      modifies t, geo`points
      ensures |geo.points| == |old(geo.points)| + nx + 1
      ensures geo.points[..|old(geo.points)|] == old(geo.points)
      ensures forall jx :: 0 <= jx <= nx ==>
        t[jx, iy] == |old(geo.points)| + jx + 1 && geo.points[t[jx, iy] - 1] == Point(x[jx], y[iy], 0.0, size)
      ensures forall jx, jy :: 0 <= jx <= nx && 0 <= jy <= ny && jy != iy ==> t[jx, jy] == old(t[jx, jy])
    {
      var ix := 0;
      while ix < nx + 1
        invariant 0 <= ix <= nx + 1
        invariant |geo.points| == |old(geo.points)| + ix
        invariant geo.points[..|old(geo.points)|] == old(geo.points)
        invariant forall jx :: 0 <= jx < ix ==>
          t[jx, iy] == |old(geo.points)| + jx + 1 && geo.points[t[jx, iy] - 1] == Point(x[jx], y[iy], 0.0, size)
        invariant forall jx, jy :: 0 <= jx <= nx && 0 <= jy <= ny && jy != iy ==> t[jx, jy] == old(t[jx, jy])
      {
        var tag := geo.AddPoint(x[ix], y[iy], 0.0, size);
        t[ix, iy] := tag;
        ix := ix + 1;
      }
    }

    /** The lines along x, row by row from the bottom, then the lines along y,
        column by column from the left; each joins two neighbouring nodes and gets
        the next line tag, so no two lines share a tag. */
    method GenerateLines()
      requires nodes.Length0 == nx + 1 && nodes.Length1 == ny + 1
      modifies this`linex, this`liney, geo`lines
      ensures fresh(linex) && linex.Length0 == nx && linex.Length1 == ny + 1
      ensures fresh(liney) && liney.Length0 == nx + 1 && liney.Length1 == ny
      ensures |geo.lines| == |old(geo.lines)| + (ny + 1) * nx + (nx + 1) * ny
      ensures geo.lines[..|old(geo.lines)|] == old(geo.lines)
      ensures forall ix, iy :: 0 <= ix < nx && 0 <= iy <= ny ==>
        && linex[ix, iy] == |old(geo.lines)| + RowStart(nx, iy) + ix + 1
        && |old(geo.lines)| < linex[ix, iy] <= |geo.lines|
        && geo.lines[linex[ix, iy] - 1] == Line(nodes[ix, iy], nodes[ix + 1, iy])
      ensures forall ix, iy :: 0 <= ix <= nx && 0 <= iy < ny ==>
        && liney[ix, iy] == |old(geo.lines)| + (ny + 1) * nx + RowStart(ny, ix) + iy + 1
        && |old(geo.lines)| < liney[ix, iy] <= |geo.lines|
        && geo.lines[liney[ix, iy] - 1] == Line(nodes[ix, iy], nodes[ix, iy + 1])
    {
      RowStartIs(nx, ny + 1);
      RowStartIs(ny, nx + 1);
      var tx := AddLinesX();
      var mid := |geo.lines|;
      var ty := AddLinesY();
      assert forall k :: 0 <= k < mid ==> geo.lines[k] == geo.lines[..mid][k];
      linex, liney := tx, ty;
    }

    /** The first double loop of `GenerateLines`: the lines along x, row by row. */
    method AddLinesX() returns (tx: array2<int>)
      requires nodes.Length0 == nx + 1 && nodes.Length1 == ny + 1
      modifies geo`lines
      ensures fresh(tx) && tx.Length0 == nx && tx.Length1 == ny + 1
      ensures |geo.lines| == |old(geo.lines)| + RowStart(nx, ny + 1)
      ensures geo.lines[..|old(geo.lines)|] == old(geo.lines)
      ensures forall ix, iy :: 0 <= ix < nx && 0 <= iy <= ny ==>
        && tx[ix, iy] == |old(geo.lines)| + RowStart(nx, iy) + ix + 1
        && |old(geo.lines)| < tx[ix, iy] <= |geo.lines|
        && geo.lines[tx[ix, iy] - 1] == Line(nodes[ix, iy], nodes[ix + 1, iy])
    {
      var base := |geo.lines|;
      tx := new int[nx, ny + 1];
      var iy := 0;
      while iy < ny + 1
        invariant 0 <= iy <= ny + 1
        invariant |geo.lines| == base + RowStart(nx, iy)
        invariant geo.lines[..base] == old(geo.lines)
        invariant forall jx, jy :: 0 <= jx < nx && 0 <= jy < iy ==>
          && tx[jx, jy] == base + RowStart(nx, jy) + jx + 1
          && base < tx[jx, jy] <= |geo.lines|
          && geo.lines[tx[jx, jy] - 1] == Line(nodes[jx, jy], nodes[jx + 1, jy])
      {
        AddLineRow(tx, iy);
        iy := iy + 1;
      }
    }

    /** The second double loop of `GenerateLines`: the lines along y, column by column. */
    method AddLinesY() returns (ty: array2<int>)
      requires nodes.Length0 == nx + 1 && nodes.Length1 == ny + 1
      modifies geo`lines
      ensures fresh(ty) && ty.Length0 == nx + 1 && ty.Length1 == ny
      ensures |geo.lines| == |old(geo.lines)| + RowStart(ny, nx + 1)
      ensures geo.lines[..|old(geo.lines)|] == old(geo.lines)
      ensures forall ix, iy :: 0 <= ix <= nx && 0 <= iy < ny ==>
        && ty[ix, iy] == |old(geo.lines)| + RowStart(ny, ix) + iy + 1
        && |old(geo.lines)| < ty[ix, iy] <= |geo.lines|
        && geo.lines[ty[ix, iy] - 1] == Line(nodes[ix, iy], nodes[ix, iy + 1])
    {
      var base := |geo.lines|;
      ty := new int[nx + 1, ny];
      var ix := 0;
      while ix < nx + 1
        invariant 0 <= ix <= nx + 1
        invariant |geo.lines| == base + RowStart(ny, ix)
        invariant geo.lines[..base] == old(geo.lines)
        invariant forall jx, jy :: 0 <= jx < ix && 0 <= jy < ny ==>
          && ty[jx, jy] == base + RowStart(ny, jx) + jy + 1
          && base < ty[jx, jy] <= |geo.lines|
          && geo.lines[ty[jx, jy] - 1] == Line(nodes[jx, jy], nodes[jx, jy + 1])
      {
        AddLineColumn(ty, ix);
        ix := ix + 1;
      }
    }

    /** The inner loop over `ix` for the lines along x in row `iy`. */
    method AddLineRow(t: array2<int>, iy: nat)
      requires nodes.Length0 == nx + 1 && nodes.Length1 == ny + 1
      requires t != nodes && t.Length0 == nx && t.Length1 == ny + 1 && iy <= ny
      modifies t, geo`lines
      ensures |geo.lines| == |old(geo.lines)| + nx
      ensures geo.lines[..|old(geo.lines)|] == old(geo.lines)
      ensures forall jx :: 0 <= jx < nx ==>
        t[jx, iy] == |old(geo.lines)| + jx + 1 && geo.lines[t[jx, iy] - 1] == Line(nodes[jx, iy], nodes[jx + 1, iy])
      ensures forall jx, jy :: 0 <= jx < nx && 0 <= jy <= ny && jy != iy ==> t[jx, jy] == old(t[jx, jy])
    {
      var ix := 0;
      while ix < nx
        invariant 0 <= ix <= nx
        invariant |geo.lines| == |old(geo.lines)| + ix
        invariant geo.lines[..|old(geo.lines)|] == old(geo.lines)
        invariant forall jx :: 0 <= jx < ix ==>
          t[jx, iy] == |old(geo.lines)| + jx + 1 && geo.lines[t[jx, iy] - 1] == Line(nodes[jx, iy], nodes[jx + 1, iy])
        invariant forall jx, jy :: 0 <= jx < nx && 0 <= jy <= ny && jy != iy ==> t[jx, jy] == old(t[jx, jy])
      {
        var tag := geo.AddLine(nodes[ix, iy], nodes[ix + 1, iy]);
        t[ix, iy] := tag;
        ix := ix + 1;
      }
    }

    /** The inner loop over `iy` for the lines along y in column `ix`. */
    method AddLineColumn(t: array2<int>, ix: nat)
      requires nodes.Length0 == nx + 1 && nodes.Length1 == ny + 1
      requires t != nodes && t.Length0 == nx + 1 && t.Length1 == ny && ix <= nx
      modifies t, geo`lines
      ensures |geo.lines| == |old(geo.lines)| + ny
      ensures geo.lines[..|old(geo.lines)|] == old(geo.lines)
      ensures forall jy :: 0 <= jy < ny ==>
        t[ix, jy] == |old(geo.lines)| + jy + 1 && geo.lines[t[ix, jy] - 1] == Line(nodes[ix, jy], nodes[ix, jy + 1])
      ensures forall jx, jy :: 0 <= jx <= nx && 0 <= jy < ny && jx != ix ==> t[jx, jy] == old(t[jx, jy])
    {
      var iy := 0;
      while iy < ny
        invariant 0 <= iy <= ny
        invariant |geo.lines| == |old(geo.lines)| + iy
        invariant geo.lines[..|old(geo.lines)|] == old(geo.lines)
        invariant forall jy :: 0 <= jy < iy ==>
          t[ix, jy] == |old(geo.lines)| + jy + 1 && geo.lines[t[ix, jy] - 1] == Line(nodes[ix, jy], nodes[ix, jy + 1])
        invariant forall jx, jy :: 0 <= jx <= nx && 0 <= jy < ny && jx != ix ==> t[jx, jy] == old(t[jx, jy])
      {
        var tag := geo.AddLine(nodes[ix, iy], nodes[ix, iy + 1]);
        t[ix, iy] := tag;
        iy := iy + 1;
      }
    }

    /** The signed lines `[+liney[ix + 1, iy], -linex[ix, iy + 1], -liney[ix, iy], +linex[ix, iy]]`
        that bound cell `(ix, iy)`. */
    function LoopOf(ix: nat, iy: nat): (loop: seq<int>)
      reads this`linex, this`liney, linex, liney
      requires linex.Length0 == nx && linex.Length1 == ny + 1
      requires liney.Length0 == nx + 1 && liney.Length1 == ny
      requires ix < nx && iy < ny
      ensures loop == [liney[ix + 1, iy], -linex[ix, iy + 1], -liney[ix, iy], linex[ix, iy]]
    {
      CellLoop(Table(linex), Table(liney), nx, ny, ix, iy)
    }

    /** One curve loop and one plane surface per cell, row by row from the bottom.
        The loop of cell `(ix, iy)` runs its right side up, its top leftwards, its
        left side down and its bottom rightwards; the surface is bounded by that loop
        alone. Loop and surface of the cell visited `k`-th get the `k`-th new tags. */
    method GenerateSurfaces()
      requires linex.Length0 == nx && linex.Length1 == ny + 1
      requires liney.Length0 == nx + 1 && liney.Length1 == ny
      modifies this`curves, this`surfaces, geo`curveLoops, geo`planeSurfaces
      ensures fresh(curves) && curves.Length0 == nx && curves.Length1 == ny
      ensures fresh(surfaces) && surfaces.Length0 == nx && surfaces.Length1 == ny
      ensures geo.curveLoops == old(geo.curveLoops) + CellLoops(Table(linex), Table(liney), nx, ny, CellOrder(nx, ny))
      ensures geo.planeSurfaces == old(geo.planeSurfaces) + Singletons(|old(geo.curveLoops)|, nx * ny)
      ensures forall ix, iy :: 0 <= ix < nx && 0 <= iy < ny ==>
        && curves[ix, iy] == |old(geo.curveLoops)| + RowStart(nx, iy) + ix + 1
        && surfaces[ix, iy] == |old(geo.planeSurfaces)| + RowStart(nx, iy) + ix + 1
    {
      var tc := new int[nx, ny];
      var ts := new int[nx, ny];
      ghost var lx, ly := Table(linex), Table(liney);
      AddCells(tc, ts, lx, ly);
      RowInVisit(nx, ny, ny);
      curves, surfaces := tc, ts;
    }

    /** The double loop of `GenerateSurfaces`, filling the fresh tables `tc` and `ts`. */
    method AddCells(tc: array2<int>, ts: array2<int>, ghost lx: seq<seq<int>>, ghost ly: seq<seq<int>>)
      requires linex.Length0 == nx && linex.Length1 == ny + 1
      requires liney.Length0 == nx + 1 && liney.Length1 == ny
      requires lx == Table(linex) && ly == Table(liney)
      requires tc != ts && tc != linex && tc != liney && ts != linex && ts != liney
      requires tc.Length0 == nx && tc.Length1 == ny && ts.Length0 == nx && ts.Length1 == ny
      modifies tc, ts, geo`curveLoops, geo`planeSurfaces
      ensures geo.curveLoops == old(geo.curveLoops) + CellLoops(lx, ly, nx, ny, CellOrder(nx, ny))
      ensures geo.planeSurfaces == old(geo.planeSurfaces) + Singletons(|old(geo.curveLoops)|, RowStart(nx, ny))
      ensures forall ix, iy :: 0 <= ix < nx && 0 <= iy < ny ==>
        && tc[ix, iy] == |old(geo.curveLoops)| + RowStart(nx, iy) + ix + 1
        && ts[ix, iy] == |old(geo.planeSurfaces)| + RowStart(nx, iy) + ix + 1
    {
      var cbase, sbase := |geo.curveLoops|, |geo.planeSurfaces|;
      var iy := 0;
      while iy < ny
        invariant 0 <= iy <= ny
        invariant geo.curveLoops == old(geo.curveLoops) + CellLoops(lx, ly, nx, ny, CellOrder(nx, iy))
        invariant geo.planeSurfaces == old(geo.planeSurfaces) + Singletons(cbase, RowStart(nx, iy))
        invariant |geo.curveLoops| == cbase + RowStart(nx, iy) && |geo.planeSurfaces| == sbase + RowStart(nx, iy)
        invariant forall jx, jy :: 0 <= jx < nx && 0 <= jy < iy ==>
          tc[jx, jy] == cbase + RowStart(nx, jy) + jx + 1 && ts[jx, jy] == sbase + RowStart(nx, jy) + jx + 1
      {
        AddNextRow(tc, ts, iy, lx, ly, old(geo.curveLoops), old(geo.planeSurfaces));
        iy := iy + 1;
      }
    }

    /** One pass of the outer loop of `GenerateSurfaces`: the loops and surfaces of
        rows below `iy` are in place after `cl0` and `pl0`; afterwards those of row `iy` are too. */
    method AddNextRow(tc: array2<int>, ts: array2<int>, iy: nat, ghost lx: seq<seq<int>>, ghost ly: seq<seq<int>>,
                      ghost cl0: seq<seq<int>>, ghost pl0: seq<seq<int>>)
      requires linex.Length0 == nx && linex.Length1 == ny + 1
      requires liney.Length0 == nx + 1 && liney.Length1 == ny
      requires lx == Table(linex) && ly == Table(liney)
      requires tc != ts && tc != linex && tc != liney && ts != linex && ts != liney
      requires tc.Length0 == nx && tc.Length1 == ny && ts.Length0 == nx && ts.Length1 == ny && iy < ny
      requires geo.curveLoops == cl0 + CellLoops(lx, ly, nx, ny, CellOrder(nx, iy))
      requires geo.planeSurfaces == pl0 + Singletons(|cl0|, RowStart(nx, iy))
      requires |geo.curveLoops| == |cl0| + RowStart(nx, iy) && |geo.planeSurfaces| == |pl0| + RowStart(nx, iy)
      modifies tc, ts, geo`curveLoops, geo`planeSurfaces
      ensures geo.curveLoops == cl0 + CellLoops(lx, ly, nx, ny, CellOrder(nx, iy + 1))
      ensures geo.planeSurfaces == pl0 + Singletons(|cl0|, RowStart(nx, iy + 1))
      ensures |geo.curveLoops| == |cl0| + RowStart(nx, iy + 1) && |geo.planeSurfaces| == |pl0| + RowStart(nx, iy + 1)
      ensures forall jx :: 0 <= jx < nx ==>
        tc[jx, iy] == |cl0| + RowStart(nx, iy) + jx + 1 && ts[jx, iy] == |pl0| + RowStart(nx, iy) + jx + 1
      ensures forall jx, jy :: 0 <= jx < nx && 0 <= jy < ny && jy != iy ==>
        tc[jx, jy] == old(tc[jx, jy]) && ts[jx, jy] == old(ts[jx, jy])
    {
      AddCellRow(tc, ts, iy, lx, ly);
      CellLoopsNextRow(lx, ly, nx, ny, iy);
      SingletonsAppend(|cl0|, RowStart(nx, iy), nx);
      AppendAssoc(cl0, CellLoops(lx, ly, nx, ny, CellOrder(nx, iy)), CellLoops(lx, ly, nx, ny, Row(nx, iy)[..nx]));
      AppendAssoc(pl0, Singletons(|cl0|, RowStart(nx, iy)), Singletons(|cl0| + RowStart(nx, iy), nx));
    }

    /** The inner loop of `GenerateSurfaces`: the cells of row `iy`, left to right. */
    method AddCellRow(tc: array2<int>, ts: array2<int>, iy: nat, ghost lx: seq<seq<int>>, ghost ly: seq<seq<int>>)
      requires linex.Length0 == nx && linex.Length1 == ny + 1
      requires liney.Length0 == nx + 1 && liney.Length1 == ny
      requires lx == Table(linex) && ly == Table(liney)
      requires tc != ts && tc != linex && tc != liney && ts != linex && ts != liney
      requires tc.Length0 == nx && tc.Length1 == ny && ts.Length0 == nx && ts.Length1 == ny && iy < ny
      modifies tc, ts, geo`curveLoops, geo`planeSurfaces
      ensures geo.curveLoops == old(geo.curveLoops) + CellLoops(lx, ly, nx, ny, Row(nx, iy)[..nx])
      ensures geo.planeSurfaces == old(geo.planeSurfaces) + Singletons(|old(geo.curveLoops)|, nx)
      ensures forall jx :: 0 <= jx < nx ==>
        tc[jx, iy] == |old(geo.curveLoops)| + jx + 1 && ts[jx, iy] == |old(geo.planeSurfaces)| + jx + 1
      ensures forall jx, jy :: 0 <= jx < nx && 0 <= jy < ny && jy != iy ==>
        tc[jx, jy] == old(tc[jx, jy]) && ts[jx, jy] == old(ts[jx, jy])
    {
      var ix := 0;
      while ix < nx
        invariant 0 <= ix <= nx
        invariant geo.curveLoops == old(geo.curveLoops) + CellLoops(lx, ly, nx, ny, Row(nx, iy)[..ix])
        invariant geo.planeSurfaces == old(geo.planeSurfaces) + Singletons(|old(geo.curveLoops)|, ix)
        invariant forall jx :: 0 <= jx < ix ==>
          tc[jx, iy] == |old(geo.curveLoops)| + jx + 1 && ts[jx, iy] == |old(geo.planeSurfaces)| + jx + 1
        invariant forall jx, jy :: 0 <= jx < nx && 0 <= jy < ny && jy != iy ==>
          tc[jx, jy] == old(tc[jx, jy]) && ts[jx, jy] == old(ts[jx, jy])
      {
        AddCell(tc, ts, ix, iy, lx, ly);
        CellLoopsRowStep(lx, ly, nx, ny, ix, iy);
        SingletonsAppend(|old(geo.curveLoops)|, ix, 1);
        ix := ix + 1;
      }
    }

    /** The body of the inner loop of `GenerateSurfaces`: the loop and surface of cell `(ix, iy)`. */
    method AddCell(tc: array2<int>, ts: array2<int>, ix: nat, iy: nat, ghost lx: seq<seq<int>>, ghost ly: seq<seq<int>>)
      requires linex.Length0 == nx && linex.Length1 == ny + 1
      requires liney.Length0 == nx + 1 && liney.Length1 == ny
      requires lx == Table(linex) && ly == Table(liney)
      requires tc != ts && tc.Length0 == nx && tc.Length1 == ny && ts.Length0 == nx && ts.Length1 == ny
      requires ix < nx && iy < ny
      modifies tc, ts, geo`curveLoops, geo`planeSurfaces
      ensures geo.curveLoops == old(geo.curveLoops) + [CellLoop(lx, ly, nx, ny, ix, iy)]
      ensures geo.planeSurfaces == old(geo.planeSurfaces) + [[|geo.curveLoops|]]
      ensures tc[ix, iy] == |geo.curveLoops| && ts[ix, iy] == |geo.planeSurfaces|
      ensures forall jx, jy :: 0 <= jx < nx && 0 <= jy < ny && (jx, jy) != (ix, iy) ==>
        tc[jx, jy] == old(tc[jx, jy]) && ts[jx, jy] == old(ts[jx, jy])
    {
      var curve := geo.AddCurveLoop(LoopOf(ix, iy));
      tc[ix, iy] := curve;
      var surface := geo.AddPlaneSurface([curve]);
      ts[ix, iy] := surface;
    }

    /** Sorts every cell's surface into the physical group of its material, then
        registers the groups with gmsh as surface groups 1, 2, ... under their names.
        Without a material matrix it raises RuntimeError and changes nothing; without
        names the groups are named "0", "1", ..., one per matrix row. The matrix row of
        cell row `iy` is `ny - 1 - iy`, and a material id `m` selects group `m - 1` as a
        Python list subscript; the first cell whose material cannot be looked up raises
        IndexError, leaving the groups as the cells before it made them and registering
        nothing. */
    method GeneratePhysicalGroups() returns (outcome: Outcome)
      requires surfaces.Length0 == nx && surfaces.Length1 == ny
      modifies this`nMaterial, this`materialNames, this`physicalGroups, geo`physicalGroups
      ensures materials.None? ==>
        && outcome == Fail(RuntimeError("Materials not found."))
        && nMaterial == old(nMaterial) && materialNames == old(materialNames)
        && physicalGroups == old(physicalGroups) && geo.physicalGroups == old(geo.physicalGroups)
      ensures materials.Some? ==>
        && nMaterial == |materials.value|
        && materialNames == (if old(materialNames).None? then Some(DefaultNames(|materials.value|)) else old(materialNames))
      ensures materials.Some? ==>
        Grouped(outcome, materials.value, materialNames.value, CellOrder(nx, ny), Table(surfaces), ny,
                   physicalGroups, old(geo.physicalGroups), geo.physicalGroups)
    {
      if materials.None? {
        return Fail(RuntimeError("Materials not found."));
      }
      var m := materials.value;
      nMaterial := |m|;
      if materialNames.None? {
        materialNames := Some(DefaultNames(nMaterial));
      }
      var groups0 := EmptyGroups(materialNames.value);
      physicalGroups := groups0;
      outcome := AssignAndRegister();
    }

    /** The body of `GeneratePhysicalGroups` once the material matrix, the names and the
        empty groups are in place: assigns every cell, then registers the groups. */
    method AssignAndRegister() returns (outcome: Outcome)
      requires surfaces.Length0 == nx && surfaces.Length1 == ny
      requires materials.Some? && materialNames.Some? && physicalGroups == EmptyGroups(materialNames.value)
      modifies this`physicalGroups, geo`physicalGroups
      ensures Grouped(outcome, materials.value, materialNames.value, CellOrder(nx, ny), Table(surfaces), ny,
                      physicalGroups, old(geo.physicalGroups), geo.physicalGroups)
    {
      var m, groups0 := materials.value, physicalGroups;
      ghost var s, cells := Table(surfaces), CellOrder(nx, ny);
      assert InTable(s, cells);
      ghost var stop;
      var ok;
      CellOrderRows(nx, ny);
      ok, stop := AssignAll(m, groups0, s, cells);
      AssignedClassifies(groups0, cells, nx * ny, s, m, ny);
      FullPrefix(cells);
      if !ok {
        AssignedStop(groups0, cells, stop, s, m, ny);
        return Fail(IndexError);
      }
      Register();
      return Pass;
    }

    /** The cell loops of `GeneratePhysicalGroups`, rows bottom to top, visiting the
        cells in the order `cells`: true when every cell's material resolves; false at
        the first one that does not (IndexError), the ghost `stop` then being that
        cell's step. */
    method AssignAll(m: seq<seq<int>>, groups0: seq<Group>, ghost s: seq<seq<int>>, ghost cells: seq<Cell>)
      returns (ok: bool, ghost stop: nat)
      requires surfaces.Length0 == nx && surfaces.Length1 == ny && s == Table(surfaces)
      requires InTable(s, cells) && |cells| == nx * ny
      requires forall iy :: 0 <= iy < ny ==> RowStart(nx, iy) + nx <= |cells|
      requires forall iy, ix :: 0 <= iy < ny && 0 <= ix < nx ==> cells[RowStart(nx, iy) + ix] == Cell(ix, iy)
      requires physicalGroups == groups0
      modifies this`physicalGroups
      ensures ok ==> Assigned(groups0, cells, |cells|, s, m, ny) == Some(physicalGroups)
      ensures !ok ==>
        && stop < |cells|
        && Assigned(groups0, cells, stop, s, m, ny) == Some(physicalGroups)
        && Assigned(groups0, cells, stop + 1, s, m, ny).None?
    {
      stop := 0;
      var iy := 0;
      var k := 0;
      while iy < ny
        invariant 0 <= iy <= ny && k == RowStart(nx, iy) && k <= |cells|
        invariant Assigned(groups0, cells, k, s, m, ny) == Some(physicalGroups)
      {
        ok, stop := AssignRow(iy, k, m, groups0, s, cells);
        if !ok {
          return;
        }
        iy, k := iy + 1, k + nx;
      }
      RowInVisit(nx, ny, iy);
      ok := true;
    }

    /** Registers group `g` as physical surface group `g + 1` under its name, in order. */
    method Register()
      modifies geo`physicalGroups
      ensures geo.physicalGroups == old(geo.physicalGroups) + Registrations(physicalGroups)
    {
      var gid := 0;
      while gid < |physicalGroups|
        invariant 0 <= gid <= |physicalGroups|
        invariant geo.physicalGroups == old(geo.physicalGroups) + Registrations(physicalGroups)[..gid]
      {
        geo.AddPhysicalGroup(2, physicalGroups[gid].entities, gid + 1, physicalGroups[gid].materialName);
        assert Registrations(physicalGroups)[..gid + 1] == Registrations(physicalGroups)[..gid] + [Registrations(physicalGroups)[gid]];
        gid := gid + 1;
      }
      assert Registrations(physicalGroups)[..gid] == Registrations(physicalGroups);
    }

    /** The inner loop of `GeneratePhysicalGroups` for cell row `iy`, whose cells are
        visited at steps `k0` to `k0 + nx - 1` of `cells`: false when a cell's material
        cannot be looked up (IndexError), the ghost `stop` then being that cell's step. */
    method AssignRow(iy: nat, k0: nat, m: seq<seq<int>>, groups0: seq<Group>, ghost s: seq<seq<int>>, ghost cells: seq<Cell>)
      returns (ok: bool, ghost stop: nat)
      requires surfaces.Length0 == nx && surfaces.Length1 == ny && s == Table(surfaces)
      requires InTable(s, cells)
      requires iy < ny && k0 + nx <= |cells|
      requires forall ix :: 0 <= ix < nx ==> cells[k0 + ix] == Cell(ix, iy)
      requires Assigned(groups0, cells, k0, s, m, ny) == Some(physicalGroups)
      modifies this`physicalGroups
      ensures ok ==> Assigned(groups0, cells, k0 + nx, s, m, ny) == Some(physicalGroups)
      ensures !ok ==>
        && stop < |cells|
        && Assigned(groups0, cells, stop, s, m, ny) == Some(physicalGroups)
        && Assigned(groups0, cells, stop + 1, s, m, ny).None?
    {
      var ix := 0;
      while ix < nx
        invariant 0 <= ix <= nx
        invariant Assigned(groups0, cells, k0 + ix, s, m, ny) == Some(physicalGroups)
      {
        ok := AssignCell(ix, iy, k0 + ix, m, groups0, s, cells);
        if !ok {
          return false, k0 + ix;
        }
        ix := ix + 1;
      }
      return true, k0 + nx;
    }

    /** One step of the inner loop: cell `(ix, iy)`, visited at step `k`, joins the group
        its material id selects; false, changing nothing, when that id cannot be looked
        up (IndexError). */
    method AssignCell(ix: nat, iy: nat, ghost k: nat, m: seq<seq<int>>, groups0: seq<Group>, ghost s: seq<seq<int>>, ghost cells: seq<Cell>)
      returns (ok: bool)
      requires surfaces.Length0 == nx && surfaces.Length1 == ny && s == Table(surfaces)
      requires InTable(s, cells)
      requires ix < nx && iy < ny && k < |cells| && cells[k] == Cell(ix, iy)
      requires Assigned(groups0, cells, k, s, m, ny) == Some(physicalGroups)
      modifies this`physicalGroups
      ensures ok ==> Assigned(groups0, cells, k + 1, s, m, ny) == Some(physicalGroups)
      ensures !ok ==> physicalGroups == old(physicalGroups) && Assigned(groups0, cells, k + 1, s, m, ny).None?
    {
      AssignedNext(groups0, cells, k, s, m, ny);
      var row := ny - 1 - iy;
      if row >= |m| || ix >= |m[row]| {
        return false;
      }
      var g := Index(m[row][ix] - 1, |physicalGroups|);
      assert CellGroup(m, |groups0|, ny, Cell(ix, iy)) == g;
      if g.None? {
        return false;
      }
      physicalGroups := Append(physicalGroups, g.value, surfaces[ix, iy]);
      return true;
    }

    /** `selected[dim]` narrowed to the indices that satisfy `c` against `bound`, in place
        when a selection is given, on a fresh `[range(nx), range(ny)]` otherwise. */
    method Narrow(c: Comparison, dim: int, bound: int, selected: array?<seq<int>>) returns (r: Result<array<seq<int>>>)
      modifies selected
      ensures Narrows(if selected == null then Everything(nx, ny) else old(selected[..]), c, dim, bound, r)
      ensures selected != null ==> (r.Ok? ==> r.value == selected) && (r.Err? ==> selected[..] == old(selected[..]))
      ensures selected == null && r.Ok? ==> fresh(r.value)
    {
      var sel := selected;
      if sel == null {
        sel := new seq<int>[] [Range(nx), Range(ny)];
      }
      var d := Index(dim, sel.Length);
      if d.None? {
        return Err(IndexError);
      }
      sel[d.value] := Keep(sel[d.value], c, bound);
      return Ok(sel);
    }

    /** `greater`: keeps the indices of axis `dim` that are at least `bound`. */
    method Greater(dim: int, bound: int, selected: array?<seq<int>>) returns (r: Result<array<seq<int>>>)
      modifies selected
      ensures Narrows(if selected == null then Everything(nx, ny) else old(selected[..]), AtLeast, dim, bound, r)
      ensures selected != null ==> (r.Ok? ==> r.value == selected) && (r.Err? ==> selected[..] == old(selected[..]))
      ensures selected == null && r.Ok? ==> fresh(r.value)
    {
      r := Narrow(AtLeast, dim, bound, selected);
    }

    /** `less`: keeps the indices of axis `dim` that are at most `bound`. */
    method Less(dim: int, bound: int, selected: array?<seq<int>>) returns (r: Result<array<seq<int>>>)
      modifies selected
      ensures Narrows(if selected == null then Everything(nx, ny) else old(selected[..]), AtMost, dim, bound, r)
      ensures selected != null ==> (r.Ok? ==> r.value == selected) && (r.Err? ==> selected[..] == old(selected[..]))
      ensures selected == null && r.Ok? ==> fresh(r.value)
    {
      r := Narrow(AtMost, dim, bound, selected);
    }

    /** `equal`: keeps the indices of axis `dim` that equal `bound`. */
    method Equal(dim: int, bound: int, selected: array?<seq<int>>) returns (r: Result<array<seq<int>>>)
      modifies selected
      ensures Narrows(if selected == null then Everything(nx, ny) else old(selected[..]), EqualTo, dim, bound, r)
      ensures selected != null ==> (r.Ok? ==> r.value == selected) && (r.Err? ==> selected[..] == old(selected[..]))
      ensures selected == null && r.Ok? ==> fresh(r.value)
    {
      r := Narrow(EqualTo, dim, bound, selected);
    }

    /** `join`: a fresh list holding, axis by axis over the shorter of the two, the
        sorted duplicate-free union of both selections. */
    static method Join(a: array<seq<int>>, b: array<seq<int>>) returns (c: array<seq<int>>)
      ensures fresh(c) && c[..] == JoinAxes(a[..], b[..])
    {
      ghost var joined := JoinAxes(a[..], b[..]);
      var n := if a.Length < b.Length then a.Length else b.Length;
      c := new seq<int>[n];
      var i := 0;
      while i < n
        invariant 0 <= i <= n && |joined| == n
        invariant c[..i] == joined[..i]
      {
        c[i] := Union(a[i], b[i]);
        assert joined[i] == Union(a[..][i], b[..][i]);
        assert c[..i + 1] == joined[..i + 1];
        i := i + 1;
      }
      assert c[..] == c[..n];
    }

    /** `resolve`: the surface tags `surfaces[coord[0][k], coord[1][k]]`, the two index
        lists broadcast against each other. */
    function Resolve(coord: array<seq<int>>): (r: Result<seq<int>>)
      reads this, surfaces, coord
      requires surfaces.Length0 == nx && surfaces.Length1 == ny
      ensures r.Err? ==> r.error == IndexError
      ensures r.Ok? ==>
        && coord.Length >= 2 && Pairs(coord[0], coord[1]).Some?
        && var ps := Pairs(coord[0], coord[1]).value;
        && |r.value| == |ps|
        && forall k :: 0 <= k < |ps| ==>
             && Index(ps[k].0, surfaces.Length0).Some? && Index(ps[k].1, surfaces.Length1).Some?
             && r.value[k] == surfaces[Index(ps[k].0, surfaces.Length0).value, Index(ps[k].1, surfaces.Length1).value]
      ensures r.Err? ==>
        || coord.Length < 2
        || Pairs(coord[0], coord[1]).None?
        || exists k :: 0 <= k < |Pairs(coord[0], coord[1]).value| &&
             (Index(Pairs(coord[0], coord[1]).value[k].0, surfaces.Length0).None? ||
              Index(Pairs(coord[0], coord[1]).value[k].1, surfaces.Length1).None?)
    {
      Resolved(Table(surfaces), surfaces.Length1, coord[..])
    }
  }

  /** `r` is what narrowing the selection `before` yields: IndexError exactly when `dim`
      does not subscript it, otherwise a list holding the narrowed axes. */
  predicate Narrows(before: seq<seq<int>>, c: Comparison, dim: int, bound: int, r: Result<array<seq<int>>>)
    reads if r.Ok? then {r.value} else {}
  {
    match Narrowed(before, c, dim, bound)
    case Err(e) => r == Err(e)
    case Ok(after) => r.Ok? && r.value[..] == after
  }

  /** `[[base + 1], [base + 2], ..., [base + n]]`: the loop lists of `n` plane
      surfaces each bounded by one fresh curve loop. */
  function Singletons(base: int, n: nat): (r: seq<seq<int>>)
    ensures |r| == n
    ensures forall k :: 0 <= k < n ==> r[k] == [base + k + 1]
  {
    seq(n, k => [base + k + 1])
  }

  lemma SingletonsAppend(base: int, n: nat, m: nat)
    ensures Singletons(base, n + m) == Singletons(base, n) + Singletons(base + n, m)
  {
    assert Singletons(base, n + m) == Singletons(base, n) + Singletons(base + n, m);
  }
}
