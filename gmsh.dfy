/** The part of the gmsh geometry kernel (`gmsh.model.geo`) the mesh builder
    talks to, reduced to what the builder depends on: every `add...` call
    hands out a fresh tag and the kernel remembers what was registered under
    it. Tags of each kind start at 1 and are handed out in creation order. */
module Gmsh {

  /** A point as passed to `addPoint(x, y, z, meshSize)`. */
  datatype Point = Point(x: real, y: real, z: real, meshSize: real)

  /** A line as passed to `addLine(start, end)`: it runs from point `start` to point `end`. */
  datatype Line = Line(start: int, end: int)

  /** A call `addPhysicalGroup(dim, tags, tag, name=name)`. */
  datatype PhysicalGroup = PhysicalGroup(dim: int, tags: seq<int>, tag: int, name: string)

  /** One kernel session. Entity `t` of a kind is the record at position `t - 1`. */
  class Geo {
    var points: seq<Point>
    var lines: seq<Line>
    var curveLoops: seq<seq<int>>
    var planeSurfaces: seq<seq<int>>
    var physicalGroups: seq<PhysicalGroup>

    constructor ()
      ensures points == [] && lines == [] && curveLoops == []
      ensures planeSurfaces == [] && physicalGroups == []
    {
      points, lines, curveLoops, planeSurfaces, physicalGroups := [], [], [], [], [];
    }

    method AddPoint(x: real, y: real, z: real, meshSize: real) returns (tag: int)
      modifies this`points
      ensures points == old(points) + [Point(x, y, z, meshSize)]
      ensures tag == |points|
    {
      points := points + [Point(x, y, z, meshSize)];
      tag := |points|;
    }

    method AddLine(start: int, end: int) returns (tag: int)
      modifies this`lines
      ensures lines == old(lines) + [Line(start, end)]
      ensures tag == |lines|
    {
      lines := lines + [Line(start, end)];
      tag := |lines|;
    }

    /** `addCurveLoop(signedLineTags)`: a negative tag means the line is run backwards. */
    method AddCurveLoop(signedLines: seq<int>) returns (tag: int)
      modifies this`curveLoops
      ensures curveLoops == old(curveLoops) + [signedLines]
      ensures tag == |curveLoops|
    {
      curveLoops := curveLoops + [signedLines];
      tag := |curveLoops|;
    }

    method AddPlaneSurface(loops: seq<int>) returns (tag: int)
      modifies this`planeSurfaces
      ensures planeSurfaces == old(planeSurfaces) + [loops]
      ensures tag == |planeSurfaces|
    {
      planeSurfaces := planeSurfaces + [loops];
      tag := |planeSurfaces|;
    }

    method AddPhysicalGroup(dim: int, tags: seq<int>, tag: int, name: string)
      modifies this`physicalGroups
      ensures physicalGroups == old(physicalGroups) + [PhysicalGroup(dim, tags, tag, name)]
    {
      physicalGroups := physicalGroups + [PhysicalGroup(dim, tags, tag, name)];
    }
  }

  /** A signed line tag names a registered line, in either direction. */
  predicate IsLineRef(lines: seq<Line>, s: int)
  {
    0 < s <= |lines| || 0 < -s <= |lines|
  }

  /** The line a signed tag denotes, oriented the way a curve loop runs it:
      a positive tag runs the line from start to end, a negative one from end to start. */
  function Traversed(lines: seq<Line>, s: int): (l: Line)
    requires IsLineRef(lines, s)
    ensures s > 0 ==> l == lines[s - 1]
    ensures s < 0 ==> l.start == lines[-s - 1].end && l.end == lines[-s - 1].start
  {
    if s > 0 then lines[s - 1] else Line(lines[-s - 1].end, lines[-s - 1].start)
  }

  /** A curve loop is closed when each of its signed lines ends where the
      next one starts, the last one ending where the first one starts. */
  predicate ClosedLoop(lines: seq<Line>, loop: seq<int>)
  {
    && |loop| > 0
    && (forall k :: 0 <= k < |loop| ==> IsLineRef(lines, loop[k]))
    && (forall k :: 0 <= k < |loop| ==>
          Traversed(lines, loop[k]).end == Traversed(lines, loop[(k + 1) % |loop|]).start)
  }

  /** The points a curve loop passes through, in the order it visits them. */
  function Corners(lines: seq<Line>, loop: seq<int>): (r: seq<int>)
    requires forall k :: 0 <= k < |loop| ==> IsLineRef(lines, loop[k])
    ensures |r| == |loop|
  {
    seq(|loop|, k requires 0 <= k < |loop| => Traversed(lines, loop[k]).start)
  }
}
