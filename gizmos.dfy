/** The immediate-mode line queue of the gizmo renderer
    (src/renderer/gizmos.rs): lines are pushed as vertex pairs and the
    queue is emptied once a frame when it is uploaded. */
module Gizmos {
  import opened Common
  import opened Colors
  import Rects

  datatype Vertex = Vertex(pos: Vec3, color: Color)

  /** The vertex pair of a line from `a` to `b`. */
  function LineVertices(a: Vec3, b: Vec3, color: Color): seq<Vertex>
  {
    [Vertex(a, color), Vertex(b, color)]
  }

  /** The vertices of a sequence of lines, two per line, in order. */
  function LinesVertices(lines: seq<(Vec3, Vec3)>, color: Color): (vs: seq<Vertex>)
    ensures |vs| == 2 * |lines|
    ensures forall i :: 0 <= i < |lines| ==>
              vs[2 * i] == Vertex(lines[i].0, color) && vs[2 * i + 1] == Vertex(lines[i].1, color)
  {
    if lines == [] then []
    else LinesVertices(lines[..|lines| - 1], color) + LineVertices(lines[|lines| - 1].0, lines[|lines| - 1].1, color)
  }

  /** Every vertex of the lines has the one color. */
  lemma LinesVerticesColor(lines: seq<(Vec3, Vec3)>, color: Color)
    ensures forall j :: 0 <= j < |LinesVertices(lines, color)| ==> LinesVertices(lines, color)[j].color == color
  {
    var vs := LinesVertices(lines, color);
    forall j | 0 <= j < |vs| ensures vs[j].color == color {
      var h := j / 2;
      if j == 2 * h {
        assert vs[2 * h] == Vertex(lines[h].0, color);
      } else {
        assert vs[2 * h + 1] == Vertex(lines[h].1, color);
      }
    }
  }

  /** The eight corners of the cube of side `2 l` around `p`, numbered as in
      `draw_cube`: 1-4 the bottom face (y - l), 5-8 the top face. */
  function Corner(p: Vec3, l: real, i: nat): Vec3
    requires 1 <= i <= 8
  {
    var sx := if i in {1, 4, 5, 8} then -l else l;
    var sy := if i <= 4 then -l else l;
    var sz := if i in {1, 2, 5, 6} then -l else l;
    p.Add(Vec3(sx, sy, sz))
  }

  /** The twelve edges of `draw_cube`, as pairs of corner numbers. */
  const CUBE_EDGES: seq<(nat, nat)> :=
    [(1, 2), (2, 3), (3, 4), (4, 1), (5, 6), (6, 7), (7, 8), (8, 5), (1, 5), (2, 6), (3, 7), (4, 8)]

  function CubeLines(p: Vec3, l: real): (lines: seq<(Vec3, Vec3)>)
    ensures |lines| == 12
  {
    seq(12, k requires 0 <= k < 12 => (Corner(p, l, CUBE_EDGES[k].0), Corner(p, l, CUBE_EDGES[k].1)))
  }

  /** The two corners differ in exactly one coordinate, by `2 l`. */
  predicate IsCubeEdge(a: Vec3, b: Vec3, l: real)
  {
    var dx := b.x - a.x;
    var dy := b.y - a.y;
    var dz := b.z - a.z;
    || ((dx == 2.0 * l || dx == -2.0 * l) && dy == 0.0 && dz == 0.0)
    || (dx == 0.0 && (dy == 2.0 * l || dy == -2.0 * l) && dz == 0.0)
    || (dx == 0.0 && dy == 0.0 && (dz == 2.0 * l || dz == -2.0 * l))
  }

  /** Every line `draw_cube` draws (with `l = side_len / 2`) joins two
      corners of the cube of side `2 l` that differ in exactly one
      coordinate, by `2 l`: the twelve lines are the cube's edges. */
  lemma CubeLinesAreEdges(p: Vec3, l: real)
    ensures forall k :: 0 <= k < 12 ==> IsCubeEdge(CubeLines(p, l)[k].0, CubeLines(p, l)[k].1, l)
  {
    forall k | 0 <= k < 12
      ensures IsCubeEdge(CubeLines(p, l)[k].0, CubeLines(p, l)[k].1, l)
    {
      CubeLineIsEdge(p, l, k);
    }
  }

  lemma CubeLineIsEdge(p: Vec3, l: real, k: nat)
    requires k < 12
    ensures IsCubeEdge(CubeLines(p, l)[k].0, CubeLines(p, l)[k].1, l)
  {
    var (i, j) := CUBE_EDGES[k];
    assert CubeLines(p, l)[k] == (Corner(p, l, i), Corner(p, l, j));
  }

  /** The four corners of an `Aabb` at z = 0, in the order `draw_aabb`
      visits them: min, (max.x, min.y), max, (min.x, max.y). */
  function AabbLoop(b: Rects.Aabb): seq<Vec3>
  {
    [Vec3(b.min.x, b.min.y, 0.0), Vec3(b.max.x, b.min.y, 0.0),
     Vec3(b.max.x, b.max.y, 0.0), Vec3(b.min.x, b.max.y, 0.0)]
  }

  const UNIT_X: Vec3 := Vec3(1.0, 0.0, 0.0)
  const UNIT_Y: Vec3 := Vec3(0.0, 1.0, 0.0)
  const UNIT_Z: Vec3 := Vec3(0.0, 0.0, 1.0)

  /** `GizmosVertexQueue`: the vertices queued for this frame. */
  class GizmosVertexQueue {
    var vertices: seq<Vertex>

    /** `GizmosVertexQueue::new`. */
    constructor ()
      ensures vertices == []
    {
      vertices := [];
    }

    /** `draw_line`: appends the two end points with the given color. */
    method DrawLine(from: Vec3, to: Vec3, color: Color)
      modifies this
      ensures vertices == old(vertices) + [Vertex(from, color), Vertex(to, color)]
    {
      vertices := vertices + [Vertex(from, color)];
      vertices := vertices + [Vertex(to, color)];
    }

    /** `draw_xyz`: the three unit axes from the origin, X red, Y green,
        Z blue. */
    method DrawXyz()
      modifies this
      ensures vertices == old(vertices) + LineVertices(ZERO3, UNIT_X, RED)
                                        + LineVertices(ZERO3, UNIT_Y, GREEN)
                                        + LineVertices(ZERO3, UNIT_Z, BLUE)
    {
      vertices := vertices + [Vertex(ZERO3, RED)];
      vertices := vertices + [Vertex(UNIT_X, RED)];
      vertices := vertices + [Vertex(ZERO3, GREEN)];
      vertices := vertices + [Vertex(UNIT_Y, GREEN)];
      vertices := vertices + [Vertex(ZERO3, BLUE)];
      vertices := vertices + [Vertex(UNIT_Z, BLUE)];
    }

    /** `draw_cube`: the twelve edges of the cube, 24 vertices of one color. */
    method DrawCube(position: Vec3, sideLen: real, color: Color)
      modifies this
      ensures vertices == old(vertices) + LinesVertices(CubeLines(position, sideLen / 2.0), color)
      ensures |vertices| == |old(vertices)| + 24
      ensures forall i :: |old(vertices)| <= i < |vertices| ==> vertices[i].color == color
    {
      var l := sideLen / 2.0;
      var lines := CubeLines(position, l);
      ghost var start := vertices;
      for k := 0 to |lines|
        invariant vertices == start + LinesVertices(lines[..k], color)
      {
        assert lines[..k + 1][..k] == lines[..k];
        vertices := vertices + [Vertex(lines[k].0, color)];
        vertices := vertices + [Vertex(lines[k].1, color)];
      }
      assert lines[..|lines|] == lines;
      LinesVerticesColor(lines, color);
    }

    /** `draw_aabb`: the closed loop through the four corners at z = 0. */
    method DrawAabb(b: Rects.Aabb, color: Color)
      modifies this
      ensures vertices == old(vertices) + LineVertices(AabbLoop(b)[0], AabbLoop(b)[1], color)
                                        + LineVertices(AabbLoop(b)[1], AabbLoop(b)[2], color)
                                        + LineVertices(AabbLoop(b)[2], AabbLoop(b)[3], color)
                                        + LineVertices(AabbLoop(b)[3], AabbLoop(b)[0], color)
    {
      var c := AabbLoop(b);
      DrawLine(c[0], c[1], color);
      DrawLine(c[1], c[2], color);
      DrawLine(c[2], c[3], color);
      DrawLine(c[3], c[0], color);
    }

    /** `Gizmos::prepare`: hands the queued vertices to the vertex buffer
        (returned here) and empties the queue. */
    method Prepare() returns (uploaded: seq<Vertex>)
      modifies this
      ensures uploaded == old(vertices) && vertices == []
    {
      uploaded := vertices;
      vertices := [];
    }
  }
}
