/** The crown of SCA_TreeGen/Assets/GenerateShape.cs: DrawSphere's UV-sphere
    vertex and index lists, the attraction points taken from its vertices,
    and the stub root branch Awake adds. Vertex positions and normals are
    floating-point trigonometry and are modelled by role only. */
module Sphere {
  import opened Vectors
  import opened Loops
  import opened IndexBuffers

  /** A crown vertex by role: a pole, or slice j of latitude ring i. */
  datatype SphereVertex = NorthPole | RingPoint(stack: nat, slice: nat) | SouthPole

  /** The stub Branch class of this project: two points and a direction. */
  datatype StubBranch = StubBranch(startPos: Vec3, endPos: Vec3, direction: Vec3)

  /** What Awake leaves behind. */
  datatype Crown = Crown(
    vertices: seq<SphereVertex>,
    triangles: seq<int>,
    attractionPoints: seq<SphereVertex>,
    branches: seq<StubBranch>)

  /** The number of latitude rings, `for (i = 1; i <= stackCount - 1; i++)`. */
  function RingCount(stacks: nat): nat
  {
    if stacks >= 1 then stacks - 1 else 0
  }

  /** Latitude ring k + 1: slices + 1 vertices, the seam vertex repeated. */
  function RingPoints(s: nat): nat -> seq<SphereVertex>
  {
    (k: nat) => seq(s + 1, (j: int) requires 0 <= j => RingPoint(k + 1, j))
  }

  /** DrawSphere's vertex list: north pole, the rings top to bottom, south pole. */
  function SphereVertices(stacks: nat, s: nat): seq<SphereVertex>
  {
    [NorthPole] + Loop(RingCount(stacks), RingPoints(s)) + [SouthPole]
  }

  /** One quad of the middle loop, between ring a (upper) and ring c (lower). */
  function SphereQuad(a: int, c: int): nat -> seq<int>
  {
    j => [a + j, a + j + 1, c + j, c + j, a + j + 1, c + j + 1]
  }

  /** Middle pass i: the quads joining ring i + 1 to ring i + 2. */
  function StackBand(s: nat): nat -> seq<int>
  {
    (i: nat) => Loop(s, SphereQuad(1 + i * (s + 1), 1 + (i + 1) * (s + 1)))
  }

  /** The middle loop, `for (i = 0; i < stackCount - 2; i++)`. */
  function Middle(stacks: nat, s: nat): seq<int>
  {
    Loop(if stacks >= 2 then stacks - 2 else 0, StackBand(s))
  }

  /** Bottom-fan triangle i: the south pole, then slices i and i + 1 of the
      ring that starts slices + 1 vertices before it. */
  function BottomTriangle(south: int, s: nat, i: nat): seq<int>
  {
    [south, south - (s + 1) + i, south - (s + 1) + i + 1]
  }

  function BottomBody(south: int, s: nat): nat -> seq<int>
  {
    (i: nat) => BottomTriangle(south, s, i)
  }

  /** The bottom fan: the south pole with the last ring, whose first vertex
      lies slices + 1 before it. */
  function BottomFan(south: int, s: nat): seq<int>
  {
    Loop(s, BottomBody(south, s))
  }

  /** DrawSphere's index list: the top fan round the north pole over ring 1
      (triangles (0, i + 1, i) for i = 1 .. slices), the middle bands, then
      the bottom fan. */
  function SphereTriangles(stacks: nat, s: nat): seq<int>
  {
    Fan(0, 1, s) + Middle(stacks, s) + BottomFan(|SphereVertices(stacks, s)| - 1, s)
  }

  /** Awake: the sphere, the attraction points placed at its vertices, and
      the root stub from the origin one branch length straight up. */
  function Awake(stacks: nat, s: nat, branchLength: real): (c: Crown)
    ensures c.attractionPoints == c.vertices
    ensures |c.branches| == 1 && c.branches[0].startPos == Zero && c.branches[0].direction == Up
    ensures c.branches[0].endPos == Add(c.branches[0].startPos, Scale(c.branches[0].direction, branchLength))
  {
    var vertices := SphereVertices(stacks, s);
    Crown(vertices, SphereTriangles(stacks, s), vertices, [StubBranch(Zero, Vec3(0.0, branchLength, 0.0), Up)])
  }

  /** Two poles and slices + 1 vertices per latitude ring. */
  lemma SphereVertexCount(stacks: nat, s: nat)
    ensures |SphereVertices(stacks, s)| == 2 + RingCount(stacks) * (s + 1)
  {
    LoopLength(RingCount(stacks), RingPoints(s), s + 1);
  }

  /** The north pole comes first and the south pole last. */
  lemma SpherePoles(stacks: nat, s: nat)
    ensures var v := SphereVertices(stacks, s);
      |v| >= 2 && v[0] == NorthPole && v[|v| - 1] == SouthPole
  {
  }

  /** The vertex layout: slice j of latitude ring i sits at
      1 + (slices + 1)(i - 1) + j, strictly between the poles. */
  lemma SphereVertexAt(stacks: nat, s: nat, i: nat, j: nat)
    requires 1 <= i < stacks && j <= s
    ensures var v := SphereVertices(stacks, s);
      && 0 < 1 + (s + 1) * (i - 1) + j < |v| - 1
      && v[1 + (s + 1) * (i - 1) + j] == RingPoint(i, j)
  {
    var n := RingCount(stacks);
    var rings := Loop(n, RingPoints(s));
    var at := (s + 1) * (i - 1) + j;
    LoopAt(n, RingPoints(s), s + 1, i - 1, j);
    LoopLength(n, RingPoints(s), s + 1);
    assert rings[at] == RingPoint(i, j);
    var v := SphereVertices(stacks, s);
    assert v == [NorthPole] + rings + [SouthPole];
    assert |v| == |rings| + 2;
    assert v[1 + at] == rings[at];
  }

  lemma BandCount(stacks: nat, s: nat)
    ensures |Middle(stacks, s)| == 6 * s * (if stacks >= 2 then stacks - 2 else 0)
  {
    var m := if stacks >= 2 then stacks - 2 else 0;
    forall i | 0 <= i < m
      ensures |StackBand(s)(i)| == 6 * s
    {
      LoopLength(s, SphereQuad(1 + i * (s + 1), 1 + (i + 1) * (s + 1)), 6);
    }
    LoopLength(m, StackBand(s), 6 * s);
  }

  /** 3 * slices indices per fan and 6 * slices per middle band: 6 * slices *
      (stacks - 1) in all once there are two stacks. */
  lemma SphereIndexCount(stacks: nat, s: nat)
    requires stacks >= 2
    ensures |SphereTriangles(stacks, s)| == 6 * s * (stacks - 1)
  {
    FanShape(0, 1, s);
    BandCount(stacks, s);
    LoopLength(s, BottomBody(|SphereVertices(stacks, s)| - 1, s), 3);
    PlusOne(6 * s, stacks - 2);
  }

  /** Middle band i lies within rings i + 1 and i + 2. */
  lemma StackBandInRange(stacks: nat, s: nat, i: nat, hi: int)
    requires stacks >= 2 && i < stacks - 2 && hi == 2 + (stacks - 1) * (s + 1)
    ensures AllIn(StackBand(s)(i), 0, hi)
  {
    var a := 1 + i * (s + 1);
    var c := 1 + (i + 1) * (s + 1);
    assert c == a + s + 1;
    assert c + s + 1 == 1 + (i + 2) * (s + 1);
    assert (i + 2) * (s + 1) <= (stacks - 1) * (s + 1) by {
      MulMono(i + 2, stacks - 1, s + 1);
    }
    forall j | 0 <= j < s
      ensures AllIn(SphereQuad(a, c)(j), 0, hi)
    {
    }
    LoopAllIn(s, SphereQuad(a, c), 0, hi);
  }

  lemma PlusOne(a: int, k: nat)
    ensures a * (k + 1) == a * k + a
  {
  }

  /** With at least two stacks every index names a vertex. */
  lemma SphereInRange(stacks: nat, s: nat)
    requires stacks >= 2
    ensures AllIn(SphereTriangles(stacks, s), 0, |SphereVertices(stacks, s)|)
  {
    var n := |SphereVertices(stacks, s)|;
    SphereVertexCount(stacks, s);
    assert n == 2 + (stacks - 1) * (s + 1);
    assert (stacks - 1) * (s + 1) >= s + 1 by {
      MulMono(1, stacks - 1, s + 1);
    }
    FanInRange(0, 1, s, 0, n);
    forall i | 0 <= i < stacks - 2
      ensures AllIn(StackBand(s)(i), 0, n)
    {
      StackBandInRange(stacks, s, i, n);
    }
    LoopAllIn(stacks - 2, StackBand(s), 0, n);
    var south := n - 1;
    forall i | 0 <= i < s
      ensures AllIn(BottomBody(south, s)(i), 0, n)
    {
    }
    LoopAllIn(s, BottomBody(south, s), 0, n);
    AllInConcat(Fan(0, 1, s), Middle(stacks, s), 0, n);
    AllInConcat(Fan(0, 1, s) + Middle(stacks, s), BottomFan(n - 1, s), 0, n);
  }

  /** A sphere of zero or one stacks (the inspector range allows both) has
      only its two poles, yet its first top-fan triangle already names vertex 2. */
  lemma FewStacksOutOfRange(stacks: nat, s: nat)
    requires stacks <= 1 && s >= 1
    ensures |SphereVertices(stacks, s)| == 2
    ensures SphereTriangles(stacks, s)[1] == 2
    ensures !AllIn(SphereTriangles(stacks, s), 0, |SphereVertices(stacks, s)|)
  {
    SphereVertexCount(stacks, s);
    FanShape(0, 1, s);
    assert SphereTriangles(stacks, s)[1] == Fan(0, 1, s)[3 * 0 + 1];
  }

  /** The top fan: triangle j joins the north pole to slices j + 1 and j of ring 1. */
  lemma TopFanNamesNorthPole(stacks: nat, s: nat, j: nat)
    requires stacks >= 2 && j < s
    ensures var t := SphereTriangles(stacks, s); var v := SphereVertices(stacks, s);
      && 3 * j + 2 < |t|
      && 0 <= t[3 * j] < |v| && v[t[3 * j]] == NorthPole
      && 0 <= t[3 * j + 1] < |v| && v[t[3 * j + 1]] == RingPoint(1, j + 1)
      && 0 <= t[3 * j + 2] < |v| && v[t[3 * j + 2]] == RingPoint(1, j)
  {
    var top := Fan(0, 1, s);
    var t := SphereTriangles(stacks, s);
    FanShape(0, 1, s);
    assert t == top + (Middle(stacks, s) + BottomFan(|SphereVertices(stacks, s)| - 1, s));
    assert t[3 * j] == top[3 * j] && t[3 * j + 1] == top[3 * j + 1] && t[3 * j + 2] == top[3 * j + 2];
    SpherePoles(stacks, s);
    SphereVertexAt(stacks, s, 1, j);
    SphereVertexAt(stacks, s, 1, j + 1);
  }

  /** Middle band i, quad j: triangles (ring i+1 slice j, ring i+1 slice
      j+1, ring i+2 slice j) and (ring i+2 slice j, ring i+1 slice j+1,
      ring i+2 slice j+1). */
  lemma MiddleQuadJoinsRings(stacks: nat, s: nat, i: nat, j: nat)
    requires stacks >= 2 && i < stacks - 2 && j < s
    ensures var q := StackBand(s)(i); var v := SphereVertices(stacks, s);
      && 6 * j + 5 < |q|
      && (forall k :: 6 * j <= k < 6 * j + 6 ==> 0 <= q[k] < |v|)
      && v[q[6 * j]] == RingPoint(i + 1, j) && v[q[6 * j + 1]] == RingPoint(i + 1, j + 1)
      && v[q[6 * j + 2]] == RingPoint(i + 2, j)
      && q[6 * j + 3] == q[6 * j + 2] && q[6 * j + 4] == q[6 * j + 1]
      && v[q[6 * j + 5]] == RingPoint(i + 2, j + 1)
  {
    var a := 1 + (s + 1) * i;
    var c := 1 + (s + 1) * (i + 1);
    QuadEntries(s, i, j);
    var v := SphereVertices(stacks, s);
    SphereVertexAt(stacks, s, i + 1, j);
    SphereVertexAt(stacks, s, i + 1, j + 1);
    SphereVertexAt(stacks, s, i + 2, j);
    SphereVertexAt(stacks, s, i + 2, j + 1);
    assert v[a + j] == RingPoint(i + 1, j) && v[a + j + 1] == RingPoint(i + 1, j + 1);
    assert v[c + j] == RingPoint(i + 2, j) && v[c + j + 1] == RingPoint(i + 2, j + 1);
  }

  /** Quad j of middle band i names slices j, j + 1 of the rings starting at
      1 + (slices + 1) i and 1 + (slices + 1)(i + 1). */
  lemma QuadEntries(s: nat, i: nat, j: nat)
    requires j < s
    ensures var q := StackBand(s)(i); var a := 1 + (s + 1) * i; var c := 1 + (s + 1) * (i + 1);
      && 6 * j + 5 < |q|
      && q[6 * j] == a + j && q[6 * j + 1] == a + j + 1 && q[6 * j + 2] == c + j
      && q[6 * j + 3] == c + j && q[6 * j + 4] == a + j + 1 && q[6 * j + 5] == c + j + 1
  {
    var a := 1 + i * (s + 1);
    var c := 1 + (i + 1) * (s + 1);
    assert a == 1 + (s + 1) * i && c == 1 + (s + 1) * (i + 1);
    QuadAt(s, a, c, j, 0);
    QuadAt(s, a, c, j, 1);
    QuadAt(s, a, c, j, 2);
    QuadAt(s, a, c, j, 3);
    QuadAt(s, a, c, j, 4);
    QuadAt(s, a, c, j, 5);
  }

  lemma QuadAt(s: nat, a: nat, c: nat, j: nat, k: nat)
    requires j < s && k < 6
    ensures var q := Loop(s, SphereQuad(a, c)); 6 * j + k < |q| && q[6 * j + k] == SphereQuad(a, c)(j)[k]
  {
    LoopLength(s, SphereQuad(a, c), 6);
    LoopAt(s, SphereQuad(a, c), 6, j, k);
  }

  /** The bottom fan: triangle j joins the south pole to slices j and j + 1
      of the last ring. */
  lemma BottomFanNamesSouthPole(stacks: nat, s: nat, j: nat, pos: nat)
    requires stacks >= 2 && j < s && pos == 3 * s + 6 * s * (stacks - 2) + 3 * j
    ensures var t := SphereTriangles(stacks, s); var v := SphereVertices(stacks, s);
      && pos + 2 < |t|
      && 0 <= t[pos] < |v| && v[t[pos]] == SouthPole
      && 0 <= t[pos + 1] < |v| && v[t[pos + 1]] == RingPoint(stacks - 1, j)
      && 0 <= t[pos + 2] < |v| && v[t[pos + 2]] == RingPoint(stacks - 1, j + 1)
  {
    var v := SphereVertices(stacks, s);
    var south := |v| - 1;
    var t := SphereTriangles(stacks, s);
    BottomEntries(stacks, s, j, pos);
    LastRingStart(stacks, s);
    SpherePoles(stacks, s);
    SphereVertexAt(stacks, s, stacks - 1, j);
    SphereVertexAt(stacks, s, stacks - 1, j + 1);
  }

  /** Bottom-fan triangle j sits 3j into the bottom fan, which follows the
      top fan and the middle bands. */
  lemma BottomEntries(stacks: nat, s: nat, j: nat, pos: nat)
    requires stacks >= 2 && j < s && pos == 3 * s + 6 * s * (stacks - 2) + 3 * j
    ensures var t := SphereTriangles(stacks, s); var south := |SphereVertices(stacks, s)| - 1;
      && pos + 2 < |t|
      && t[pos] == south && t[pos + 1] == south - (s + 1) + j && t[pos + 2] == south - (s + 1) + j + 1
  {
    BottomAt(stacks, s, j, 0, pos);
    BottomAt(stacks, s, j, 1, pos + 1);
    BottomAt(stacks, s, j, 2, pos + 2);
  }

  lemma BottomAt(stacks: nat, s: nat, j: nat, k: nat, at: nat)
    requires stacks >= 2 && j < s && k < 3 && at == 3 * s + 6 * s * (stacks - 2) + 3 * j + k
    ensures var t := SphereTriangles(stacks, s); var south := |SphereVertices(stacks, s)| - 1;
      at < |t| && t[at] == BottomTriangle(south, s, j)[k]
  {
    var south := |SphereVertices(stacks, s)| - 1;
    var front := Fan(0, 1, s) + Middle(stacks, s);
    var bottom := BottomFan(south, s);
    FanShape(0, 1, s);
    BandCount(stacks, s);
    LoopAt(s, BottomBody(south, s), 3, j, k);
    assert SphereTriangles(stacks, s) == front + bottom;
  }

  /** The last ring, ring stacks - 1, starts slices + 1 before the south pole. */
  lemma LastRingStart(stacks: nat, s: nat)
    requires stacks >= 2
    ensures |SphereVertices(stacks, s)| - 1 - (s + 1) == 1 + (s + 1) * (stacks - 2)
  {
    SphereVertexCount(stacks, s);
    PlusOne(s + 1, stacks - 2);
  }
}
