/** The skinner of Assets/CreateGeometry.cs: radius propagation from the
    leaves to the root, then one vertex ring plus centre per branch, a cap fan
    per branch, and a quad band joining each branch's ring to its parent's. */
module Skinning {
  import opened Arena
  import opened Loops
  import opened IndexBuffers

  /** Every parent link names a branch of the list. */
  predicate ParentsInList(bs: seq<Branch>)
  {
    forall i :: 0 <= i < |bs| ==> bs[i].parent < |bs|
  }

  /** b is a with at most the radii changed. */
  predicate SameButRadius(a: seq<Branch>, b: seq<Branch>)
  {
    |a| == |b| && forall i :: 0 <= i < |a| ==> b[i] == a[i].(radius := b[i].radius)
  }

  /** One visit of the SetRadii loop: branch j proposes its radius plus inc
      to its parent, which takes it only when it is larger. */
  function Propose(r: seq<Branch>, j: nat, inc: real): (r': seq<Branch>)
    requires j < |r| && r[j].parent < |r|
    ensures SameButRadius(r, r')
    ensures r'[r[j].parent].radius >= r[j].radius + inc
    ensures r'[r[j].parent].radius >= r[r[j].parent].radius
    ensures r'[r[j].parent].radius == r[r[j].parent].radius || r'[r[j].parent].radius == r[j].radius + inc
    ensures forall k :: 0 <= k < |r| && k != r[j].parent ==> r'[k] == r[k]
  {
    var q := r[j].parent;
    var proposed := r[j].radius + inc;
    if r[q].radius < proposed then r[q := r[q].(radius := proposed)] else r
  }

  /** Every branch from i on that is not the root leaves its parent at least
      inc thicker than itself. */
  predicate Taper(bs: seq<Branch>, r: seq<Branch>, i: nat, inc: real)
    requires ParentsInList(bs) && |r| == |bs|
  {
    forall c :: i <= c < |bs| && 0 < c ==> r[bs[c].parent].radius >= r[c].radius + inc
  }

  /** Branch k's radius is its own, or was proposed by a later child c >= i. */
  predicate Witnessed(bs: seq<Branch>, r: seq<Branch>, i: nat, inc: real, k: nat)
    requires |r| == |bs| && k < |bs|
  {
    r[k].radius == bs[k].radius ||
    exists c :: i <= c < |bs| && k < c && bs[c].parent == k && r[k].radius == r[c].radius + inc
  }

  /** Witnessed for every branch, the root included until it has proposed to itself. */
  predicate AllWitnessed(bs: seq<Branch>, r: seq<Branch>, i: nat, inc: real)
    requires |r| == |bs|
  {
    forall k: nat :: k < |bs| && (0 < k || 0 < i) ==> Witnessed(bs, r, i, inc, k)
  }

  /** The root after it has proposed to itself: raised by inc on top of the
      largest of its own radius and its children's proposals when inc > 0,
      and left alone otherwise. */
  predicate RootFinal(bs: seq<Branch>, r: seq<Branch>, inc: real)
    requires |r| == |bs| && |bs| > 0
  {
    && (inc > 0.0 ==>
          && r[0].radius >= bs[0].radius + inc
          && (forall c :: 0 < c < |bs| && bs[c].parent == 0 ==> r[0].radius >= r[c].radius + inc + inc)
          && (r[0].radius == bs[0].radius + inc ||
              exists c :: 0 < c < |bs| && bs[c].parent == 0 && r[0].radius == r[c].radius + inc + inc))
    && (inc <= 0.0 ==> Witnessed(bs, r, 1, inc, 0))
  }

  /** Branch i - 1's proposal keeps the taper of the branches after it and adds its own. */
  lemma ProposeKeepsTaper(bs: seq<Branch>, r: seq<Branch>, i: nat, inc: real)
    requires ParentsPrecede(bs) && ParentsInList(bs) && SameButRadius(bs, r) && 0 < i <= |bs|
    requires Taper(bs, r, i, inc)
    ensures Taper(bs, Propose(r, i - 1, inc), i - 1, inc)
  {
    var r' := Propose(r, i - 1, inc);
    forall c | i - 1 <= c < |bs| && 0 < c
      ensures r'[bs[c].parent].radius >= r'[c].radius + inc
    {
      if c >= i {
        assert r'[c] == r[c];
      }
    }
  }

  /** After branch i - 1's proposal every radius is still its own or a proposal. */
  lemma ProposeKeepsWitnessed(bs: seq<Branch>, r: seq<Branch>, i: nat, inc: real)
    requires ParentsPrecede(bs) && ParentsInList(bs) && SameButRadius(bs, r) && 0 < i <= |bs|
    requires AllWitnessed(bs, r, i, inc)
    ensures AllWitnessed(bs, Propose(r, i - 1, inc), i - 1, inc)
  {
    var j := i - 1;
    var r' := Propose(r, j, inc);
    var q := bs[j].parent;
    forall k: nat | k < |bs| && (0 < k || 0 < j)
      ensures Witnessed(bs, r', j, inc, k)
    {
      if k == q && r'[q].radius != r[q].radius {
        assert i - 1 > 0;
        assert r'[i - 1] == r[i - 1];
      } else if r[k].radius != bs[k].radius {
        assert Witnessed(bs, r, i, inc, k);
        var c :| i <= c < |bs| && k < c && bs[c].parent == k && r[k].radius == r[c].radius + inc;
        assert c != q;
      }
    }
  }

  lemma RootProposesToItself(bs: seq<Branch>, r: seq<Branch>, inc: real)
    requires ParentsPrecede(bs) && ParentsInList(bs) && SameButRadius(bs, r)
    requires Taper(bs, r, 1, inc) && AllWitnessed(bs, r, 1, inc)
    requires r[0].radius >= bs[0].radius
    ensures RootFinal(bs, Propose(r, 0, inc), inc)
  {
    assert Witnessed(bs, r, 1, inc, 0);
    var r' := Propose(r, 0, inc);
    assert forall c :: 0 < c < |bs| ==> r'[c] == r[c];
  }

  /** r is bs with some radii raised. */
  predicate Thickened(bs: seq<Branch>, r: seq<Branch>)
  {
    SameButRadius(bs, r) && forall k :: 0 <= k < |bs| ==> r[k].radius >= bs[k].radius
  }

  lemma ProposeKeepsThickened(bs: seq<Branch>, r: seq<Branch>, j: nat, inc: real)
    requires ParentsInList(bs) && Thickened(bs, r) && j < |bs|
    ensures r[j].parent < |r| && Thickened(bs, Propose(r, j, inc))
  {
    assert r[j] == bs[j].(radius := r[j].radius);
    var r' := Propose(r, j, inc);
    forall k | 0 <= k < |bs|
      ensures r'[k] == bs[k].(radius := r'[k].radius) && r'[k].radius >= bs[k].radius
    {
      assert r'[k] == r[k].(radius := r'[k].radius);
    }
  }

  /** What holds once the branches from i on have proposed: radii only grew,
      and under ParentsPrecede the taper and witness facts above. */
  predicate Proposed(bs: seq<Branch>, r: seq<Branch>, i: nat, inc: real)
    requires ParentsInList(bs)
  {
    && i <= |bs|
    && Thickened(bs, r)
    && (ParentsPrecede(bs) ==> Taper(bs, r, i, inc) && AllWitnessed(bs, r, i, inc))
    && (ParentsPrecede(bs) && i == 0 ==> RootFinal(bs, r, inc))
  }

  /** One loop visit keeps Proposed, one branch further down. */
  lemma ProposeStep(bs: seq<Branch>, r: seq<Branch>, i: nat, inc: real)
    requires ParentsInList(bs) && 0 < i && Proposed(bs, r, i, inc)
    ensures r[i - 1].parent < |r| && Proposed(bs, Propose(r, i - 1, inc), i - 1, inc)
  {
    ProposeKeepsThickened(bs, r, i - 1, inc);
    if ParentsPrecede(bs) {
      ProposeKeepsTaper(bs, r, i, inc);
      ProposeKeepsWitnessed(bs, r, i, inc);
      if i == 1 {
        RootProposesToItself(bs, r, inc);
      }
    }
  }

  /** SetRadii: visiting branches from last to first, each proposes its own
      radius plus inc to its parent. Radii only grow; when parents precede
      children every non-root branch leaves its parent at least inc thicker,
      and each radius is its own or a child's plus inc. Since the root is its
      own parent, it proposes to itself last and ends up raised by inc once more. */
  method SetRadii(bs: seq<Branch>, inc: real) returns (r: seq<Branch>)
    requires ParentsInList(bs)
    ensures SameButRadius(bs, r)
    ensures forall k :: 0 <= k < |bs| ==> r[k].radius >= bs[k].radius
    ensures ParentsPrecede(bs) ==> Taper(bs, r, 0, inc)
    ensures ParentsPrecede(bs) ==> forall k: nat :: 0 < k < |bs| ==> Witnessed(bs, r, 0, inc, k)
    ensures ParentsPrecede(bs) ==> RootFinal(bs, r, inc)
  {
    r := bs;
    var i: nat := |bs|;
    while i > 0
      invariant Proposed(bs, r, i, inc)
    {
      ProposeStep(bs, r, i, inc);
      r := Propose(r, i - 1, inc);
      i := i - 1;
    }
  }

  /** A vertex of the tree mesh, by role: slice j of branch i's ring of the
      given radius (placed round branch i's end), or branch i's centre, which
      sits at its end. Coordinates are not modelled. */
  datatype RingVertex = Rim(branch: nat, slice: nat, radius: real) | Hub(branch: nat)

  /** The vertex and index buffers, and the branches with startingIndex set. */
  datatype Skin = Skin(branches: seq<Branch>, vertices: seq<RingVertex>, triangles: seq<int>)

  /** Branch i's vertices: s + 1 ring vertices, then its centre. */
  function RingBody(bs: seq<Branch>, s: nat): nat --> seq<RingVertex>
  {
    (i: nat) requires i < |bs| => seq(s + 1, (j: int) requires 0 <= j => Rim(i, j, bs[i].radius)) + [Hub(i)]
  }

  /** The first loop's vertex list. */
  function Rings(bs: seq<Branch>, s: nat): seq<RingVertex>
  {
    Loop(|bs|, RingBody(bs, s))
  }

  /** Branch i's cap fan: centre i*(s+2) + s + 1 over its ring starting at i*(s+2). */
  function CapBody(s: nat): nat -> seq<int>
  {
    i => Fan(i * (s + 2) + s + 1, i * (s + 2), s)
  }

  /** The stitch of branch i + 1: its parent's ring as base, its own as top. */
  function StitchBody(marked: seq<Branch>, s: nat): nat --> seq<int>
  {
    (i: nat) requires i + 1 < |marked| && marked[i + 1].parent < |marked| =>
      Band(marked[marked[i + 1].parent].startingIndex, marked[i + 1].startingIndex, s)
  }

  /** The branches with startingIndex set to the vertex count before their ring. */
  function Marked(bs: seq<Branch>, s: nat): (r: seq<Branch>)
    ensures |r| == |bs|
    ensures forall i :: 0 <= i < |bs| ==> r[i] == bs[i].(startingIndex := i * (s + 2))
  {
    seq(|bs|, i requires 0 <= i < |bs| => bs[i].(startingIndex := VerticesBefore(bs, s, i)))
  }

  /** The vertex count when branch i's ring is about to be added. */
  function VerticesBefore(bs: seq<Branch>, s: nat, i: nat): (c: nat)
    requires i <= |bs|
    ensures c == i * (s + 2)
  {
    RingsLength(bs, s, i);
    |Loop(i, RingBody(bs, s))|
  }

  /** The cap fans of the first loop, n branches of them. */
  function Caps(n: nat, s: nat): seq<int>
  {
    Loop(n, CapBody(s))
  }

  /** The stitches of every non-root branch, in branch order. */
  function Stitches(marked: seq<Branch>, s: nat): seq<int>
    requires ParentsInList(marked)
  {
    Loop(if |marked| == 0 then 0 else |marked| - 1, StitchBody(marked, s))
  }

  /** CalculateMesh: rings and caps per branch in list order, each branch's
      startingIndex being the vertex count before its ring; then the root's
      ring stitched with base 0 and top s + 1; then every other branch stitched
      to its parent's ring. */
  function CalculateMesh(bs: seq<Branch>, s: nat): (m: Skin)
    requires ParentsInList(bs)
    ensures |m.branches| == |bs|
  {
    var marked := Marked(bs, s);
    Skin(marked, Rings(bs, s), Caps(|bs|, s) + Band(0, s + 1, s) + Stitches(marked, s))
  }

  lemma RingsLength(bs: seq<Branch>, s: nat, n: nat)
    requires n <= |bs|
    ensures |Loop(n, RingBody(bs, s))| == n * (s + 2)
  {
    LoopLength(n, RingBody(bs, s), s + 2);
  }

  /** Branch i's startingIndex is i*(s+2); nothing else about it changes. */
  lemma StartingIndices(bs: seq<Branch>, s: nat)
    requires ParentsInList(bs)
    ensures forall i :: 0 <= i < |bs| ==> CalculateMesh(bs, s).branches[i] == bs[i].(startingIndex := i * (s + 2))
  {
    forall i | 0 <= i < |bs|
      ensures CalculateMesh(bs, s).branches[i] == bs[i].(startingIndex := i * (s + 2))
    {
      RingsLength(bs, s, i);
    }
  }

  /** Vertex layout: branch i's ring, of branch i's radius, occupies
      i*(s+2) .. i*(s+2)+s, and its centre comes right after. */
  lemma RingAt(bs: seq<Branch>, s: nat, i: nat, j: nat)
    requires i < |bs| && j <= s + 1
    ensures i * (s + 2) + j < |Rings(bs, s)|
    ensures Rings(bs, s)[i * (s + 2) + j] == if j <= s then Rim(i, j, bs[i].radius) else Hub(i)
  {
    LoopAt(|bs|, RingBody(bs, s), s + 2, i, j);
  }

  /** CalculateMesh lays out n*(s+2) vertices: the rings in branch order. */
  lemma VertexCount(bs: seq<Branch>, s: nat)
    requires ParentsInList(bs)
    ensures CalculateMesh(bs, s).vertices == Rings(bs, s)
    ensures |CalculateMesh(bs, s).vertices| == |bs| * (s + 2)
  {
    RingsLength(bs, s, |bs|);
  }

  /** Branch i's startingIndex is i*(s+2). */
  lemma MarkedAt(bs: seq<Branch>, s: nat, i: nat)
    requires i < |bs|
    ensures Marked(bs, s)[i].startingIndex == i * (s + 2)
    ensures Marked(bs, s)[i].parent == bs[i].parent
  {
  }

  lemma CapsLength(n: nat, s: nat)
    ensures |Caps(n, s)| == 3 * s * n
  {
    forall i | 0 <= i < n
      ensures |CapBody(s)(i)| == 3 * s
    {
      FanShape(i * (s + 2) + s + 1, i * (s + 2), s);
    }
    LoopLength(n, CapBody(s), 3 * s);
  }

  lemma StitchesLength(marked: seq<Branch>, s: nat)
    requires ParentsInList(marked) && |marked| >= 1
    ensures |Stitches(marked, s)| == 6 * s * (|marked| - 1)
  {
    var body := StitchBody(marked, s);
    forall i | 0 <= i < |marked| - 1
      ensures |body(i)| == 6 * s
    {
      BandLength(marked[marked[i + 1].parent].startingIndex, marked[i + 1].startingIndex, s);
    }
    LoopLength(|marked| - 1, body, 6 * s);
  }

  /** Index count: s cap triangles per branch, 2s for the root stitch and 2s
      per non-root branch, 9*s*n indices in all. */
  lemma TriangleCount(bs: seq<Branch>, s: nat)
    requires ParentsInList(bs) && |bs| >= 1
    ensures |CalculateMesh(bs, s).triangles| == 9 * s * |bs|
  {
    var n := |bs|;
    TrianglesAre(bs, s);
    CapsLength(n, s);
    BandLength(0, s + 1, s);
    StitchesLength(Marked(bs, s), s);
    NineSlicesPerBranch(s, n);
  }

  lemma NineSlicesPerBranch(s: nat, n: nat)
    requires n >= 1
    ensures 3 * s * n + 6 * s + 6 * s * (n - 1) == 9 * s * n
  {
    var m := n - 1;
    assert 6 * s * (m + 1) == 6 * s * m + 6 * s;
    assert 3 * s * (m + 1) == 3 * s * m + 3 * s;
    assert 9 * s * (m + 1) == 9 * s * m + 9 * s;
  }

  lemma CapsInRange(n: nat, s: nat)
    ensures AllIn(Caps(n, s), 0, n * (s + 2))
  {
    forall i | 0 <= i < n
      ensures AllIn(CapBody(s)(i), 0, n * (s + 2))
    {
      RingFits(i, n, s);
      FanInRange(i * (s + 2) + s + 1, i * (s + 2), s, 0, n * (s + 2));
    }
    LoopAllIn(n, CapBody(s), 0, n * (s + 2));
  }

  /** Ring q and its centre lie inside the first n rings when q < n. */
  lemma RingFits(q: nat, n: nat, s: nat)
    requires q < n
    ensures q * (s + 2) + s + 1 < n * (s + 2)
  {
    MulMono(q + 1, n, s + 2);
    assert (q + 1) * (s + 2) == q * (s + 2) + s + 2;
  }

  /** Branch i + 1's stitch joins two rings inside the vertex list. */
  lemma StitchInRange(bs: seq<Branch>, s: nat, i: nat)
    requires ParentsInList(bs) && i + 1 < |bs|
    ensures AllIn(StitchBody(Marked(bs, s), s)(i), 0, |bs| * (s + 2))
  {
    var marked := Marked(bs, s);
    var q := bs[i + 1].parent;
    MarkedAt(bs, s, i + 1);
    MarkedAt(bs, s, q);
    RingFits(q, |bs|, s);
    RingFits(i + 1, |bs|, s);
    StitchBodyIs(marked, s, i);
    BandInRange(q * (s + 2), (i + 1) * (s + 2), s, 0, |bs| * (s + 2));
  }

  lemma StitchesInRange(bs: seq<Branch>, s: nat)
    requires ParentsInList(bs)
    ensures AllIn(Stitches(Marked(bs, s), s), 0, |bs| * (s + 2))
  {
    var marked := Marked(bs, s);
    var hi := |bs| * (s + 2);
    var m := if |bs| == 0 then 0 else |bs| - 1;
    forall i | 0 <= i < m
      ensures AllIn(StitchBody(marked, s)(i), 0, hi)
    {
      StitchInRange(bs, s, i);
    }
    LoopAllIn(m, StitchBody(marked, s), 0, hi);
    assert Stitches(marked, s) == Loop(m, StitchBody(marked, s));
  }

  /** With at least two branches every index names a vertex. */
  lemma TrianglesInRange(bs: seq<Branch>, s: nat)
    requires ParentsInList(bs) && |bs| >= 2
    ensures AllIn(CalculateMesh(bs, s).triangles, 0, |CalculateMesh(bs, s).vertices|)
  {
    var n := |bs|;
    VertexCount(bs, s);
    TrianglesAre(bs, s);
    CapsInRange(n, s);
    MulMono(2, n, s + 2);
    BandInRange(0, s + 1, s, 0, n * (s + 2));
    StitchesInRange(bs, s);
    AllInConcat(Caps(n, s), Band(0, s + 1, s), 0, n * (s + 2));
    AllInConcat(Caps(n, s) + Band(0, s + 1, s), Stitches(Marked(bs, s), s), 0, n * (s + 2));
  }

  /** With a single branch and at least one slice, the root stitch's last
      index 2s + 1 lies past the s + 2 vertices. */
  lemma SingleBranchOutOfRange(bs: seq<Branch>, s: nat)
    requires ParentsInList(bs) && |bs| == 1 && s >= 1
    ensures var m := CalculateMesh(bs, s);
      && |m.vertices| == s + 2
      && |m.triangles| == 9 * s
      && m.triangles[9 * s - 1] == 2 * s + 1
      && !AllIn(m.triangles, 0, |m.vertices|)
  {
    var m := CalculateMesh(bs, s);
    VertexCount(bs, s);
    TriangleCount(bs, s);
    CapsLength(1, s);
    BandLast(0, s + 1, s);
    StitchesLength(Marked(bs, s), s);
    TrianglesAre(bs, s);
    assert m.triangles[9 * s - 1] == Band(0, s + 1, s)[6 * s - 1];
  }

  lemma ConcatThird<T>(a: seq<T>, b: seq<T>, c: seq<T>, o: nat)
    requires o < |c|
    ensures |a| + |b| + o < |a + b + c| && (a + b + c)[|a| + |b| + o] == c[o]
  {
  }

  /** Where index o of the stitches sits in the full index list: after the
      caps and the root stitch. */
  lemma StitchOffset(bs: seq<Branch>, s: nat, o: nat, pos: nat)
    requires ParentsInList(bs) && |bs| >= 1 && o < |Stitches(Marked(bs, s), s)|
    requires pos == |Caps(|bs|, s)| + |Band(0, s + 1, s)| + o
    ensures pos < |CalculateMesh(bs, s).triangles|
    ensures CalculateMesh(bs, s).triangles[pos] == Stitches(Marked(bs, s), s)[o]
  {
    TrianglesAre(bs, s);
    ConcatThird(Caps(|bs|, s), Band(0, s + 1, s), Stitches(Marked(bs, s), s), o);
  }

  lemma TrianglesAre(bs: seq<Branch>, s: nat)
    requires ParentsInList(bs)
    ensures CalculateMesh(bs, s).triangles == Caps(|bs|, s) + Band(0, s + 1, s) + Stitches(Marked(bs, s), s)
  {
  }

  lemma StitchBodyLength(marked: seq<Branch>, s: nat, x: nat)
    requires ParentsInList(marked) && x + 1 < |marked|
    ensures |StitchBody(marked, s)(x)| == 6 * s
  {
    BandLength(marked[marked[x + 1].parent].startingIndex, marked[x + 1].startingIndex, s);
  }

  /** Element p of stitch band x sits at position o = 6s*x + p of the stitches. */
  lemma StitchesAt(marked: seq<Branch>, s: nat, x: nat, p: nat, o: nat)
    requires ParentsInList(marked) && x + 1 < |marked| && p < 6 * s
    requires o == 6 * s * x + p
    ensures o < |Stitches(marked, s)| && p < |StitchBody(marked, s)(x)|
    ensures Stitches(marked, s)[o] == StitchBody(marked, s)(x)[p]
  {
    var body := StitchBody(marked, s);
    forall y | 0 <= y < |marked| - 1
      ensures |body(y)| == 6 * s
    {
      StitchBodyLength(marked, s, y);
    }
    LoopAt(|marked| - 1, body, 6 * s, x, p);
  }


  /** Applying the stitch body is taking the band between the two marked rings. */
  lemma StitchBodyIs(marked: seq<Branch>, s: nat, x: nat)
    requires ParentsInList(marked) && x + 1 < |marked|
    ensures StitchBody(marked, s)(x) == Band(marked[marked[x + 1].parent].startingIndex, marked[x + 1].startingIndex, s)
  {
  }


  /** The vertex a stitch corner should name: corner k of slice j of the
      quad between the ring of branch q (below) and the ring of branch i (above). */
  function QuadCorner(bs: seq<Branch>, q: nat, i: nat, j: nat, k: nat): RingVertex
    requires q < |bs| && i < |bs|
  {
    if k == 0 then Rim(q, j, bs[q].radius)
    else if k == 1 || k == 4 then Rim(i, j, bs[i].radius)
    else if k == 2 || k == 3 then Rim(q, j + 1, bs[q].radius)
    else Rim(i, j + 1, bs[i].radius)
  }

  /** Position pos of the index list is entry o of the stitches: after the caps and the root stitch. */
  lemma StitchPosition(bs: seq<Branch>, s: nat, i: nat, j: nat, k: nat, pos: nat, o: nat)
    requires 1 <= i && pos == 3 * s * |bs| + 6 * s + 6 * s * (i - 1) + 6 * j + k
    requires o == 6 * s * (i - 1) + (6 * j + k)
    ensures pos == |Caps(|bs|, s)| + |Band(0, s + 1, s)| + o
  {
    CapsLength(|bs|, s);
    BandLength(0, s + 1, s);
  }

  /** Position pos = 3sn + 6s + 6s(i-1) + 6j + k of the index list holds
      corner k of slice j of the quad between the parent's ring and branch i's. */
  lemma StitchTriangle(bs: seq<Branch>, s: nat, i: nat, j: nat, k: nat, pos: nat)
    requires ParentsInList(bs) && 1 <= i < |bs| && j < s && k < 6
    requires pos == 3 * s * |bs| + 6 * s + 6 * s * (i - 1) + 6 * j + k
    ensures pos < |CalculateMesh(bs, s).triangles|
    ensures CalculateMesh(bs, s).triangles[pos] == Corner(bs[i].parent * (s + 2), i * (s + 2), j, k)
  {
    MulMono(0, 6 * s, i - 1);
    var o: nat := 6 * s * (i - 1) + (6 * j + k);
    StitchCorner(bs, s, i, j, k, o);
    StitchPosition(bs, s, i, j, k, pos, o);
    StitchOffset(bs, s, o, pos);
  }

  /** Index o = 6s(i-1) + 6j + k of the stitches is corner k of quad j
      between the parent's ring and branch i's. */
  lemma StitchCorner(bs: seq<Branch>, s: nat, i: nat, j: nat, k: nat, o: nat)
    requires ParentsInList(bs) && 1 <= i < |bs| && j < s && k < 6
    requires o == 6 * s * (i - 1) + (6 * j + k)
    ensures o < |Stitches(Marked(bs, s), s)|
    ensures Stitches(Marked(bs, s), s)[o] == Corner(bs[i].parent * (s + 2), i * (s + 2), j, k)
  {
    var marked := Marked(bs, s);
    var q := bs[i].parent;
    StitchesAt(marked, s, i - 1, 6 * j + k, o);
    StitchBodyCorner(marked, s, i, j, k);
    MarkedAt(bs, s, i);
    MarkedAt(bs, s, q);
  }

  /** Element 6j + k of the stitch band of branch i is corner k of quad j
      between the marked rings of its parent and of itself. */
  lemma StitchBodyCorner(marked: seq<Branch>, s: nat, i: nat, j: nat, k: nat)
    requires ParentsInList(marked) && 1 <= i < |marked| && j < s && k < 6
    ensures 6 * j + k < |StitchBody(marked, s)(i - 1)|
    ensures StitchBody(marked, s)(i - 1)[6 * j + k]
         == Corner(marked[marked[i].parent].startingIndex, marked[i].startingIndex, j, k)
  {
    StitchBodyIs(marked, s, i - 1);
    BandAt(marked[marked[i].parent].startingIndex, marked[i].startingIndex, s, j, k);
  }

  /** Position pos of the index list holds a valid vertex index, and that vertex is v. */
  predicate Names(m: Skin, pos: nat, v: RingVertex)
  {
    pos < |m.triangles| && 0 <= m.triangles[pos] < |m.vertices| && m.vertices[m.triangles[pos]] == v
  }

  /** Index k of quad j of the band between rings b and t. */
  function Corner(b: int, t: int, j: nat, k: nat): int
    requires k < 6
  {
    QuadBody(b, t)(j)[k]
  }

  /** Corner k of quad j between rings b and t is slice j or j + 1 of one of them. */
  lemma QuadCornerIndex(b: int, t: int, j: nat, k: nat)
    requires k < 6
    ensures Corner(b, t, j, k) ==
      (if k == 0 || k == 2 || k == 3 then b else t) + (if k <= 1 || k == 4 then j else j + 1)
  {
  }

  /** Corners 0, 2 and 3 of a quad lie on the lower (parent's) ring. */
  lemma LowerCorner(bs: seq<Branch>, s: nat, q: nat, i: nat, j: nat, k: nat)
    requires q < |bs| && i < |bs| && j < s && (k == 0 || k == 2 || k == 3)
    ensures var c := Corner(q * (s + 2), i * (s + 2), j, k);
      0 <= c < |Rings(bs, s)| && Rings(bs, s)[c] == QuadCorner(bs, q, i, j, k)
  {
    var slice := if k == 0 then j else j + 1;
    MulMono(0, q, s + 2);
    QuadCornerIndex(q * (s + 2), i * (s + 2), j, k);
    RingAt(bs, s, q, slice);
  }

  /** Corners 1, 4 and 5 of a quad lie on the upper (child's) ring. */
  lemma UpperCorner(bs: seq<Branch>, s: nat, q: nat, i: nat, j: nat, k: nat)
    requires q < |bs| && i < |bs| && j < s && (k == 1 || k == 4 || k == 5)
    ensures var c := Corner(q * (s + 2), i * (s + 2), j, k);
      0 <= c < |Rings(bs, s)| && Rings(bs, s)[c] == QuadCorner(bs, q, i, j, k)
  {
    var slice := if k == 5 then j + 1 else j;
    MulMono(0, i, s + 2);
    QuadCornerIndex(q * (s + 2), i * (s + 2), j, k);
    RingAt(bs, s, i, slice);
  }

  /** Every non-root branch is joined to its parent: the index at position
      pos = 3sn + 6s + 6s(i-1) + 6j + k, corner k of slice j of branch i's
      stitch, names slice j or j + 1 of the parent's ring or of branch i's own. */
  lemma StitchJoinsParentRing(bs: seq<Branch>, s: nat, i: nat, j: nat, k: nat, pos: nat)
    requires ParentsInList(bs) && 1 <= i < |bs| && j < s && k < 6
    requires pos == 3 * s * |bs| + 6 * s + 6 * s * (i - 1) + 6 * j + k
    ensures Names(CalculateMesh(bs, s), pos, QuadCorner(bs, bs[i].parent, i, j, k))
  {
    StitchTriangle(bs, s, i, j, k, pos);
    VertexCount(bs, s);
    if k == 0 || k == 2 || k == 3 {
      LowerCorner(bs, s, bs[i].parent, i, j, k);
    } else {
      UpperCorner(bs, s, bs[i].parent, i, j, k);
    }
  }

  lemma RadiiKeepParents(bs: seq<Branch>, r: seq<Branch>)
    requires ParentsInList(bs) && SameButRadius(bs, r)
    ensures ParentsInList(r)
  {
    forall i | 0 <= i < |r|
      ensures r[i].parent < |r|
    {
      assert r[i] == bs[i].(radius := r[i].radius);
    }
  }

  /** Slice j of the ring at branch i's startingIndex is branch i's rim
      vertex, of branch i's radius. */
  predicate RimCarries(m: Skin, i: nat, j: nat)
    requires i < |m.branches|
  {
    && 0 <= m.branches[i].startingIndex
    && m.branches[i].startingIndex + j < |m.vertices|
    && m.vertices[m.branches[i].startingIndex + j] == Rim(i, j, m.branches[i].radius)
  }

  lemma RimAt(bs: seq<Branch>, s: nat, i: nat, j: nat)
    requires ParentsInList(bs) && i < |bs| && j <= s
    ensures RimCarries(CalculateMesh(bs, s), i, j)
  {
    MarkedAt(bs, s, i);
    MulMono(0, i, s + 2);
    RingAt(bs, s, i, j);
    VertexCount(bs, s);
  }

  /** RimAt for every branch and slice. */
  lemma RimsCarryRadius(bs: seq<Branch>, s: nat)
    requires ParentsInList(bs)
    ensures forall i, j :: 0 <= i < |bs| && 0 <= j <= s ==> RimCarries(CalculateMesh(bs, s), i, j)
  {
    forall i, j | 0 <= i < |bs| && 0 <= j <= s
      ensures RimCarries(CalculateMesh(bs, s), i, j)
    {
      RimAt(bs, s, i, j);
    }
  }

  /** Corner k of stitch quad j of branch i, at its place after the caps,
      the root stitch and the earlier branches' stitches, names a rim vertex
      of the parent's ring or of branch i's own ring. */
  predicate StitchesToParent(m: Skin, s: nat, i: nat, j: nat, k: nat)
    requires 1 <= i < |m.branches|
  {
    var q := m.branches[i].parent;
    && q < |m.branches|
    && Names(m, StitchPos(|m.branches|, s, i, j, k), QuadCorner(m.branches, q, i, j, k))
  }

  /** Where corner k of stitch quad j of branch i sits in an n-branch index list. */
  function StitchPos(n: nat, s: nat, i: nat, j: nat, k: nat): nat
    requires 1 <= i
  {
    var i1: nat := i - 1;
    3 * s * n + 6 * s + 6 * s * i1 + 6 * j + k
  }

  /** Every stitch quad of a non-root branch joins its parent's ring to its own. */
  lemma StitchesReachParents(bs: seq<Branch>, s: nat)
    requires ParentsInList(bs)
    ensures forall i: nat, j: nat, k: nat :: 1 <= i < |bs| && j < s && k < 6 ==>
      StitchesToParent(CalculateMesh(bs, s), s, i, j, k)
  {
    forall i: nat, j: nat, k: nat | 1 <= i < |bs| && j < s && k < 6
      ensures StitchesToParent(CalculateMesh(bs, s), s, i, j, k)
    {
      StitchToParentAt(bs, s, i, j, k);
    }
  }

  lemma StitchToParentAt(bs: seq<Branch>, s: nat, i: nat, j: nat, k: nat)
    requires ParentsInList(bs) && 1 <= i < |bs| && j < s && k < 6
    ensures StitchesToParent(CalculateMesh(bs, s), s, i, j, k)
  {
    var m := CalculateMesh(bs, s);
    var q := bs[i].parent;
    var pos := StitchPos(|bs|, s, i, j, k);
    StartingIndices(bs, s);
    assert |m.branches| == |bs|;
    assert m.branches[i].parent == q && m.branches[q].radius == bs[q].radius && m.branches[i].radius == bs[i].radius;
    assert QuadCorner(m.branches, q, i, j, k) == QuadCorner(bs, q, i, j, k);
    StitchJoinsParentRing(bs, s, i, j, k, pos);
  }

  /** CreateMesh: SetRadii, then CalculateMesh on the thickened branches.
      The mesh keeps every branch but for its radius and startingIndex, radii
      only grow, under ParentsPrecede each parent ends at least inc thicker
      than each child, and every ring vertex carries its branch's final radius. */
  method CreateMesh(bs: seq<Branch>, s: nat, inc: real) returns (m: Skin)
    requires ParentsInList(bs)
    ensures |m.branches| == |bs| && |m.vertices| == |bs| * (s + 2)
    ensures forall i :: 0 <= i < |bs| ==>
      && m.branches[i] == bs[i].(radius := m.branches[i].radius, startingIndex := i * (s + 2))
      && m.branches[i].radius >= bs[i].radius
    ensures ParentsPrecede(bs) ==>
      forall c :: 0 < c < |bs| ==> m.branches[bs[c].parent].radius >= m.branches[c].radius + inc
    ensures forall i, j :: 0 <= i < |bs| && 0 <= j <= s ==> RimCarries(m, i, j)
    ensures |bs| >= 1 ==> |m.triangles| == 9 * s * |bs|
    ensures |bs| >= 2 ==> AllIn(m.triangles, 0, |m.vertices|)
    ensures forall i: nat, j: nat, k: nat :: 1 <= i < |bs| && j < s && k < 6 ==> StitchesToParent(m, s, i, j, k)
  {
    var r := SetRadii(bs, inc);
    RadiiKeepParents(bs, r);
    m := CalculateMesh(r, s);
    StartingIndices(r, s);
    VertexCount(r, s);
    RimsCarryRadius(r, s);
    if |bs| >= 1 {
      TriangleCount(r, s);
    }
    if |bs| >= 2 {
      TrianglesInRange(r, s);
    }
    StitchesReachParents(r, s);
    forall i | 0 <= i < |bs|
      ensures m.branches[i] == bs[i].(radius := m.branches[i].radius, startingIndex := i * (s + 2))
      ensures m.branches[i].radius == r[i].radius
    {
      assert r[i] == bs[i].(radius := r[i].radius);
    }
  }
}
