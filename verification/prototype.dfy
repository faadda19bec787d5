/** The prototype skinner of Assets/CreateCylinder.cs, CreateGeometry(branches,
    slices): the same rings and cap fans as CalculateMesh, but of a fixed radius,
    and a stitching loop of eleven passes that joins consecutive rings instead
    of following parent links. */
module Prototype {
  import opened Options
  import opened Arena
  import opened Loops
  import opened IndexBuffers
  import opened Skinning

  /** The prototype's ring radius, a field initialised to 0.2f. */
  const PrototypeRadius := 0.2

  /** The stitching loop runs i = 0 .. 10 and reads branches[i] for i >= 1. */
  const StitchPasses := 11

  /** The vertex and index buffers handed to the mesh. */
  datatype Mesh = Mesh(vertices: seq<RingVertex>, triangles: seq<int>)

  /** The branches as the prototype sees them: every ring of radius 0.2. */
  function FixedRadius(bs: seq<Branch>): (r: seq<Branch>)
    ensures |r| == |bs|
    ensures forall i :: 0 <= i < |bs| ==> r[i] == bs[i].(radius := PrototypeRadius)
  {
    seq(|bs|, i requires 0 <= i < |bs| => bs[i].(radius := PrototypeRadius))
  }

  /** How many of branches 1 .. n-1 have children. */
  function CountBearing(bs: seq<Branch>, n: nat): nat
    requires n <= |bs|
  {
    if n <= 1 then 0 else CountBearing(bs, n - 1) + if |bs[n - 1].children| != 0 then 1 else 0
  }

  /** The running base index b after passes 0 .. n-1 of the stitching loop:
      pass 0 sets it to 0, and a later pass whose branch has children moves
      it on by s + 2. */
  function PassBase(bs: seq<Branch>, s: nat, n: nat): int
    requires n <= |bs|
  {
    if n <= 1 then 0 else PassBase(bs, s, n - 1) + if |bs[n - 1].children| != 0 then s + 2 else 0
  }

  /** The (b, t) ring pairs passes 0 .. n-1 stitch, in order: pass 0 joins
      ring 0 to the ring s + 2 further on; a later pass whose branch has
      children joins the ring at the moved base b to the ring at b + s + 2. */
  function PassBands(bs: seq<Branch>, s: nat, n: nat): seq<(int, int)>
    requires n <= |bs|
  {
    if n == 0 then []
    else if n == 1 then [(0, s + 2)]
    else if |bs[n - 1].children| != 0 then PassBands(bs, s, n - 1) + [(PassBase(bs, s, n), PassBase(bs, s, n) + s + 2)]
    else PassBands(bs, s, n - 1)
  }

  function StitchBand(pairs: seq<(int, int)>, s: nat): nat --> seq<int>
  {
    (k: nat) requires k < |pairs| => Band(pairs[k].0, pairs[k].1, s)
  }

  /** The triangles of the stitched ring pairs, one band each, in order. */
  function Stitched(pairs: seq<(int, int)>, s: nat): seq<int>
  {
    Loop(|pairs|, StitchBand(pairs, s))
  }

  /** The first vertex of ring k: k rings of s + 2 vertices come before it. */
  function RingStart(k: nat, s: nat): nat
  {
    if k == 0 then 0 else RingStart(k - 1, s) + s + 2
  }

  /** CreateGeometry: one ring plus centre and one cap fan per branch, then
      the eleven stitching passes. With fewer than eleven branches the pass
      that reads branches[Count] throws and no mesh is set. */
  function CreateGeometry(bs: seq<Branch>, s: nat): (r: Option<Mesh>)
    ensures r.None? <==> |bs| < StitchPasses
    ensures r.Some? ==> r.value.vertices == Rings(FixedRadius(bs), s)
  {
    if |bs| < StitchPasses then None
    else Some(Mesh(Rings(FixedRadius(bs), s), Caps(|bs|, s) + Stitched(PassBands(bs, s, StitchPasses), s)))
  }

  /** The running base after n passes is the first vertex of ring c, c
      counting the branches among 1 .. n-1 that have children. */
  lemma {:induction false} PassesBase(bs: seq<Branch>, s: nat, n: nat)
    requires 1 <= n <= |bs|
    ensures PassBase(bs, s, n) == RingStart(CountBearing(bs, n), s)
  {
    if n > 1 {
      PassesBase(bs, s, n - 1);
    }
  }

  /** Ring k starts k * (s + 2) vertices in. */
  lemma {:induction false} RingStartIs(k: nat, s: nat)
    ensures RingStart(k, s) == k * (s + 2)
  {
    if k > 0 {
      RingStartIs(k - 1, s);
    }
  }

  /** The stitching loop joins ring k to ring k + 1 for k = 0 .. c, where c
      counts the branches among 1 .. n-1 that have children: it walks the
      rings in list order and never reads a parent link. */
  lemma {:induction false} PassesJoinConsecutiveRings(bs: seq<Branch>, s: nat, n: nat)
    requires 1 <= n <= |bs|
    ensures |PassBands(bs, s, n)| == CountBearing(bs, n) + 1
    ensures forall k :: 0 <= k < |PassBands(bs, s, n)| ==>
      PassBands(bs, s, n)[k] == (RingStart(k, s), RingStart(k + 1, s))
  {
    if n > 1 {
      PassesJoinConsecutiveRings(bs, s, n - 1);
      if |bs[n - 1].children| != 0 {
        PassesBase(bs, s, n);
      }
    }
  }

  /** The prototype's index list: the cap fans, then one band per consecutive
      pair of rings k, k + 1 for k = 0 .. c, c being the number of branches
      among 1 .. 10 with children; 3s indices per branch and 6s per band. */
  lemma PrototypeLayout(bs: seq<Branch>, s: nat)
    requires |bs| >= StitchPasses
    ensures var pairs := PassBands(bs, s, StitchPasses);
      && CreateGeometry(bs, s).Some?
      && CreateGeometry(bs, s).value.triangles == Caps(|bs|, s) + Stitched(pairs, s)
      && |pairs| == CountBearing(bs, StitchPasses) + 1
      && (forall k :: 0 <= k < |pairs| ==> pairs[k] == (k * (s + 2), (k + 1) * (s + 2)))
      && |CreateGeometry(bs, s).value.triangles| == 3 * s * |bs| + 6 * s * |pairs|
  {
    var pairs := PassBands(bs, s, StitchPasses);
    PassesJoinConsecutiveRings(bs, s, StitchPasses);
    forall k | 0 <= k < |pairs|
      ensures pairs[k] == (k * (s + 2), (k + 1) * (s + 2))
    {
      RingStartIs(k, s);
      RingStartIs(k + 1, s);
    }
    CapsLength(|bs|, s);
    forall k | 0 <= k < |pairs|
      ensures |StitchBand(pairs, s)(k)| == 6 * s
    {
      BandLength(pairs[k].0, pairs[k].1, s);
    }
    LoopLength(|pairs|, StitchBand(pairs, s), 6 * s);
  }

  /** Every vertex of a prototype ring has radius 0.2, whatever the branch's own radius. */
  lemma PrototypeRingsFixed(bs: seq<Branch>, s: nat, i: nat, j: nat)
    requires |bs| >= StitchPasses && i < |bs| && j <= s
    ensures i * (s + 2) + j < |CreateGeometry(bs, s).value.vertices|
    ensures CreateGeometry(bs, s).value.vertices[i * (s + 2) + j] == Rim(i, j, PrototypeRadius)
  {
    RingAt(FixedRadius(bs), s, i, j);
  }

  /** Branches 1 .. n-1 include at most n - 1 with children, and one fewer
      when branch n - 1 has none. */
  lemma {:induction false} CountBearingBound(bs: seq<Branch>, n: nat)
    requires 1 <= n <= |bs|
    ensures CountBearing(bs, n) <= n - 1
    ensures n >= 2 && bs[n - 1].children == [] ==> CountBearing(bs, n) <= n - 2
  {
    if n > 1 {
      CountBearingBound(bs, n - 1);
    }
  }

  /** Bands joining ring k to ring k + 1 for k < m lie inside the first n rings when m < n. */
  lemma ConsecutiveInRange(pairs: seq<(int, int)>, n: nat, s: nat)
    requires |pairs| < n
    requires forall k :: 0 <= k < |pairs| ==> pairs[k] == (k * (s + 2), (k + 1) * (s + 2))
    ensures AllIn(Stitched(pairs, s), 0, n * (s + 2))
  {
    forall k | 0 <= k < |pairs|
      ensures AllIn(StitchBand(pairs, s)(k), 0, n * (s + 2))
    {
      RingFits(k, n, s);
      RingFits(k + 1, n, s);
      MulMono(0, k, s + 2);
      BandInRange(k * (s + 2), (k + 1) * (s + 2), s, 0, n * (s + 2));
    }
    LoopAllIn(|pairs|, StitchBand(pairs, s), 0, n * (s + 2));
  }

  /** On a well-formed arena there are fewer stitched pairs than branches:
      with exactly eleven branches the last has no children. */
  lemma PairsFewerThanBranches(bs: seq<Branch>, s: nat)
    requires WellFormed(bs) && |bs| >= StitchPasses
    ensures |PassBands(bs, s, StitchPasses)| < |bs|
  {
    PassesJoinConsecutiveRings(bs, s, StitchPasses);
    CountBearingBound(bs, StitchPasses);
    if |bs| == StitchPasses {
      LastIsChildless(bs);
    }
  }

  /** On a well-formed arena every index names a vertex. */
  lemma PrototypeInRange(bs: seq<Branch>, s: nat)
    requires WellFormed(bs) && |bs| >= StitchPasses
    ensures AllIn(CreateGeometry(bs, s).value.triangles, 0, |CreateGeometry(bs, s).value.vertices|)
  {
    var n := |bs|;
    var pairs := PassBands(bs, s, StitchPasses);
    PrototypeLayout(bs, s);
    RingsLength(FixedRadius(bs), s, n);
    PairsFewerThanBranches(bs, s);
    CapsInRange(n, s);
    ConsecutiveInRange(pairs, n, s);
    AllInConcat(Caps(n, s), Stitched(pairs, s), 0, n * (s + 2));
  }
}
