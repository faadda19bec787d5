/** The first two passes of a growth iteration: every attraction point picks
    its closest in-range branch end, then registers its position with that
    branch. */
module Assignment {
  import opened Options
  import opened Vectors
  import opened Arena

  /** An attraction point and the branch it currently leans towards (null in the source when None). */
  datatype AttractionPoint = AttractionPoint(position: Vec3, closestBranch: Option<nat>)

  /** Every closest-branch reference names a branch of an arena of n branches. */
  predicate ClosestValid(points: seq<AttractionPoint>, n: nat)
  {
    forall i :: 0 <= i < |points| && points[i].closestBranch.Some? ==> points[i].closestBranch.value < n
  }

  predicate NoneClaimed(points: seq<AttractionPoint>)
  {
    forall i :: 0 <= i < |points| ==> points[i].closestBranch == None
  }

  function Ends(bs: seq<Branch>): (r: seq<Vec3>)
    ensures |r| == |bs|
    ensures forall i :: 0 <= i < |bs| ==> r[i] == EndPos(bs[i])
  {
    seq(|bs|, i requires 0 <= i < |bs| => EndPos(bs[i]))
  }

  /** The inner loop over branches 0..m-1 for one point, starting from the
      point's current closest branch: a branch is taken when its end is
      within the influence distance and either nothing is held yet or it is
      strictly closer than the held one. */
  function Scan(ends: seq<Vec3>, m: nat, pos: Vec3, influence: real, held: Option<nat>): (c: Option<nat>)
    requires m <= |ends|
    requires held.Some? ==> held.value < |ends|
    ensures c.Some? ==> c.value < |ends|
  {
    if m == 0 then held
    else
      var c := Scan(ends, m - 1, pos, influence, held);
      var k := m - 1;
      if Within(ends[k], pos, influence) && c.None? then Some(k)
      else if Within(ends[k], pos, influence) && Closer(pos, ends[k], ends[c.value]) then Some(k)
      else c
  }

  /** Branch k is the first, in list order, of the in-range branch ends at minimal distance from pos. */
  predicate FirstNearest(ends: seq<Vec3>, m: nat, pos: Vec3, influence: real, k: nat)
    requires m <= |ends|
  {
    && k < m
    && Within(ends[k], pos, influence)
    && (forall j :: 0 <= j < m && Within(ends[j], pos, influence) ==> DistSq(ends[k], pos) <= DistSq(ends[j], pos))
    && (forall j :: 0 <= j < k && Within(ends[j], pos, influence) ==> DistSq(ends[k], pos) < DistSq(ends[j], pos))
  }

  predicate NoneInRange(ends: seq<Vec3>, m: nat, pos: Vec3, influence: real)
    requires m <= |ends|
  {
    forall j :: 0 <= j < m ==> !Within(ends[j], pos, influence)
  }

  lemma FirstNearestUnique(ends: seq<Vec3>, m: nat, pos: Vec3, influence: real, k1: nat, k2: nat)
    requires m <= |ends|
    requires FirstNearest(ends, m, pos, influence, k1) && FirstNearest(ends, m, pos, influence, k2)
    ensures k1 == k2
  {
  }

  /** A scan that starts with nothing held holds nothing exactly when no
      branch end is in range, and otherwise holds a first nearest one. */
  lemma {:induction false} ScanSound(ends: seq<Vec3>, m: nat, pos: Vec3, influence: real)
    requires m <= |ends|
    ensures Scan(ends, m, pos, influence, None).None? <==> NoneInRange(ends, m, pos, influence)
    ensures Scan(ends, m, pos, influence, None).Some? ==>
      FirstNearest(ends, m, pos, influence, Scan(ends, m, pos, influence, None).value)
  {
    if m > 0 {
      ScanSound(ends, m - 1, pos, influence);
      var c := Scan(ends, m - 1, pos, influence, None);
      var k := m - 1;
      var r := Scan(ends, m, pos, influence, None);
      if r.Some? && r.value == k {
        forall j | 0 <= j < m && Within(ends[j], pos, influence)
          ensures DistSq(ends[k], pos) <= DistSq(ends[j], pos)
        {
          if j < k {
            assert c.Some?;
          }
        }
      }
    }
  }

  /** A scan that starts with nothing held ends holding the first nearest
      in-range branch, and holds nothing exactly when no branch end is in range. */
  lemma ScanFindsFirstNearest(ends: seq<Vec3>, m: nat, pos: Vec3, influence: real)
    requires m <= |ends|
    ensures Scan(ends, m, pos, influence, None).None? <==> NoneInRange(ends, m, pos, influence)
    ensures forall k: nat :: FirstNearest(ends, m, pos, influence, k) <==> Scan(ends, m, pos, influence, None) == Some(k)
  {
    ScanSound(ends, m, pos, influence);
    var r := Scan(ends, m, pos, influence, None);
    forall k: nat | FirstNearest(ends, m, pos, influence, k)
      ensures r == Some(k)
    {
      assert !NoneInRange(ends, m, pos, influence);
      FirstNearestUnique(ends, m, pos, influence, k, r.value);
    }
  }

  /** The first loop of GenerateTree: every point scans the whole branch list. */
  function AssignAll(points: seq<AttractionPoint>, bs: seq<Branch>, influence: real): (r: seq<AttractionPoint>)
    requires ClosestValid(points, |bs|)
    ensures |r| == |points| && ClosestValid(r, |bs|)
    ensures forall i :: 0 <= i < |points| ==> r[i].position == points[i].position
  {
    var ends := Ends(bs);
    seq(|points|, i requires 0 <= i < |points| =>
      points[i].(closestBranch := Scan(ends, |ends|, points[i].position, influence, points[i].closestBranch)))
  }

  /** With every reference reset beforehand, each point ends up with the
      first nearest in-range branch, or with none when no branch end is in range. */
  lemma AssignPicksFirstNearest(points: seq<AttractionPoint>, bs: seq<Branch>, influence: real)
    requires NoneClaimed(points)
    ensures forall i :: 0 <= i < |points| ==>
      var pos := points[i].position;
      var c := AssignAll(points, bs, influence)[i].closestBranch;
      && (c.None? <==> NoneInRange(Ends(bs), |bs|, pos, influence))
      && (forall k: nat :: FirstNearest(Ends(bs), |bs|, pos, influence, k) <==> c == Some(k))
  {
    forall i | 0 <= i < |points|
      ensures var pos := points[i].position;
        var c := AssignAll(points, bs, influence)[i].closestBranch;
        && (c.None? <==> NoneInRange(Ends(bs), |bs|, pos, influence))
        && (forall k: nat :: FirstNearest(Ends(bs), |bs|, pos, influence, k) <==> c == Some(k))
    {
      ScanFindsFirstNearest(Ends(bs), |bs|, points[i].position, influence);
    }
  }

  /** The second loop of GenerateTree: each point with a closest branch
      appends its position to that branch's pointsInRange. */
  function Register(bs: seq<Branch>, points: seq<AttractionPoint>): (r: seq<Branch>)
    requires ClosestValid(points, |bs|)
    ensures |r| == |bs|
    decreases |points|
  {
    if |points| == 0 then bs
    else
      var r := Register(bs, points[..|points| - 1]);
      var a := points[|points| - 1];
      match a.closestBranch
      case None => r
      case Some(k) => r[k := r[k].(pointsInRange := r[k].pointsInRange + [a.position])]
  }

  /** Positions of the points whose closest branch is k, in list order. */
  function AssignedTo(points: seq<AttractionPoint>, k: nat): seq<Vec3>
  {
    if |points| == 0 then []
    else
      var a := points[|points| - 1];
      AssignedTo(points[..|points| - 1], k) + if a.closestBranch == Some(k) then [a.position] else []
  }

  /** currentAttractionPoints: the points that have a closest branch, in list order. */
  function Current(points: seq<AttractionPoint>): seq<AttractionPoint>
  {
    if |points| == 0 then []
    else
      var a := points[|points| - 1];
      Current(points[..|points| - 1]) + if a.closestBranch.Some? then [a] else []
  }

  /** Registration touches nothing but scratch lists, and branch k's list
      grows by exactly the positions of the points assigned to k. */
  lemma {:induction false} RegisterAppendsAssigned(bs: seq<Branch>, points: seq<AttractionPoint>)
    requires ClosestValid(points, |bs|)
    ensures SameShape(bs, Register(bs, points))
    ensures forall k :: 0 <= k < |bs| ==>
      Register(bs, points)[k].pointsInRange == bs[k].pointsInRange + AssignedTo(points, k)
  {
    if |points| > 0 {
      var init := points[..|points| - 1];
      RegisterAppendsAssigned(bs, init);
    }
  }

  /** Branch k receives some position exactly when some point chose k. */
  lemma {:induction false} AssignedToNonEmpty(points: seq<AttractionPoint>, k: nat)
    ensures |AssignedTo(points, k)| > 0 <==> exists i :: 0 <= i < |points| && points[i].closestBranch == Some(k)
  {
    if |points| > 0 {
      var init := points[..|points| - 1];
      AssignedToNonEmpty(init, k);
      assert forall i :: 0 <= i < |init| ==> init[i] == points[i];
    }
  }

  /** currentAttractionPoints is empty exactly when no point has a closest branch. */
  lemma {:induction false} CurrentEmptyIffNoneClaimed(points: seq<AttractionPoint>)
    ensures |Current(points)| == 0 <==> NoneClaimed(points)
  {
    if |points| > 0 {
      var init := points[..|points| - 1];
      CurrentEmptyIffNoneClaimed(init);
      assert forall i :: 0 <= i < |init| ==> init[i] == points[i];
    }
  }

  /** A point set none of which has a closest branch registers nothing. */
  lemma {:induction false} RegisterNothingClaimed(bs: seq<Branch>, points: seq<AttractionPoint>)
    requires NoneClaimed(points)
    ensures Register(bs, points) == bs
  {
    if |points| > 0 {
      var init := points[..|points| - 1];
      assert NoneClaimed(init);
      RegisterNothingClaimed(bs, init);
    }
  }
}
