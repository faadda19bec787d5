/** One call of GenerateTree (Assets/CreateTree.cs; the same step appears in
    Assets/GenerateShape.cs) and the root placement of Start. */
module Growth {
  import opened Options
  import opened Vectors
  import opened Arena
  import opened Assignment
  import opened Removal

  /** The inspector tunables the growth step reads. */
  datatype Params = Params(influenceDistance: real, killDistance: real, branchLength: real, branchRadius: real)

  /** Iterations during which a tree that reaches no point is pushed straight up. */
  const BootstrapIterations := 15

  /** A branch with more children than this is not offered another. */
  const SpawnChildLimit := 3

  /** The generator's fields between two calls of GenerateTree. */
  datatype Generator = Generator(
    branches: seq<Branch>,
    attractionPoints: seq<AttractionPoint>,
    newBranches: seq<nat>,
    currentAttractionPoints: seq<AttractionPoint>,
    iterationCount: int,
    finishedGenerating: bool)

  predicate ScratchEmpty(bs: seq<Branch>)
  {
    forall i :: 0 <= i < |bs| ==> bs[i].pointsInRange == []
  }

  /** No branch has more than four children. */
  predicate ChildrenCapped(bs: seq<Branch>)
  {
    forall i :: 0 <= i < |bs| ==> |bs[i].children| <= SpawnChildLimit + 1
  }

  /** What holds between iterations: a well-formed arena with at most four
      children per branch, and all per-iteration scratch state empty. */
  predicate Valid(g: Generator)
  {
    && WellFormed(g.branches)
    && ChildrenCapped(g.branches)
    && ScratchEmpty(g.branches)
    && NoneClaimed(g.attractionPoints)
    && g.newBranches == []
    && g.currentAttractionPoints == []
  }

  /** Start: the attraction points (drawn at random by the source) and the
      root, placed `drop` below the crown sphere of radius crownRadius, where
      `drop` is the source's Random.Range(5.0f, 7.5f). */
  function Start(crown: seq<Vec3>, crownRadius: real, drop: real, p: Params): (g: Generator)
    requires 5.0 <= drop <= 7.5
    ensures Valid(g) && |g.branches| == 1 && !g.finishedGenerating && g.iterationCount == 0
    ensures g.branches[0].start == Vec3(0.0, -crownRadius - drop, 0.0) && g.branches[0].start.y < -crownRadius
    ensures g.branches[0].direction == Up && g.branches[0].parent == 0
    ensures g.branches[0].length == p.branchLength && g.branches[0].radius == p.branchRadius
    ensures g.branches[0].children == [] && EndPos(g.branches[0]) == Add(g.branches[0].start, Scale(Up, p.branchLength))
    ensures |g.attractionPoints| == |crown|
    ensures forall i :: 0 <= i < |crown| ==> g.attractionPoints[i].position == crown[i]
  {
    var root := NewRoot(Vec3(0.0, -crownRadius - drop, 0.0), Up, p.branchLength, p.branchRadius);
    var points := seq(|crown|, i requires 0 <= i < |crown| => AttractionPoint(crown[i], None));
    Generator([root], points, [], [], 0, false)
  }

  /** The sum of the normalised vectors from `from` to each point, in list order. */
  function SumOfPulls(ps: seq<Vec3>, from: Vec3, normalize: Vec3 -> Vec3): Vec3
  {
    if |ps| == 0 then Zero
    else Add(SumOfPulls(ps[..|ps| - 1], from, normalize), normalize(Sub(ps[|ps| - 1], from)))
  }

  /** newBranchDir: the normalised sum of the pulls of the branch's points. */
  function GrowthDirection(b: Branch, normalize: Vec3 -> Vec3): Vec3
  {
    normalize(SumOfPulls(b.pointsInRange, EndPos(b), normalize))
  }

  /** The spawn gate: some point registered and at most three children. */
  predicate MaySpawn(b: Branch)
  {
    |b.pointsInRange| > 0 && |b.children| <= SpawnChildLimit
  }

  /** The spawn loop over branches 0..m-1: each gated branch gets one child,
      grown one branch length along its growth direction. */
  function Spawn(bs: seq<Branch>, m: nat, p: Params, normalize: Vec3 -> Vec3): (r: seq<Branch>)
    requires m <= |bs|
    ensures |bs| <= |r|
    ensures forall i :: m <= i < |bs| ==> r[i] == bs[i]
    decreases m
  {
    if m == 0 then bs
    else
      var r := Spawn(bs, m - 1, p, normalize);
      var b := r[m - 1];
      if MaySpawn(b) then AddChild(r, m - 1, GrowthDirection(b, normalize), p.branchLength, p.branchRadius)
      else r
  }

  /** How many of branches 0..m-1 pass the spawn gate. */
  function CountMaySpawn(bs: seq<Branch>, m: nat): nat
    requires m <= |bs|
  {
    if m == 0 then 0 else CountMaySpawn(bs, m - 1) + if MaySpawn(bs[m - 1]) then 1 else 0
  }

  /** r agrees with bs on every branch of bs except perhaps its child list. */
  predicate SameButChildren(bs: seq<Branch>, r: seq<Branch>)
  {
    |bs| <= |r| && forall i :: 0 <= i < |bs| ==> r[i] == bs[i].(children := r[i].children)
  }

  /** Branches of bs below m that pass the spawn gate gained exactly one
      child at the end of their list; all others kept their list. */
  predicate OneMoreChildIfGated(bs: seq<Branch>, r: seq<Branch>, m: nat)
    requires m <= |bs| <= |r|
  {
    forall i :: 0 <= i < |bs| ==>
      if i < m && MaySpawn(bs[i]) then
        |r[i].children| == |bs[i].children| + 1 && r[i].children[..|bs[i].children|] == bs[i].children
      else r[i].children == bs[i].children
  }

  /** The spawn loop changes nothing of an existing branch but its child list. */
  lemma {:induction false} SpawnKeepsFields(bs: seq<Branch>, m: nat, p: Params, normalize: Vec3 -> Vec3)
    requires m <= |bs|
    ensures SameButChildren(bs, Spawn(bs, m, p, normalize))
  {
    if m > 0 {
      SpawnKeepsFields(bs, m - 1, p, normalize);
      var r0 := Spawn(bs, m - 1, p, normalize);
      var b := r0[m - 1];
      if MaySpawn(b) {
        var r := AddChild(r0, m - 1, GrowthDirection(b, normalize), p.branchLength, p.branchRadius);
        assert Spawn(bs, m, p, normalize) == r;
        forall i | 0 <= i < |bs|
          ensures r[i] == bs[i].(children := r[i].children)
        {
          if i != m - 1 {
            assert r[i] == r0[i];
          }
        }
      }
    }
  }

  /** The child list of an existing branch gains exactly one entry for a
      gated branch and none otherwise. */
  lemma {:induction false} SpawnChildLists(bs: seq<Branch>, m: nat, p: Params, normalize: Vec3 -> Vec3)
    requires m <= |bs|
    ensures OneMoreChildIfGated(bs, Spawn(bs, m, p, normalize), m)
  {
    if m > 0 {
      SpawnChildLists(bs, m - 1, p, normalize);
      var r0 := Spawn(bs, m - 1, p, normalize);
      var b := r0[m - 1];
      assert b == bs[m - 1];
      if MaySpawn(b) {
        var r := AddChild(r0, m - 1, GrowthDirection(b, normalize), p.branchLength, p.branchRadius);
        assert Spawn(bs, m, p, normalize) == r;
        forall i | 0 <= i < |bs| && i != m - 1
          ensures r[i] == r0[i]
        {
        }
        assert r[m - 1].children == bs[m - 1].children + [|r0|];
        assert r[m - 1].children[..|bs[m - 1].children|] == bs[m - 1].children;
      }
    }
  }

  /** Both halves together: only child lists change, and only for gated branches. */
  lemma SpawnKeepsExisting(bs: seq<Branch>, m: nat, p: Params, normalize: Vec3 -> Vec3)
    requires m <= |bs|
    ensures SameButChildren(bs, Spawn(bs, m, p, normalize))
    ensures OneMoreChildIfGated(bs, Spawn(bs, m, p, normalize), m)
  {
    SpawnKeepsFields(bs, m, p, normalize);
    SpawnChildLists(bs, m, p, normalize);
  }

  /** Every branch past the first |bs| hangs off a gated branch below m,
      starts at its end and points along its growth direction. */
  predicate SpawnedFrom(bs: seq<Branch>, r: seq<Branch>, m: nat, normalize: Vec3 -> Vec3)
    requires m <= |bs|
  {
    forall k :: |bs| <= k < |r| ==>
      && r[k].parent < m
      && MaySpawn(bs[r[k].parent])
      && r[k].start == EndPos(bs[r[k].parent])
      && r[k].direction == GrowthDirection(bs[r[k].parent], normalize)
  }

  /** Every branch past the first |bs| is one branch length and radius long,
      childless and with an empty scratch list. */
  predicate FreshPast(bs: seq<Branch>, r: seq<Branch>, p: Params)
  {
    forall k :: |bs| <= k < |r| ==>
      && r[k].length == p.branchLength && r[k].radius == p.branchRadius
      && r[k].children == [] && r[k].pointsInRange == []
  }

  /** The branches past the first |bs| all hang off a branch below m. */
  predicate ParentsBelow(bs: seq<Branch>, r: seq<Branch>, m: nat)
  {
    forall k :: |bs| <= k < |r| ==> r[k].parent < m
  }

  /** The branches past the first |bs| come in strictly increasing parent order. */
  predicate ParentOrderedPast(bs: seq<Branch>, r: seq<Branch>)
  {
    forall k1, k2 :: |bs| <= k1 < k2 < |r| ==> r[k1].parent < r[k2].parent
  }

  /** The spawn loop appends one branch per gated branch. */
  lemma {:induction false} SpawnCount(bs: seq<Branch>, m: nat, p: Params, normalize: Vec3 -> Vec3)
    requires m <= |bs|
    ensures |Spawn(bs, m, p, normalize)| == |bs| + CountMaySpawn(bs, m)
  {
    if m > 0 {
      SpawnCount(bs, m - 1, p, normalize);
      assert Spawn(bs, m - 1, p, normalize)[m - 1] == bs[m - 1];
    }
  }

  /** Each appended branch hangs off a gated branch, starts at its end and
      points along its growth direction. */
  lemma {:induction false} SpawnAppends(bs: seq<Branch>, m: nat, p: Params, normalize: Vec3 -> Vec3)
    requires m <= |bs|
    ensures SpawnedFrom(bs, Spawn(bs, m, p, normalize), m, normalize)
  {
    if m > 0 {
      SpawnAppends(bs, m - 1, p, normalize);
      var r0 := Spawn(bs, m - 1, p, normalize);
      assert r0[m - 1] == bs[m - 1];
      var b := r0[m - 1];
      if MaySpawn(b) {
        var r := AddChild(r0, m - 1, GrowthDirection(b, normalize), p.branchLength, p.branchRadius);
        assert Spawn(bs, m, p, normalize) == r;
        forall k | |bs| <= k < |r0|
          ensures r[k] == r0[k]
        {
        }
      }
    }
  }

  /** Every appended branch is one branch length and radius long, childless
      and with an empty scratch list. */
  lemma {:induction false} SpawnFresh(bs: seq<Branch>, m: nat, p: Params, normalize: Vec3 -> Vec3)
    requires m <= |bs|
    ensures FreshPast(bs, Spawn(bs, m, p, normalize), p)
  {
    if m > 0 {
      SpawnFresh(bs, m - 1, p, normalize);
      var r0 := Spawn(bs, m - 1, p, normalize);
      var b := r0[m - 1];
      if MaySpawn(b) {
        var r := AddChild(r0, m - 1, GrowthDirection(b, normalize), p.branchLength, p.branchRadius);
        assert Spawn(bs, m, p, normalize) == r;
        forall k | |bs| <= k < |r0|
          ensures r[k] == r0[k]
        {
        }
      }
    }
  }

  /** The appended branches come in the order of their parents. */
  lemma {:induction false} SpawnOrdered(bs: seq<Branch>, m: nat, p: Params, normalize: Vec3 -> Vec3)
    requires m <= |bs|
    ensures ParentsBelow(bs, Spawn(bs, m, p, normalize), m)
    ensures ParentOrderedPast(bs, Spawn(bs, m, p, normalize))
  {
    if m > 0 {
      SpawnOrdered(bs, m - 1, p, normalize);
      var r0 := Spawn(bs, m - 1, p, normalize);
      var b := r0[m - 1];
      if MaySpawn(b) {
        var r := AddChild(r0, m - 1, GrowthDirection(b, normalize), p.branchLength, p.branchRadius);
        assert Spawn(bs, m, p, normalize) == r;
        forall k | |bs| <= k < |r0|
          ensures r[k] == r0[k] && r[k].parent < m - 1
        {
        }
      }
    }
  }

  /** The spawn loop keeps every branch at four children or fewer. */
  lemma {:induction false} SpawnKeepsCapped(bs: seq<Branch>, m: nat, p: Params, normalize: Vec3 -> Vec3)
    requires m <= |bs| && ChildrenCapped(bs)
    ensures ChildrenCapped(Spawn(bs, m, p, normalize))
  {
    if m > 0 {
      SpawnKeepsCapped(bs, m - 1, p, normalize);
    }
  }

  lemma {:induction false} SpawnKeepsWellFormed(bs: seq<Branch>, m: nat, p: Params, normalize: Vec3 -> Vec3)
    requires m <= |bs| && WellFormed(bs)
    ensures WellFormed(Spawn(bs, m, p, normalize))
  {
    if m > 0 {
      SpawnKeepsWellFormed(bs, m - 1, p, normalize);
      var r0 := Spawn(bs, m - 1, p, normalize);
      var b := r0[m - 1];
      if MaySpawn(b) {
        AddChildKeepsWellFormed(r0, m - 1, GrowthDirection(b, normalize), p.branchLength, p.branchRadius);
      }
    }
  }

  lemma {:induction false} SpawnNothingGated(bs: seq<Branch>, m: nat, p: Params, normalize: Vec3 -> Vec3)
    requires m <= |bs|
    requires forall i :: 0 <= i < m ==> !MaySpawn(bs[i])
    ensures Spawn(bs, m, p, normalize) == bs
  {
    if m > 0 {
      SpawnNothingGated(bs, m - 1, p, normalize);
    }
  }

  /** The clean-up loop: every branch's pointsInRange is emptied. */
  function ClearScratch(bs: seq<Branch>): (r: seq<Branch>)
    ensures SameShape(bs, r) && ScratchEmpty(r)
  {
    seq(|bs|, i requires 0 <= i < |bs| => bs[i].(pointsInRange := []))
  }

  /** The points after the first loop: each holds its closest branch. */
  function Assignments(g: Generator, p: Params): (r: seq<AttractionPoint>)
    requires Valid(g)
    ensures |r| == |g.attractionPoints| && ClosestValid(r, |g.branches|)
  {
    AssignAll(g.attractionPoints, g.branches, p.influenceDistance)
  }

  /** pointsInRange of branch q after registration: the positions of the
      points that chose q, in list order. */
  function Pulls(g: Generator, p: Params, q: nat): seq<Vec3>
    requires Valid(g)
  {
    AssignedTo(Assignments(g, p), q)
  }

  /** The arena after registration. */
  function Registered(g: Generator, p: Params): (r: seq<Branch>)
    requires Valid(g)
    ensures |r| == |g.branches|
  {
    Register(g.branches, Assignments(g, p))
  }

  /** The upward fallback fires: no point has a closest branch and this is
      one of the first fourteen iterations. */
  predicate Bootstrapping(g: Generator, p: Params)
    requires Valid(g)
  {
    |Current(Assignments(g, p))| == 0 && g.iterationCount + 1 < BootstrapIterations
  }

  /** No point has a closest branch after the fifteenth iteration: stop. */
  predicate GivesUp(g: Generator, p: Params)
    requires Valid(g)
  {
    |Current(Assignments(g, p))| == 0 && g.iterationCount + 1 > BootstrapIterations
  }

  /** The arena once the fallback branch, if any, hangs off the last branch. */
  function Grown(g: Generator, p: Params): (r: seq<Branch>)
    requires Valid(g)
  {
    var registered := Registered(g, p);
    if Bootstrapping(g, p) then AddChild(registered, |registered| - 1, Up, p.branchLength, p.branchRadius)
    else registered
  }

  /** The arena after the spawn loop over the branches present at the start. */
  function Spawned(g: Generator, p: Params, normalize: Vec3 -> Vec3): (r: seq<Branch>)
    requires Valid(g)
    ensures |g.branches| <= |r|
  {
    Spawn(Grown(g, p), |g.branches|, p, normalize)
  }

  /** GenerateTree: one iteration of space colonisation. */
  function Step(g: Generator, p: Params, normalize: Vec3 -> Vec3): (r: Generator)
    requires Valid(g)
    ensures r.newBranches == [] && r.currentAttractionPoints == []
    ensures |g.attractionPoints| == 0 ==>
      r.finishedGenerating && r.branches == g.branches && r.attractionPoints == g.attractionPoints
        && r.iterationCount == g.iterationCount
    ensures |g.attractionPoints| > 0 ==> r.iterationCount == g.iterationCount + 1
    ensures g.finishedGenerating ==> r.finishedGenerating
  {
    if |g.attractionPoints| == 0 then g.(finishedGenerating := true)
    else
      var n0 := |g.branches|;
      var spawned := Spawned(g, p, normalize);
      var cleaned := ClearScratch(spawned);
      var survivors := KillPass(Assignments(g, p), Ends(spawned[n0..]), p.killDistance);
      Generator(cleaned, survivors, [], [], g.iterationCount + 1,
                g.finishedGenerating || GivesUp(g, p) || n0 == |cleaned|)
  }

  /** GenerateTree as written: the same step, but with the source's removal
      pass, whose doubled indices can make a RemoveAt throw (None): the
      iteration then stops before its clean-up. */
  function StepAsWritten(g: Generator, p: Params, normalize: Vec3 -> Vec3): (r: Option<Generator>)
    requires Valid(g)
    ensures |g.attractionPoints| == 0 ==> r.Some? && r.value.finishedGenerating
    ensures r.Some? ==> r.value.newBranches == [] && r.value.currentAttractionPoints == []
  {
    if |g.attractionPoints| == 0 then Some(g.(finishedGenerating := true))
    else
      var n0 := |g.branches|;
      var spawned := Spawned(g, p, normalize);
      var cleaned := ClearScratch(spawned);
      match KillPassAsWritten(Assignments(g, p), Ends(spawned[n0..]), p.killDistance)
      case None => None
      case Some(survivors) =>
        Some(Generator(cleaned, survivors, [], [], g.iterationCount + 1,
                       g.finishedGenerating || GivesUp(g, p) || n0 == |cleaned|))
  }

  /** No point is within the kill distance of two of the branches this
      iteration appends. */
  predicate NoDoubleHit(g: Generator, p: Params, normalize: Vec3 -> Vec3)
    requires Valid(g)
  {
    var ends := Ends(Spawned(g, p, normalize)[|g.branches|..]);
    forall i :: 0 <= i < |g.attractionPoints| ==> |Hits(i, g.attractionPoints[i].position, ends, p.killDistance)| <= 1
  }

  /** In geometric terms: no point is within the kill distance of two
      distinct branch ends appended this iteration. */
  lemma NoDoubleHitMeansNoTwoEnds(g: Generator, p: Params, normalize: Vec3 -> Vec3)
    requires Valid(g)
    ensures NoDoubleHit(g, p, normalize) <==>
      forall i :: 0 <= i < |g.attractionPoints| ==>
        !ReachedTwice(g.attractionPoints[i].position, Ends(Spawned(g, p, normalize)[|g.branches|..]), p.killDistance)
  {
    var ends := Ends(Spawned(g, p, normalize)[|g.branches|..]);
    forall i | 0 <= i < |g.attractionPoints|
      ensures |Hits(i, g.attractionPoints[i].position, ends, p.killDistance)| <= 1
          <==> !ReachedTwice(g.attractionPoints[i].position, ends, p.killDistance)
    {
      HitsTwiceIffReachedTwice(i, g.attractionPoints[i].position, ends, p.killDistance);
    }
  }

  /** The source's step and the corrected Step agree exactly when no point
      is hit twice; otherwise the source's step throws or deletes more
      points than its new branches reached. */
  lemma StepAsWrittenAgrees(g: Generator, p: Params, normalize: Vec3 -> Vec3)
    requires Valid(g)
    ensures StepAsWritten(g, p, normalize) == Some(Step(g, p, normalize)) <==> NoDoubleHit(g, p, normalize)
    ensures !NoDoubleHit(g, p, normalize) ==>
      StepAsWritten(g, p, normalize).None? ||
      |StepAsWritten(g, p, normalize).value.attractionPoints| < |Step(g, p, normalize).attractionPoints|
  {
    if |g.attractionPoints| > 0 {
      var n0 := |g.branches|;
      var ends := Ends(Spawned(g, p, normalize)[n0..]);
      var chosen := Assignments(g, p);
      assert forall i :: 0 <= i < |chosen| ==> chosen[i].position == g.attractionPoints[i].position;
      AsWrittenAgreesIffSingleHits(chosen, ends, p.killDistance);
      if !NoDoubleHit(g, p, normalize) {
        var i :| 0 <= i < |g.attractionPoints| && |Hits(i, g.attractionPoints[i].position, ends, p.killDistance)| > 1;
        DoubleHitDiverges(chosen, ends, p.killDistance, i);
      }
    }
  }

  /** No branch end lies within influence distance of any point. */
  predicate Unreached(g: Generator, p: Params)
    requires Valid(g)
  {
    forall i :: 0 <= i < |g.attractionPoints| ==>
      NoneInRange(Ends(g.branches), |g.branches|, g.attractionPoints[i].position, p.influenceDistance)
  }

  /** Some point has branch q as its first nearest branch end in range. */
  predicate Attracts(g: Generator, p: Params, q: nat)
    requires Valid(g)
  {
    exists i :: 0 <= i < |g.attractionPoints| &&
      FirstNearest(Ends(g.branches), |g.branches|, g.attractionPoints[i].position, p.influenceDistance, q)
  }

  /** Branch q is offered a child this iteration. */
  predicate Gated(g: Generator, p: Params, q: nat)
    requires Valid(g)
  {
    q < |g.branches| && |g.branches[q].children| <= SpawnChildLimit && Attracts(g, p, q)
  }

  /** Registration in geometric terms: branch q receives a position exactly
      when it attracts some point, and the fallback fires exactly when no
      point is reached. */
  lemma PullsMeanAttraction(g: Generator, p: Params)
    requires Valid(g)
    ensures forall q: nat :: |Pulls(g, p, q)| > 0 <==> Attracts(g, p, q)
    ensures |Current(Assignments(g, p))| == 0 <==> Unreached(g, p)
  {
    var a := Assignments(g, p);
    AssignPicksFirstNearest(g.attractionPoints, g.branches, p.influenceDistance);
    CurrentEmptyIffNoneClaimed(a);
    forall q: nat
      ensures |Pulls(g, p, q)| > 0 <==> Attracts(g, p, q)
    {
      AssignedToNonEmpty(a, q);
    }
  }

  /** The arena handed to the spawn loop is well formed. */
  lemma GrownWellFormed(g: Generator, p: Params)
    requires Valid(g)
    ensures WellFormed(Grown(g, p))
  {
    var registered := Registered(g, p);
    RegisterAppendsAssigned(g.branches, Assignments(g, p));
    SameShapeKeepsWellFormed(g.branches, registered);
    if Bootstrapping(g, p) {
      AddChildKeepsWellFormed(registered, |registered| - 1, Up, p.branchLength, p.branchRadius);
    }
  }

  /** Registration fills branch i's empty scratch list with the positions
      of the points that chose it, and changes nothing else. */
  lemma RegisteredFields(g: Generator, p: Params)
    requires Valid(g)
    ensures forall i :: 0 <= i < |g.branches| ==>
      Registered(g, p)[i] == g.branches[i].(pointsInRange := Pulls(g, p, i))
  {
    var a := Assignments(g, p);
    var reg := Registered(g, p);
    RegisterAppendsAssigned(g.branches, a);
    forall i | 0 <= i < |g.branches|
      ensures reg[i] == g.branches[i].(pointsInRange := Pulls(g, p, i))
    {
      assert g.branches[i].pointsInRange == [];
      assert reg[i] == g.branches[i].(pointsInRange := reg[i].pointsInRange);
      assert reg[i].pointsInRange == [] + AssignedTo(a, i);
    }
  }

  /** Registration fills the scratch lists and nothing else; outside the
      fallback no child list changes. */
  lemma GrownKeepsExisting(g: Generator, p: Params)
    requires Valid(g)
    ensures var gr := Grown(g, p); var n0 := |g.branches|;
      && |gr| == n0 + (if Bootstrapping(g, p) then 1 else 0)
      && (forall i :: 0 <= i < n0 ==>
            gr[i] == g.branches[i].(pointsInRange := Pulls(g, p, i), children := gr[i].children))
      && (forall i :: 0 <= i < n0 && !(Bootstrapping(g, p) && i == n0 - 1) ==> gr[i].children == g.branches[i].children)
  {
    RegisteredFields(g, p);
    var reg := Registered(g, p);
    if Bootstrapping(g, p) {
      var gr := AddChild(reg, |reg| - 1, Up, p.branchLength, p.branchRadius);
      assert Grown(g, p) == gr;
      forall i | 0 <= i < |g.branches|
        ensures gr[i] == g.branches[i].(pointsInRange := Pulls(g, p, i), children := gr[i].children)
      {
        if i == |reg| - 1 {
          assert gr[i] == reg[i].(children := reg[i].children + [|reg|]);
        } else {
          assert gr[i] == reg[i];
        }
      }
    }
  }

  /** With the fallback no point has a closest branch, so no branch has
      any registered position. */
  lemma NoPullsInFallback(g: Generator, p: Params)
    requires Valid(g) && Bootstrapping(g, p)
    ensures forall i :: 0 <= i < |g.branches| ==> Pulls(g, p, i) == []
  {
    var a := Assignments(g, p);
    CurrentEmptyIffNoneClaimed(a);
    forall i | 0 <= i < |g.branches|
      ensures Pulls(g, p, i) == []
    {
      AssignedToNonEmpty(a, i);
    }
  }

  /** The fallback branch: one branch length straight up from the end of
      the last branch, which had no children before; and no branch has any
      registered position. */
  lemma GrownBootstrap(g: Generator, p: Params)
    requires Valid(g) && Bootstrapping(g, p)
    ensures var gr := Grown(g, p); var n0 := |g.branches|;
      && |gr| == n0 + 1
      && gr[n0 - 1].children == [n0]
      && gr[n0].parent == n0 - 1 && gr[n0].direction == Up
      && gr[n0].start == EndPos(g.branches[n0 - 1])
      && gr[n0].length == p.branchLength && gr[n0].radius == p.branchRadius
      && gr[n0].children == [] && gr[n0].pointsInRange == []
      && forall i :: 0 <= i < n0 ==> Pulls(g, p, i) == []
  {
    var n0 := |g.branches|;
    var reg := Registered(g, p);
    RegisteredFields(g, p);
    LastIsChildless(g.branches);
    NoPullsInFallback(g, p);
    var gr := AddChild(reg, n0 - 1, Up, p.branchLength, p.branchRadius);
    assert Grown(g, p) == gr;
    assert reg[n0 - 1] == g.branches[n0 - 1].(pointsInRange := []);
  }

  /** The spawn gate, read on the registered arena, is exactly Gated. */
  lemma MaySpawnIffGated(g: Generator, p: Params)
    requires Valid(g)
    ensures forall q :: 0 <= q < |g.branches| ==> (MaySpawn(Grown(g, p)[q]) <==> Gated(g, p, q))
  {
    GrownKeepsExisting(g, p);
    PullsMeanAttraction(g, p);
    if Bootstrapping(g, p) {
      GrownBootstrap(g, p);
    }
  }

  /** Registration and the fallback keep every branch at four children or fewer. */
  lemma GrownCapped(g: Generator, p: Params)
    requires Valid(g)
    ensures ChildrenCapped(Grown(g, p))
  {
    var reg := Registered(g, p);
    RegisteredFields(g, p);
    assert ChildrenCapped(reg) by {
      forall i | 0 <= i < |reg|
        ensures |reg[i].children| <= SpawnChildLimit + 1
      {
        assert reg[i].children == g.branches[i].children;
      }
    }
    if Bootstrapping(g, p) {
      LastIsChildless(g.branches);
      FallbackCapped(reg, p);
    }
  }

  /** Hanging the fallback branch off a childless last branch keeps the cap. */
  lemma FallbackCapped(reg: seq<Branch>, p: Params)
    requires |reg| >= 1 && ChildrenCapped(reg) && reg[|reg| - 1].children == []
    ensures ChildrenCapped(AddChild(reg, |reg| - 1, Up, p.branchLength, p.branchRadius))
  {
    var gr := AddChild(reg, |reg| - 1, Up, p.branchLength, p.branchRadius);
    forall i | 0 <= i < |gr|
      ensures |gr[i].children| <= SpawnChildLimit + 1
    {
      if i < |reg| - 1 {
        assert gr[i] == reg[i];
      }
    }
  }

  /** Step keeps the between-iterations invariant. */
  lemma StepKeepsValid(g: Generator, p: Params, normalize: Vec3 -> Vec3)
    requires Valid(g)
    ensures Valid(Step(g, p, normalize))
  {
    if |g.attractionPoints| > 0 {
      var n0 := |g.branches|;
      var gr := Grown(g, p);
      var spawned := Spawned(g, p, normalize);
      GrownWellFormed(g, p);
      GrownCapped(g, p);
      SpawnKeepsWellFormed(gr, n0, p, normalize);
      SpawnKeepsCapped(gr, n0, p, normalize);
      SameShapeKeepsWellFormed(spawned, ClearScratch(spawned));
      StepBranches(g, p, normalize);
    }
  }

  /** The arena Step returns is the spawned arena with the scratch cleared. */
  lemma StepBranches(g: Generator, p: Params, normalize: Vec3 -> Vec3)
    requires Valid(g) && |g.attractionPoints| > 0
    ensures Step(g, p, normalize).branches == ClearScratch(Spawned(g, p, normalize))
  {
  }

  /** The spawn loop leaves every existing field but the child lists as
      registration set it. */
  lemma SpawnedKeepsFields(g: Generator, p: Params, normalize: Vec3 -> Vec3)
    requires Valid(g)
    ensures var sp := Spawned(g, p, normalize);
      forall i :: 0 <= i < |g.branches| ==>
        sp[i] == g.branches[i].(pointsInRange := Pulls(g, p, i), children := sp[i].children)
  {
    GrownKeepsExisting(g, p);
    SpawnKeepsExisting(Grown(g, p), |g.branches|, p, normalize);
  }

  /** Child lists after the spawn loop: one entry more exactly for gated
      branches and for the branch carrying the fallback. */
  lemma SpawnedChildren(g: Generator, p: Params, normalize: Vec3 -> Vec3)
    requires Valid(g)
    ensures var sp := Spawned(g, p, normalize); var n0 := |g.branches|;
      && (forall i :: 0 <= i < n0 ==>
            (Gated(g, p, i) || (Bootstrapping(g, p) && i == n0 - 1) <==> |sp[i].children| == |g.branches[i].children| + 1))
      && (forall i :: 0 <= i < n0 && !Gated(g, p, i) && !(Bootstrapping(g, p) && i == n0 - 1) ==>
            sp[i].children == g.branches[i].children)
      && (forall i :: 0 <= i < n0 ==> sp[i].children[..|g.branches[i].children|] == g.branches[i].children)
  {
    if Bootstrapping(g, p) {
      BootstrapChildren(g, p, normalize);
    } else {
      GatedChildren(g, p, normalize);
    }
  }

  lemma BootstrapChildren(g: Generator, p: Params, normalize: Vec3 -> Vec3)
    requires Valid(g) && Bootstrapping(g, p)
    ensures var sp := Spawned(g, p, normalize); var n0 := |g.branches|;
      && sp[n0 - 1].children == [n0] && g.branches[n0 - 1].children == []
      && (forall i :: 0 <= i < n0 ==> !Gated(g, p, i))
      && (forall i :: 0 <= i < n0 - 1 ==> sp[i].children == g.branches[i].children)
  {
    var n0 := |g.branches|;
    var gr := Grown(g, p);
    GrownKeepsExisting(g, p);
    GrownBootstrap(g, p);
    LastIsChildless(g.branches);
    MaySpawnIffGated(g, p);
    PullsMeanAttraction(g, p);
    SpawnNothingGated(gr, n0, p, normalize);
  }

  lemma GatedChildren(g: Generator, p: Params, normalize: Vec3 -> Vec3)
    requires Valid(g) && !Bootstrapping(g, p)
    ensures var sp := Spawned(g, p, normalize); var n0 := |g.branches|;
      && (forall i :: 0 <= i < n0 ==>
            (Gated(g, p, i) <==> |sp[i].children| == |g.branches[i].children| + 1))
      && (forall i :: 0 <= i < n0 && !Gated(g, p, i) ==> sp[i].children == g.branches[i].children)
      && (forall i :: 0 <= i < n0 ==> sp[i].children[..|g.branches[i].children|] == g.branches[i].children)
  {
    var n0 := |g.branches|;
    var gr := Grown(g, p);
    GrownKeepsExisting(g, p);
    MaySpawnIffGated(g, p);
    SpawnKeepsExisting(gr, n0, p, normalize);
  }

  /** With no gated branch and no fallback, the spawn loop adds nothing. */
  lemma NothingGatedNothingSpawned(g: Generator, p: Params, normalize: Vec3 -> Vec3)
    requires Valid(g) && !Bootstrapping(g, p)
    requires forall q :: 0 <= q < |g.branches| ==> !Gated(g, p, q)
    ensures Spawned(g, p, normalize) == Registered(g, p)
  {
    MaySpawnIffGated(g, p);
    SpawnNothingGated(Grown(g, p), |g.branches|, p, normalize);
  }

  /** A point set out of reach attracts no branch. */
  lemma UnreachedAttractsNothing(g: Generator, p: Params, q: nat)
    requires Valid(g) && Unreached(g, p)
    ensures !Attracts(g, p, q)
  {
    forall i | 0 <= i < |g.attractionPoints|
      ensures !FirstNearest(Ends(g.branches), |g.branches|, g.attractionPoints[i].position, p.influenceDistance, q)
    {
      ScanFindsFirstNearest(Ends(g.branches), |g.branches|, g.attractionPoints[i].position, p.influenceDistance);
    }
  }

  /** An existing branch keeps everything but its child list. */
  lemma StepKeepsFields(g: Generator, p: Params, normalize: Vec3 -> Vec3)
    requires Valid(g) && |g.attractionPoints| > 0
    ensures var r := Step(g, p, normalize).branches; var n0 := |g.branches|;
      && n0 <= |r|
      && forall i :: 0 <= i < n0 ==> r[i] == g.branches[i].(children := r[i].children)
  {
    var sp := Spawned(g, p, normalize);
    var r := Step(g, p, normalize).branches;
    StepClears(g, p, normalize);
    SpawnedKeepsFields(g, p, normalize);
    forall i | 0 <= i < |g.branches|
      ensures r[i] == g.branches[i].(children := r[i].children)
    {
      assert g.branches[i].pointsInRange == [];
    }
  }

  /** The child list of an existing branch gains exactly one entry, at its
      end, when the branch is gated or carries the fallback, and is unchanged
      otherwise. */
  lemma StepChildLists(g: Generator, p: Params, normalize: Vec3 -> Vec3)
    requires Valid(g) && |g.attractionPoints| > 0
    ensures var r := Step(g, p, normalize).branches; var n0 := |g.branches|;
      && n0 <= |r|
      && (forall i :: 0 <= i < n0 ==>
            (Gated(g, p, i) || (Bootstrapping(g, p) && i == n0 - 1) <==> |r[i].children| == |g.branches[i].children| + 1))
      && (forall i :: 0 <= i < n0 && !Gated(g, p, i) && !(Bootstrapping(g, p) && i == n0 - 1) ==>
            r[i].children == g.branches[i].children)
      && (forall i :: 0 <= i < n0 ==>
            |g.branches[i].children| <= |r[i].children| && r[i].children[..|g.branches[i].children|] == g.branches[i].children)
  {
    StepClears(g, p, normalize);
    SpawnedChildren(g, p, normalize);
  }

  /** With the fallback no branch has a registered position, so the spawn
      loop leaves the grown arena as it is. */
  lemma BootstrapSpawnsNothing(g: Generator, p: Params, normalize: Vec3 -> Vec3)
    requires Valid(g) && Bootstrapping(g, p)
    ensures Spawned(g, p, normalize) == Grown(g, p)
  {
    var n0 := |g.branches|;
    var gr := Grown(g, p);
    GrownKeepsExisting(g, p);
    GrownBootstrap(g, p);
    forall i | 0 <= i < n0
      ensures !MaySpawn(gr[i])
    {
      assert gr[i].pointsInRange == Pulls(g, p, i) == [];
    }
    SpawnNothingGated(gr, n0, p, normalize);
  }

  /** With the fallback, the spawn loop adds nothing beyond the fallback branch. */
  lemma SpawnedBootstrap(g: Generator, p: Params, normalize: Vec3 -> Vec3)
    requires Valid(g) && Bootstrapping(g, p)
    ensures var sp := Spawned(g, p, normalize); var n0 := |g.branches|;
      && |sp| == n0 + 1
      && sp[n0].parent == n0 - 1 && sp[n0].direction == Up
      && sp[n0].start == EndPos(g.branches[n0 - 1])
  {
    GrownBootstrap(g, p);
    BootstrapSpawnsNothing(g, p, normalize);
  }

  /** Outside the fallback, each new branch hangs off a gated branch, starts
      at its end and points along the normalised sum of its pulls. */
  lemma SpawnedGated(g: Generator, p: Params, normalize: Vec3 -> Vec3)
    requires Valid(g) && !Bootstrapping(g, p)
    ensures var sp := Spawned(g, p, normalize); var n0 := |g.branches|;
      forall k :: n0 <= k < |sp| ==>
        var q := sp[k].parent;
        && Gated(g, p, q)
        && sp[k].start == EndPos(g.branches[q])
        && sp[k].direction == normalize(SumOfPulls(Pulls(g, p, q), EndPos(g.branches[q]), normalize))
  {
    var n0 := |g.branches|;
    var gr := Grown(g, p);
    var sp := Spawned(g, p, normalize);
    GrownKeepsExisting(g, p);
    assert |gr| == n0;
    SpawnAppends(gr, n0, p, normalize);
    MaySpawnIffGated(g, p);
    forall k | n0 <= k < |sp|
      ensures var q := sp[k].parent;
        && Gated(g, p, q)
        && sp[k].start == EndPos(g.branches[q])
        && sp[k].direction == normalize(SumOfPulls(Pulls(g, p, q), EndPos(g.branches[q]), normalize))
    {
      var q := sp[k].parent;
      assert MaySpawn(gr[q]);
      assert EndPos(gr[q]) == EndPos(g.branches[q]);
    }
  }

  /** Outside the fallback, the new branches come in the order of their parents. */
  lemma SpawnedOrdered(g: Generator, p: Params, normalize: Vec3 -> Vec3)
    requires Valid(g) && !Bootstrapping(g, p)
    ensures var sp := Spawned(g, p, normalize); var n0 := |g.branches|;
      forall k1, k2 :: n0 <= k1 < k2 < |sp| ==> sp[k1].parent < sp[k2].parent
  {
    GrownKeepsExisting(g, p);
    SpawnOrdered(Grown(g, p), |g.branches|, p, normalize);
  }

  /** Every new branch, the fallback one included, is fresh. */
  lemma SpawnedFresh(g: Generator, p: Params, normalize: Vec3 -> Vec3)
    requires Valid(g)
    ensures var sp := Spawned(g, p, normalize); var n0 := |g.branches|;
      forall k :: n0 <= k < |sp| ==>
        && sp[k].length == p.branchLength && sp[k].radius == p.branchRadius
        && sp[k].children == [] && sp[k].pointsInRange == []
  {
    var n0 := |g.branches|;
    var gr := Grown(g, p);
    GrownKeepsExisting(g, p);
    if Bootstrapping(g, p) {
      GrownBootstrap(g, p);
      BootstrapSpawnsNothing(g, p, normalize);
    } else {
      SpawnFresh(gr, n0, p, normalize);
    }
  }

  /** The branches one iteration appends. With the fallback it is the single
      upward branch on the last branch; otherwise one branch per gated branch,
      in the order of their parents, each starting at its parent's end and
      pointing along the normalised sum of the pulls of the points it attracts. */
  lemma StepAppends(g: Generator, p: Params, normalize: Vec3 -> Vec3)
    requires Valid(g) && |g.attractionPoints| > 0
    ensures var r := Step(g, p, normalize).branches; var n0 := |g.branches|;
      && (Bootstrapping(g, p) ==>
            && |r| == n0 + 1
            && r[n0].parent == n0 - 1 && r[n0].direction == Up
            && r[n0].start == EndPos(g.branches[n0 - 1]))
      && (!Bootstrapping(g, p) ==>
            && (forall k :: n0 <= k < |r| ==>
                  var q := r[k].parent;
                  && Gated(g, p, q)
                  && r[k].start == EndPos(g.branches[q])
                  && r[k].direction == normalize(SumOfPulls(Pulls(g, p, q), EndPos(g.branches[q]), normalize)))
            && (forall k1, k2 :: n0 <= k1 < k2 < |r| ==> r[k1].parent < r[k2].parent))
      && (forall k :: n0 <= k < |r| ==>
            r[k].length == p.branchLength && r[k].radius == p.branchRadius && r[k].children == [])
  {
    StepAppendsFresh(g, p, normalize);
    if Bootstrapping(g, p) {
      StepAppendsFallback(g, p, normalize);
    } else {
      StepAppendsGated(g, p, normalize);
    }
  }

  /** The arena Step returns agrees with the spawned arena but for the scratch lists. */
  lemma StepClears(g: Generator, p: Params, normalize: Vec3 -> Vec3)
    requires Valid(g) && |g.attractionPoints| > 0
    ensures var r := Step(g, p, normalize).branches; var sp := Spawned(g, p, normalize);
      |r| == |sp| && forall k :: 0 <= k < |r| ==> r[k] == sp[k].(pointsInRange := [])
  {
    StepBranches(g, p, normalize);
  }

  lemma StepAppendsFresh(g: Generator, p: Params, normalize: Vec3 -> Vec3)
    requires Valid(g) && |g.attractionPoints| > 0
    ensures var r := Step(g, p, normalize).branches; var n0 := |g.branches|;
      forall k :: n0 <= k < |r| ==>
        r[k].length == p.branchLength && r[k].radius == p.branchRadius && r[k].children == []
  {
    StepClears(g, p, normalize);
    SpawnedFresh(g, p, normalize);
  }

  lemma StepAppendsFallback(g: Generator, p: Params, normalize: Vec3 -> Vec3)
    requires Valid(g) && |g.attractionPoints| > 0 && Bootstrapping(g, p)
    ensures var r := Step(g, p, normalize).branches; var n0 := |g.branches|;
      && |r| == n0 + 1
      && r[n0].parent == n0 - 1 && r[n0].direction == Up
      && r[n0].start == EndPos(g.branches[n0 - 1])
  {
    StepClears(g, p, normalize);
    SpawnedBootstrap(g, p, normalize);
  }

  lemma StepAppendsGated(g: Generator, p: Params, normalize: Vec3 -> Vec3)
    requires Valid(g) && |g.attractionPoints| > 0 && !Bootstrapping(g, p)
    ensures var r := Step(g, p, normalize).branches; var n0 := |g.branches|;
      && (forall k :: n0 <= k < |r| ==>
            var q := r[k].parent;
            && Gated(g, p, q)
            && r[k].start == EndPos(g.branches[q])
            && r[k].direction == normalize(SumOfPulls(Pulls(g, p, q), EndPos(g.branches[q]), normalize)))
      && (forall k1, k2 :: n0 <= k1 < k2 < |r| ==> r[k1].parent < r[k2].parent)
  {
    StepClears(g, p, normalize);
    SpawnedGated(g, p, normalize);
    SpawnedOrdered(g, p, normalize);
  }

  /** The points that survive an iteration are exactly those no new branch
      end reaches within kill distance, in their original order, with their
      closest-branch references cleared. */
  lemma StepRemovesReached(g: Generator, p: Params, normalize: Vec3 -> Vec3)
    requires Valid(g) && |g.attractionPoints| > 0
    ensures var r := Step(g, p, normalize); var n0 := |g.branches|;
      && n0 <= |r.branches|
      && r.attractionPoints == Survivors(g.attractionPoints, Ends(r.branches[n0..]), p.killDistance)
  {
    var n0 := |g.branches|;
    var spawned := Spawned(g, p, normalize);
    var cleaned := ClearScratch(spawned);
    assert ResetClosest(Assignments(g, p)) == g.attractionPoints;
    assert Ends(spawned[n0..]) == Ends(cleaned[n0..]);
  }

  /** Progress: the point set never grows, and unless the step reports that
      it finished, the tree gained at least one branch. */
  lemma StepProgress(g: Generator, p: Params, normalize: Vec3 -> Vec3)
    requires Valid(g)
    ensures var r := Step(g, p, normalize);
      && |r.attractionPoints| <= |g.attractionPoints|
      && |g.branches| <= |r.branches|
      && (!r.finishedGenerating ==> |r.branches| > |g.branches|)
  {
    if |g.attractionPoints| > 0 {
      StepRemovesReached(g, p, normalize);
      SurvivorsShrink(g.attractionPoints, Ends(Step(g, p, normalize).branches[|g.branches|..]), p.killDistance);
    }
  }

  /** The upward fallback, in geometric terms: when no branch end lies within
      influence distance of any point, the first fourteen iterations grow the
      last branch straight up, the fifteenth adds nothing and so finishes,
      and later ones finish as well. */
  lemma StepFallback(g: Generator, p: Params, normalize: Vec3 -> Vec3)
    requires Valid(g) && |g.attractionPoints| > 0 && Unreached(g, p)
    ensures var r := Step(g, p, normalize); var n0 := |g.branches|; var it := g.iterationCount + 1;
      && (it < BootstrapIterations ==>
            && |r.branches| == n0 + 1 && r.branches[n0].parent == n0 - 1 && r.branches[n0].direction == Up
            && r.finishedGenerating == g.finishedGenerating)
      && (it >= BootstrapIterations ==> |r.branches| == n0 && r.finishedGenerating)
  {
    var n0 := |g.branches|;
    PullsMeanAttraction(g, p);
    StepAppends(g, p, normalize);
    if !Bootstrapping(g, p) {
      forall q | 0 <= q < n0
        ensures !Gated(g, p, q)
      {
        UnreachedAttractsNothing(g, p, q);
      }
      NothingGatedNothingSpawned(g, p, normalize);
      StepBranches(g, p, normalize);
    }
  }
}
