/** The point-removal pass at the end of a growth iteration: every point's
    closest-branch reference is reset, and the points within the kill
    distance of a branch created in this iteration are deleted. */
module Removal {
  import opened Options
  import opened Vectors
  import opened Assignment

  /** List.RemoveAt */
  function RemoveAt<T>(xs: seq<T>, i: nat): (r: seq<T>)
    requires i < |xs|
    ensures |r| == |xs| - 1
  {
    xs[..i] + xs[i + 1..]
  }

  /** Successive List.RemoveAt calls, in the order given; None stands for the
      ArgumentOutOfRangeException of an index past the end. */
  function RemoveEach<T>(xs: seq<T>, indices: seq<nat>): Option<seq<T>>
    decreases |indices|
  {
    if |indices| == 0 then Some(xs)
    else if indices[0] < |xs| then RemoveEach(RemoveAt(xs, indices[0]), indices[1..])
    else None
  }

  /** Some new branch end lies within the kill distance of pos. */
  predicate Reached(pos: Vec3, newEnds: seq<Vec3>, kill: real)
  {
    exists j :: 0 <= j < |newEnds| && Within(newEnds[j], pos, kill)
  }

  /** The loop over newBranches: index i is recorded once per new branch end within the kill distance. */
  function Hits(i: nat, pos: Vec3, newEnds: seq<Vec3>, kill: real): seq<nat>
  {
    if |newEnds| == 0 then []
    else
      Hits(i, pos, newEnds[..|newEnds| - 1], kill) + if Within(newEnds[|newEnds| - 1], pos, kill) then [i] else []
  }

  /** pointsToDelete as the source builds it: i runs from m-1 down to 0. */
  function DeletionsAsWritten(points: seq<AttractionPoint>, newEnds: seq<Vec3>, kill: real, m: nat): seq<nat>
    requires m <= |points|
  {
    if m == 0 then []
    else Hits(m - 1, points[m - 1].position, newEnds, kill) + DeletionsAsWritten(points, newEnds, kill, m - 1)
  }

  /** pointsToDelete with each reached index recorded once. */
  function DeletionsOnce(points: seq<AttractionPoint>, newEnds: seq<Vec3>, kill: real, m: nat): seq<nat>
    requires m <= |points|
  {
    if m == 0 then []
    else
      var here := if Reached(points[m - 1].position, newEnds, kill) then [m - 1] else [];
      here + DeletionsOnce(points, newEnds, kill, m - 1)
  }

  /** The reset `SetClosestBranch(null)` applied to every point. */
  function ResetClosest(points: seq<AttractionPoint>): (r: seq<AttractionPoint>)
    ensures |r| == |points| && NoneClaimed(r)
    ensures forall i :: 0 <= i < |points| ==> r[i].position == points[i].position
  {
    seq(|points|, i requires 0 <= i < |points| => points[i].(closestBranch := None))
  }

  /** The points not reached by any new branch, in their original order. */
  function Survivors(points: seq<AttractionPoint>, newEnds: seq<Vec3>, kill: real): seq<AttractionPoint>
  {
    if |points| == 0 then []
    else
      var a := points[|points| - 1];
      Survivors(points[..|points| - 1], newEnds, kill) + if Reached(a.position, newEnds, kill) then [] else [a]
  }

  /** The removal pass exactly as written (Assets/CreateTree.cs and Assets/GenerateShape.cs). */
  function KillPassAsWritten(points: seq<AttractionPoint>, newEnds: seq<Vec3>, kill: real): Option<seq<AttractionPoint>>
  {
    var reset := ResetClosest(points);
    RemoveEach(reset, DeletionsAsWritten(reset, newEnds, kill, |reset|))
  }

  /** The removal pass with each reached point recorded once: it deletes
      exactly the reached points and keeps the others in order. */
  function KillPass(points: seq<AttractionPoint>, newEnds: seq<Vec3>, kill: real): (r: seq<AttractionPoint>)
    ensures r == Survivors(ResetClosest(points), newEnds, kill)
    ensures |r| <= |points| && NoneClaimed(r)
  {
    var reset := ResetClosest(points);
    DeletingOnceLeavesSurvivors(reset, newEnds, kill, |reset|, []);
    assert reset[..|reset|] + [] == reset;
    assert reset[..|reset|] == reset;
    assert Survivors(reset, newEnds, kill) + [] == Survivors(reset, newEnds, kill);
    SurvivorsShrink(reset, newEnds, kill);
    RemoveEach(reset, DeletionsOnce(reset, newEnds, kill, |reset|)).value
  }

  lemma {:induction false} SurvivorsShrink(points: seq<AttractionPoint>, newEnds: seq<Vec3>, kill: real)
    ensures |Survivors(points, newEnds, kill)| <= |points|
    ensures forall i :: 0 <= i < |Survivors(points, newEnds, kill)| ==>
      Survivors(points, newEnds, kill)[i] in points
  {
    if |points| > 0 {
      var init := points[..|points| - 1];
      SurvivorsShrink(init, newEnds, kill);
      assert forall a :: a in init ==> a in points;
    }
  }

  /** Removing the once-recorded indices, highest first, from points[..m] + rest
      leaves the survivors of points[..m] followed by rest untouched. */
  lemma {:induction false} DeletingOnceLeavesSurvivors(points: seq<AttractionPoint>, newEnds: seq<Vec3>, kill: real,
                                                       m: nat, rest: seq<AttractionPoint>)
    requires m <= |points|
    ensures RemoveEach(points[..m] + rest, DeletionsOnce(points, newEnds, kill, m))
         == Some(Survivors(points[..m], newEnds, kill) + rest)
  {
    if m == 0 {
      assert points[..0] + rest == rest;
    } else {
      var a := points[m - 1];
      var init := points[..m - 1];
      assert points[..m][..m - 1] == init;
      assert points[..m] + rest == init + ([a] + rest);
      var tail := DeletionsOnce(points, newEnds, kill, m - 1);
      var d := DeletionsOnce(points, newEnds, kill, m);
      var x := points[..m] + rest;
      if Reached(a.position, newEnds, kill) {
        assert d == [m - 1] + tail;
        assert d[0] == m - 1 && d[1..] == tail;
        assert RemoveAt(x, m - 1) == init + rest;
        assert RemoveEach(x, d) == RemoveEach(init + rest, tail);
        DeletingOnceLeavesSurvivors(points, newEnds, kill, m - 1, rest);
        assert Survivors(points[..m], newEnds, kill) == Survivors(init, newEnds, kill);
      } else {
        assert d == tail;
        DeletingOnceLeavesSurvivors(points, newEnds, kill, m - 1, [a] + rest);
        assert Survivors(points[..m], newEnds, kill) == Survivors(init, newEnds, kill) + [a];
        assert Survivors(init, newEnds, kill) + ([a] + rest) == Survivors(init, newEnds, kill) + [a] + rest;
      }
    }
  }

  lemma {:induction false} HitsCountReached(i: nat, pos: Vec3, newEnds: seq<Vec3>, kill: real)
    ensures |Hits(i, pos, newEnds, kill)| > 0 <==> Reached(pos, newEnds, kill)
    ensures forall k :: 0 <= k < |Hits(i, pos, newEnds, kill)| ==> Hits(i, pos, newEnds, kill)[k] == i
  {
    if |newEnds| > 0 {
      var init := newEnds[..|newEnds| - 1];
      HitsCountReached(i, pos, init, kill);
      if Reached(pos, init, kill) {
        var j :| 0 <= j < |init| && Within(init[j], pos, kill);
        assert newEnds[j] == init[j];
      }
      if Reached(pos, newEnds, kill) && !Within(newEnds[|newEnds| - 1], pos, kill) {
        var j :| 0 <= j < |newEnds| && Within(newEnds[j], pos, kill);
        assert init[j] == newEnds[j];
      }
    }
  }

  /** Two distinct new branch ends lie within the kill distance of pos. */
  predicate ReachedTwice(pos: Vec3, newEnds: seq<Vec3>, kill: real)
  {
    exists j1, j2 :: 0 <= j1 < j2 < |newEnds| && Within(newEnds[j1], pos, kill) && Within(newEnds[j2], pos, kill)
  }

  /** Index i is recorded at least twice exactly when two distinct new branch
      ends are within the kill distance of its point. */
  lemma {:induction false} HitsTwiceIffReachedTwice(i: nat, pos: Vec3, newEnds: seq<Vec3>, kill: real)
    ensures |Hits(i, pos, newEnds, kill)| >= 2 <==> ReachedTwice(pos, newEnds, kill)
  {
    if |newEnds| > 0 {
      var n := |newEnds|;
      var init := newEnds[..n - 1];
      var lastIn := Within(newEnds[n - 1], pos, kill);
      HitsTwiceIffReachedTwice(i, pos, init, kill);
      HitsCountReached(i, pos, init, kill);
      assert |Hits(i, pos, newEnds, kill)| == |Hits(i, pos, init, kill)| + if lastIn then 1 else 0;
      if |Hits(i, pos, newEnds, kill)| >= 2 {
        if |Hits(i, pos, init, kill)| >= 2 {
          var j1, j2 :| 0 <= j1 < j2 < |init| && Within(init[j1], pos, kill) && Within(init[j2], pos, kill);
          assert newEnds[j1] == init[j1] && newEnds[j2] == init[j2];
        } else {
          var j1 :| 0 <= j1 < |init| && Within(init[j1], pos, kill);
          assert newEnds[j1] == init[j1];
          assert Within(newEnds[j1], pos, kill) && Within(newEnds[n - 1], pos, kill);
        }
      }
      if ReachedTwice(pos, newEnds, kill) {
        var j1, j2 :| 0 <= j1 < j2 < n && Within(newEnds[j1], pos, kill) && Within(newEnds[j2], pos, kill);
        assert init[j1] == newEnds[j1];
        if j2 < n - 1 {
          assert init[j2] == newEnds[j2];
          assert ReachedTwice(pos, init, kill);
        } else {
          assert Reached(pos, init, kill);
        }
      }
    }
  }

  /** When no point is within the kill distance of two new branches, the
      source's deletion list records each reached index once. */
  lemma {:induction false} SingleHitsAgree(points: seq<AttractionPoint>, newEnds: seq<Vec3>, kill: real, m: nat)
    requires m <= |points|
    requires forall i :: 0 <= i < m ==> |Hits(i, points[i].position, newEnds, kill)| <= 1
    ensures DeletionsAsWritten(points, newEnds, kill, m) == DeletionsOnce(points, newEnds, kill, m)
  {
    if m > 0 {
      SingleHitsAgree(points, newEnds, kill, m - 1);
      var h := Hits(m - 1, points[m - 1].position, newEnds, kill);
      HitsCountReached(m - 1, points[m - 1].position, newEnds, kill);
      if |h| == 1 {
        assert h[0] == m - 1;
        assert h == [m - 1];
      }
    }
  }

  /** Under the same condition the source's pass and the corrected pass agree. */
  lemma AsWrittenAgreesOnSingleHits(points: seq<AttractionPoint>, newEnds: seq<Vec3>, kill: real)
    requires forall i :: 0 <= i < |points| ==> |Hits(i, points[i].position, newEnds, kill)| <= 1
    ensures KillPassAsWritten(points, newEnds, kill) == Some(KillPass(points, newEnds, kill))
  {
    var reset := ResetClosest(points);
    SingleHitsAgree(reset, newEnds, kill, |reset|);
    DeletingOnceLeavesSurvivors(reset, newEnds, kill, |reset|, []);
    assert reset[..|reset|] + [] == reset;
    assert reset[..|reset|] == reset;
    assert Survivors(reset, newEnds, kill) + [] == Survivors(reset, newEnds, kill);
  }

  /** Each successful List.RemoveAt removes one element. */
  lemma {:induction false} RemoveEachLength<T>(xs: seq<T>, indices: seq<nat>)
    ensures RemoveEach(xs, indices).Some? ==> |RemoveEach(xs, indices).value| == |xs| - |indices|
    decreases |indices|
  {
    if |indices| > 0 && indices[0] < |xs| {
      RemoveEachLength(RemoveAt(xs, indices[0]), indices[1..]);
    }
  }

  /** Point i is within the kill distance of at least two new branch ends. */
  predicate HitTwice(points: seq<AttractionPoint>, newEnds: seq<Vec3>, kill: real, i: nat)
  {
    i < |points| && |Hits(i, points[i].position, newEnds, kill)| >= 2
  }

  /** Point m - 1 adds its hits to the source's list and one entry, if it
      is reached at all, to the once-recorded list. */
  lemma DeletionLengths(points: seq<AttractionPoint>, newEnds: seq<Vec3>, kill: real, m: nat)
    requires 0 < m <= |points|
    ensures var h := |Hits(m - 1, points[m - 1].position, newEnds, kill)|;
      && |DeletionsAsWritten(points, newEnds, kill, m)| == h + |DeletionsAsWritten(points, newEnds, kill, m - 1)|
      && |DeletionsOnce(points, newEnds, kill, m)| == (if h > 0 then 1 else 0) + |DeletionsOnce(points, newEnds, kill, m - 1)|
  {
    var pos := points[m - 1].position;
    HitsCountReached(m - 1, pos, newEnds, kill);
    var here := if Reached(pos, newEnds, kill) then [m - 1] else [];
    assert DeletionsOnce(points, newEnds, kill, m) == here + DeletionsOnce(points, newEnds, kill, m - 1);
    assert DeletionsAsWritten(points, newEnds, kill, m)
        == Hits(m - 1, pos, newEnds, kill) + DeletionsAsWritten(points, newEnds, kill, m - 1);
  }

  /** The source's deletion list is never shorter than the once-recorded
      list, and strictly longer once a point below m is hit twice. */
  lemma {:induction false} AsWrittenRecordsMore(points: seq<AttractionPoint>, newEnds: seq<Vec3>, kill: real,
                                                m: nat, i: nat)
    requires m <= |points|
    ensures |DeletionsOnce(points, newEnds, kill, m)| <= |DeletionsAsWritten(points, newEnds, kill, m)|
    ensures i < m && HitTwice(points, newEnds, kill, i) ==>
      |DeletionsOnce(points, newEnds, kill, m)| < |DeletionsAsWritten(points, newEnds, kill, m)|
  {
    if m > 0 {
      AsWrittenRecordsMore(points, newEnds, kill, m - 1, i);
      DeletionLengths(points, newEnds, kill, m);
    }
  }

  /** The corrected pass always succeeds and keeps |points| minus the number
      of reached points. */
  lemma KillPassByOnce(points: seq<AttractionPoint>, newEnds: seq<Vec3>, kill: real)
    ensures var reset := ResetClosest(points); var once := DeletionsOnce(reset, newEnds, kill, |reset|);
      && RemoveEach(reset, once) == Some(KillPass(points, newEnds, kill))
      && |KillPass(points, newEnds, kill)| == |points| - |once|
  {
    var reset := ResetClosest(points);
    DeletingOnceLeavesSurvivors(reset, newEnds, kill, |reset|, []);
    assert reset[..|reset|] + [] == reset;
    assert reset[..|reset|] == reset;
    assert Survivors(reset, newEnds, kill) + [] == Survivors(reset, newEnds, kill);
    RemoveEachLength(reset, DeletionsOnce(reset, newEnds, kill, |reset|));
  }

  /** A point within the kill distance of two new branch ends makes the
      source's pass differ from the corrected one: it either throws or
      deletes more points than were reached. */
  lemma DoubleHitDiverges(points: seq<AttractionPoint>, newEnds: seq<Vec3>, kill: real, i: nat)
    requires HitTwice(points, newEnds, kill, i)
    ensures KillPassAsWritten(points, newEnds, kill) != Some(KillPass(points, newEnds, kill))
    ensures KillPassAsWritten(points, newEnds, kill).Some? ==>
      |KillPassAsWritten(points, newEnds, kill).value| < |KillPass(points, newEnds, kill)|
  {
    var reset := ResetClosest(points);
    assert HitTwice(reset, newEnds, kill, i);
    AsWrittenRecordsMore(reset, newEnds, kill, |reset|, i);
    RemoveEachLength(reset, DeletionsAsWritten(reset, newEnds, kill, |reset|));
    KillPassByOnce(points, newEnds, kill);
  }

  /** The source's pass agrees with the corrected one exactly when no point
      is within the kill distance of two new branch ends. */
  lemma AsWrittenAgreesIffSingleHits(points: seq<AttractionPoint>, newEnds: seq<Vec3>, kill: real)
    ensures KillPassAsWritten(points, newEnds, kill) == Some(KillPass(points, newEnds, kill))
      <==> forall i :: 0 <= i < |points| ==> |Hits(i, points[i].position, newEnds, kill)| <= 1
    ensures KillPassAsWritten(points, newEnds, kill) == Some(KillPass(points, newEnds, kill))
      <==> forall i :: 0 <= i < |points| ==> !ReachedTwice(points[i].position, newEnds, kill)
  {
    forall i | 0 <= i < |points|
      ensures |Hits(i, points[i].position, newEnds, kill)| <= 1 <==> !ReachedTwice(points[i].position, newEnds, kill)
    {
      HitsTwiceIffReachedTwice(i, points[i].position, newEnds, kill);
    }
    if forall i :: 0 <= i < |points| ==> |Hits(i, points[i].position, newEnds, kill)| <= 1 {
      AsWrittenAgreesOnSingleHits(points, newEnds, kill);
    } else {
      var i :| 0 <= i < |points| && |Hits(i, points[i].position, newEnds, kill)| > 1;
      DoubleHitDiverges(points, newEnds, kill, i);
    }
  }

  /** Two new branch ends at the same place e: a point within the kill
      distance of e is hit twice, any other point never. */
  lemma TwoEqualEnds(i: nat, pos: Vec3, e: Vec3, kill: real)
    ensures Hits(i, pos, [e, e], kill) == if Within(e, pos, kill) then [i, i] else []
    ensures Reached(pos, [e, e], kill) <==> Within(e, pos, kill)
  {
    var ends := [e, e];
    assert ends[..1] == [e];
    assert [e][..0] == [];
    assert Hits(i, pos, [e], kill) == if Within(e, pos, kill) then [i] else [];
    if Reached(pos, ends, kill) {
      var j :| 0 <= j < |ends| && Within(ends[j], pos, kill);
      assert ends[j] == e;
    }
    if Within(e, pos, kill) {
      assert Within(ends[0], pos, kill);
    }
  }

  lemma ResetKeepsUnclaimed(points: seq<AttractionPoint>)
    requires NoneClaimed(points)
    ensures ResetClosest(points) == points
  {
  }

  /** Point b, last in the list, is reached by both new branches and point a by
      neither: the source records index 1 twice, so its second RemoveAt runs
      past the end of the one-element list, while the corrected pass keeps a. */
  lemma DoubleHitThrows(a: AttractionPoint, b: AttractionPoint, e: Vec3, kill: real)
    requires a.closestBranch == None && b.closestBranch == None
    requires !Within(e, a.position, kill) && Within(e, b.position, kill)
    ensures KillPassAsWritten([a, b], [e, e], kill) == None
    ensures KillPass([a, b], [e, e], kill) == [a]
  {
    var points := [a, b];
    ResetKeepsUnclaimed(points);
    TwoEqualEnds(0, a.position, e, kill);
    TwoEqualEnds(1, b.position, e, kill);
    assert DeletionsAsWritten(points, [e, e], kill, 1) == [];
    assert DeletionsAsWritten(points, [e, e], kill, 2) == [1, 1];
    assert RemoveAt(points, 1) == [a];
    assert [1, 1][1..] == [1];
    assert RemoveEach(points, [1, 1]) == None;
    assert points[..1] == [a];
    assert [a][..0] == [];
    assert Survivors([a], [e, e], kill) == [a];
    assert Survivors(points, [e, e], kill) == [a];
  }

  /** Point a, first in the list, is reached by both new branches and point b
      by neither: the second RemoveAt(0) deletes b instead, while the
      corrected pass keeps b. */
  lemma DoubleHitDeletesNeighbour(a: AttractionPoint, b: AttractionPoint, e: Vec3, kill: real)
    requires a.closestBranch == None && b.closestBranch == None
    requires Within(e, a.position, kill) && !Within(e, b.position, kill)
    ensures KillPassAsWritten([a, b], [e, e], kill) == Some([])
    ensures KillPass([a, b], [e, e], kill) == [b]
  {
    var points := [a, b];
    ResetKeepsUnclaimed(points);
    TwoEqualEnds(0, a.position, e, kill);
    TwoEqualEnds(1, b.position, e, kill);
    assert DeletionsAsWritten(points, [e, e], kill, 1) == [0, 0];
    assert DeletionsAsWritten(points, [e, e], kill, 2) == [0, 0];
    assert RemoveAt(points, 0) == [b];
    assert [0, 0][1..] == [0];
    assert RemoveAt([b], 0) == [];
    assert [0][1..] == [];
    assert RemoveEach([b], [0]) == Some([]);
    assert points[..1] == [a];
    assert [a][..0] == [];
    assert Survivors([a], [e, e], kill) == [];
    assert Survivors(points, [e, e], kill) == [b];
  }

  /** Both situations arise: with the origin as the doubled new end and kill
      distance 1, a point at the origin is hit twice and a point at
      (10, 0, 0) never. Listed after the far point, the origin's second
      RemoveAt throws; listed before it, the second RemoveAt(0) deletes the
      far point, which the corrected pass keeps. */
  lemma DoubleHitsHappen()
    ensures var near := AttractionPoint(Zero, None); var far := AttractionPoint(Vec3(10.0, 0.0, 0.0), None);
      && KillPassAsWritten([far, near], [Zero, Zero], 1.0) == None
      && KillPassAsWritten([near, far], [Zero, Zero], 1.0) == Some([])
      && KillPass([near, far], [Zero, Zero], 1.0) == [far]
  {
    var near := AttractionPoint(Zero, None);
    var far := AttractionPoint(Vec3(10.0, 0.0, 0.0), None);
    assert Zero.x - far.position.x == -10.0 && Zero.y - far.position.y == 0.0 && Zero.z - far.position.z == 0.0;
    assert (-10.0) * (-10.0) == 100.0;
    assert DistSq(Zero, far.position) == 100.0;
    assert DistSq(Zero, near.position) == 0.0;
    DoubleHitThrows(far, near, Zero, 1.0);
    DoubleHitDeletesNeighbour(near, far, Zero, 1.0);
  }
}
