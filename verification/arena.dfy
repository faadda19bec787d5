/** The branch list of the growth simulation as an arena: branches are
    addressed by their index in creation order, and the parent and child links
    are indices. The root sits at index 0 and is its own parent. */
module Arena {
  import opened Vectors

  /** A branch segment. `pointsInRange` is per-iteration scratch and
      `startingIndex` is set only by the mesh builder. */
  datatype Branch = Branch(
    start: Vec3,
    direction: Vec3,
    length: real,
    radius: real,
    parent: nat,
    children: seq<nat>,
    pointsInRange: seq<Vec3>,
    startingIndex: int)

  /** endPos = startPos + direction * length, computed once in both constructors. */
  function EndPos(b: Branch): Vec3
  {
    Add(b.start, Scale(b.direction, b.length))
  }

  /** Every non-root branch comes after its parent; the root is its own parent. */
  predicate ParentsPrecede(bs: seq<Branch>)
  {
    && |bs| >= 1
    && bs[0].parent == 0
    && (forall i :: 0 < i < |bs| ==> bs[i].parent < i)
  }

  /** Every non-root branch starts where its parent ends. */
  predicate Attached(bs: seq<Branch>)
    requires ParentsPrecede(bs)
  {
    forall i :: 0 < i < |bs| ==> bs[i].start == EndPos(bs[bs[i].parent])
  }

  /** Each child list holds exactly the branches naming that parent, in creation order. */
  predicate ChildListsExact(bs: seq<Branch>)
  {
    && (forall i, k :: 0 <= i < |bs| && 0 <= k < |bs[i].children| ==>
          i < bs[i].children[k] < |bs| && bs[bs[i].children[k]].parent == i)
    && (forall i, k1, k2 :: 0 <= i < |bs| && 0 <= k1 < k2 < |bs[i].children| ==>
          bs[i].children[k1] < bs[i].children[k2])
    && (forall j :: 0 < j < |bs| && bs[j].parent < |bs| ==> j in bs[bs[j].parent].children)
  }

  predicate WellFormed(bs: seq<Branch>)
  {
    ParentsPrecede(bs) && Attached(bs) && ChildListsExact(bs)
  }

  /** Two arenas that differ at most in the per-iteration scratch lists. */
  predicate SameShape(a: seq<Branch>, b: seq<Branch>)
  {
    |a| == |b| && forall i :: 0 <= i < |a| ==> b[i] == a[i].(pointsInRange := b[i].pointsInRange)
  }

  /** `new Branch(startPos, direction, length, radius)`: the root constructor. */
  function NewRoot(start: Vec3, direction: Vec3, length: real, radius: real): (b: Branch)
    ensures WellFormed([b])
    ensures b.start == start && EndPos(b) == Add(start, Scale(direction, length))
    ensures b.children == [] && b.pointsInRange == []
  {
    Branch(start, direction, length, radius, 0, [], [], 0)
  }

  /** `new Branch(parent, direction, length, radius)`, with the new branch
      appended to the arena: it starts at the parent's end, and the parent's
      child list gains its index. */
  function AddChild(bs: seq<Branch>, p: nat, direction: Vec3, length: real, radius: real): (r: seq<Branch>)
    requires p < |bs|
    ensures |r| == |bs| + 1
    ensures r[|bs|].start == EndPos(bs[p])
    ensures EndPos(r[|bs|]) == Add(EndPos(bs[p]), Scale(direction, length))
    ensures r[|bs|].parent == p && r[|bs|].children == [] && r[|bs|].pointsInRange == []
    ensures r[|bs|].direction == direction && r[|bs|].length == length && r[|bs|].radius == radius
    ensures r[p] == bs[p].(children := bs[p].children + [|bs|])
    ensures forall i :: 0 <= i < |bs| && i != p ==> r[i] == bs[i]
  {
    var child := Branch(EndPos(bs[p]), direction, length, radius, p, [], [], 0);
    bs[p := bs[p].(children := bs[p].children + [|bs|])] + [child]
  }

  /** Appending a child keeps the arena well formed. */
  lemma AddChildKeepsWellFormed(bs: seq<Branch>, p: nat, direction: Vec3, length: real, radius: real)
    requires WellFormed(bs) && p < |bs|
    ensures WellFormed(AddChild(bs, p, direction, length, radius))
  {
    var r := AddChild(bs, p, direction, length, radius);
    assert ParentsPrecede(r);
    AddChildKeepsAttached(bs, p, r);
    AddChildKeepsChildLists(bs, p, r);
  }

  lemma AddChildKeepsAttached(bs: seq<Branch>, p: nat, r: seq<Branch>)
    requires WellFormed(bs) && p < |bs|
    requires |r| == |bs| + 1 && r[|bs|].parent == p && r[|bs|].start == EndPos(bs[p])
    requires r[p] == bs[p].(children := r[p].children)
    requires forall i :: 0 <= i < |bs| && i != p ==> r[i] == bs[i]
    ensures ParentsPrecede(r) && Attached(r)
  {
    forall i | 0 < i < |r|
      ensures r[i].start == EndPos(r[r[i].parent])
    {
      if i < |bs| {
        assert EndPos(r[bs[i].parent]) == EndPos(bs[bs[i].parent]);
      }
    }
  }

  lemma AddChildKeepsChildLists(bs: seq<Branch>, p: nat, r: seq<Branch>)
    requires WellFormed(bs) && p < |bs|
    requires |r| == |bs| + 1 && r[|bs|].parent == p && r[|bs|].children == []
    requires r[p] == bs[p].(children := bs[p].children + [|bs|])
    requires forall i :: 0 <= i < |bs| && i != p ==> r[i] == bs[i]
    ensures ChildListsExact(r)
  {
    forall i, k | 0 <= i < |r| && 0 <= k < |r[i].children|
      ensures i < r[i].children[k] < |r| && r[r[i].children[k]].parent == i
    {
      if i < |bs| && !(i == p && k == |bs[p].children|) {
        assert r[i].children[k] == bs[i].children[k];
      }
    }
    forall i, k1, k2 | 0 <= i < |r| && 0 <= k1 < k2 < |r[i].children|
      ensures r[i].children[k1] < r[i].children[k2]
    {
      if i < |bs| && i == p && k2 == |bs[p].children| {
        assert r[i].children[k1] == bs[i].children[k1];
      } else if i < |bs| {
        assert r[i].children[k1] == bs[i].children[k1];
        assert r[i].children[k2] == bs[i].children[k2];
      }
    }
    forall j | 0 < j < |r| && r[j].parent < |r|
      ensures j in r[r[j].parent].children
    {
      if j < |bs| {
        assert j in bs[bs[j].parent].children;
      } else {
        assert r[p].children[|bs[p].children|] == j;
      }
    }
  }

  /** The most recently created branch has no children yet. */
  lemma {:induction false} LastIsChildless(bs: seq<Branch>)
    requires WellFormed(bs)
    ensures bs[|bs| - 1].children == []
  {
    var last := |bs| - 1;
    if |bs[last].children| > 0 {
      ChildComesLater(bs, last, 0);
      assert false;
    }
  }

  lemma ChildComesLater(bs: seq<Branch>, i: nat, k: nat)
    requires WellFormed(bs) && i < |bs| && k < |bs[i].children|
    ensures i < bs[i].children[k] < |bs|
  {
  }

  /** Scratch lists do not take part in well-formedness. */
  lemma SameShapeKeepsWellFormed(a: seq<Branch>, b: seq<Branch>)
    requires SameShape(a, b) && WellFormed(a)
    ensures WellFormed(b)
  {
    forall i | 0 < i < |b|
      ensures b[i].start == EndPos(b[b[i].parent])
    {
      assert a[i].start == EndPos(a[a[i].parent]);
    }
    forall i, k | 0 <= i < |b| && 0 <= k < |b[i].children|
      ensures i < b[i].children[k] < |b| && b[b[i].children[k]].parent == i
    {
      assert b[i].children[k] == a[i].children[k];
    }
    forall j | 0 < j < |b| && b[j].parent < |b|
      ensures j in b[b[j].parent].children
    {
      assert j in a[a[j].parent].children;
    }
  }
}
