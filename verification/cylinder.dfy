/** The capped cylinder of SCA_TreeGen/Assets/CreateCylinder.cs: an upper and
    a lower row of slices + 1 rim vertices, the two cap centres, side quads
    between the rows and a fan on each cap. The rim positions are cosine and
    sine of h * 2pi / slices and are modelled by role only. */
module Cylinder {
  import opened Loops

  /** A cylinder vertex by role: rim vertex h of the upper circle (radiusTop,
      at height) or the lower circle (radiusBottom, at 0), or a cap centre. */
  datatype CylinderVertex = Upper(h: nat) | Lower(h: nat) | TopCentre | BottomCentre

  /** The smallest and largest value of C#'s 16-bit `short`. */
  const ShortMin := -32768
  const ShortMax := 32767

  /** numVerticesPerRow = slices + 1: the seam vertex is repeated. */
  function RowLength(s: nat): nat
  {
    s + 1
  }

  /** The vertex buffer: the upper row, the lower row, then the top centre
      (0, height, 0) and the bottom centre (the origin). */
  function CylinderVertices(s: nat): seq<CylinderVertex>
  {
    seq(RowLength(s), (h: int) requires 0 <= h => Upper(h))
      + seq(RowLength(s), (h: int) requires 0 <= h => Lower(h))
      + [TopCentre, BottomCentre]
  }

  /** Side quad h: (lt, rt, lb) and (rt, rb, lb), lt and rt on the upper row,
      lb and rb below them on the lower row. */
  function SideQuad(s: nat, h: nat): seq<int>
  {
    var lt := h;
    var rt := h + 1;
    var lb := h + RowLength(s);
    var rb := h + 1 + RowLength(s);
    [lt, rt, lb, rt, rb, lb]
  }

  /** Top-cap triangle h: (lt, patchIndexTop, rt), patchIndexTop = 2 * (slices + 1). */
  function TopCap(s: nat, h: nat): seq<int>
  {
    [h, 2 * RowLength(s), h + 1]
  }

  /** Bottom-cap triangle h: (lb, rb, patchIndexBottom), patchIndexBottom = 2 * (slices + 1) + 1. */
  function BottomCap(s: nat, h: nat): seq<int>
  {
    [h + RowLength(s), h + 1 + RowLength(s), 2 * RowLength(s) + 1]
  }

  function SideBody(s: nat): nat -> seq<int>
  {
    (h: nat) => SideQuad(s, h)
  }

  function TopBody(s: nat): nat -> seq<int>
  {
    (h: nat) => TopCap(s, h)
  }

  function BottomBody(s: nat): nat -> seq<int>
  {
    (h: nat) => BottomCap(s, h)
  }

  /** The index buffer: the sides, then the top cap, then the bottom cap,
      each a loop over the slices. */
  function CylinderTriangles(s: nat): seq<int>
  {
    Loop(s, SideBody(s)) + Loop(s, TopBody(s)) + Loop(s, BottomBody(s))
  }

  /** numVertices = numVerticesPerRow * 2 + 2. */
  lemma CylinderVertexCount(s: nat)
    ensures |CylinderVertices(s)| == RowLength(s) * 2 + 2
  {
  }

  /** Upper rim vertex h sits at h, lower rim vertex h at slices + 1 + h, and
      the two centres at 2 * (slices + 1) and 2 * (slices + 1) + 1. */
  lemma CylinderVertexAt(s: nat, h: nat)
    requires h <= s
    ensures var v := CylinderVertices(s);
      && |v| == 2 * s + 4
      && v[h] == Upper(h) && v[s + 1 + h] == Lower(h)
      && v[2 * s + 2] == TopCentre && v[2 * s + 3] == BottomCentre
  {
  }

  /** Six side indices and three per cap for each slice: numIndices =
      slices * 2 * 6. */
  lemma CylinderIndexCount(s: nat)
    ensures |CylinderTriangles(s)| == s * 2 * 6
  {
    LoopLength(s, SideBody(s), 6);
    LoopLength(s, TopBody(s), 3);
    LoopLength(s, BottomBody(s), 3);
  }

  /** Side quad h occupies indices 6h .. 6h + 5. */
  lemma SideEntries(s: nat, h: nat)
    requires h < s
    ensures var t := CylinderTriangles(s);
      && 6 * h + 5 < |t|
      && t[6 * h] == h && t[6 * h + 1] == h + 1 && t[6 * h + 2] == h + s + 1
      && t[6 * h + 3] == h + 1 && t[6 * h + 4] == h + s + 2 && t[6 * h + 5] == h + s + 1
  {
    SideAt(s, h, 0);
    SideAt(s, h, 1);
    SideAt(s, h, 2);
    SideAt(s, h, 3);
    SideAt(s, h, 4);
    SideAt(s, h, 5);
  }

  lemma SideAt(s: nat, h: nat, k: nat)
    requires h < s && k < 6
    ensures var t := CylinderTriangles(s); 6 * h + k < |t| && t[6 * h + k] == SideQuad(s, h)[k]
  {
    var side := Loop(s, SideBody(s));
    CylinderIndexCount(s);
    LoopAt(s, SideBody(s), 6, h, k);
    assert CylinderTriangles(s) == side + (Loop(s, TopBody(s)) + Loop(s, BottomBody(s)));
  }

  /** Top-cap triangle h follows the 6 * slices side indices. */
  lemma TopEntries(s: nat, h: nat, at: nat)
    requires h < s && at == 6 * s + 3 * h
    ensures var t := CylinderTriangles(s);
      && at + 2 < |t|
      && t[at] == h && t[at + 1] == 2 * s + 2 && t[at + 2] == h + 1
  {
    var side := Loop(s, SideBody(s));
    var top := Loop(s, TopBody(s));
    CylinderIndexCount(s);
    LoopLength(s, SideBody(s), 6);
    LoopLength(s, TopBody(s), 3);
    assert CylinderTriangles(s) == side + top + Loop(s, BottomBody(s));
    LoopAt(s, TopBody(s), 3, h, 0);
    LoopAt(s, TopBody(s), 3, h, 1);
    LoopAt(s, TopBody(s), 3, h, 2);
    assert at - |side| == 3 * h;
  }

  /** Bottom-cap triangle h follows the side and top-cap indices. */
  lemma BottomEntries(s: nat, h: nat, at: nat)
    requires h < s && at == 9 * s + 3 * h
    ensures var t := CylinderTriangles(s);
      && at + 2 < |t|
      && t[at] == h + s + 1 && t[at + 1] == h + s + 2 && t[at + 2] == 2 * s + 3
  {
    var front := Loop(s, SideBody(s)) + Loop(s, TopBody(s));
    var bottom := Loop(s, BottomBody(s));
    CylinderIndexCount(s);
    LoopLength(s, SideBody(s), 6);
    LoopLength(s, TopBody(s), 3);
    LoopLength(s, BottomBody(s), 3);
    assert CylinderTriangles(s) == front + bottom;
    LoopAt(s, BottomBody(s), 3, h, 0);
    LoopAt(s, BottomBody(s), 3, h, 1);
    LoopAt(s, BottomBody(s), 3, h, 2);
    assert at - |front| == 3 * h;
  }

  /** Side quad h joins upper rim vertices h, h + 1 to the lower rim vertices
      below them: (Upper h, Upper h+1, Lower h) and (Upper h+1, Lower h+1, Lower h). */
  lemma SideQuadJoinsRows(s: nat, h: nat)
    requires h < s
    ensures var t := CylinderTriangles(s); var v := CylinderVertices(s);
      && 6 * h + 5 < |t|
      && (forall k :: 6 * h <= k < 6 * h + 6 ==> 0 <= t[k] < |v|)
      && v[t[6 * h]] == Upper(h) && v[t[6 * h + 1]] == Upper(h + 1) && v[t[6 * h + 2]] == Lower(h)
      && v[t[6 * h + 3]] == Upper(h + 1) && v[t[6 * h + 4]] == Lower(h + 1) && v[t[6 * h + 5]] == Lower(h)
  {
    SideEntries(s, h);
    CylinderVertexAt(s, h);
    CylinderVertexAt(s, h + 1);
  }

  /** Top-cap triangle h is (Upper h, TopCentre, Upper h+1): patchIndexTop
      is exactly the top centre appended after the rows. */
  lemma TopCapMeetsCentre(s: nat, h: nat, at: nat)
    requires h < s && at == 6 * s + 3 * h
    ensures var t := CylinderTriangles(s); var v := CylinderVertices(s);
      && at + 2 < |t|
      && 0 <= t[at] < |v| && 0 <= t[at + 1] < |v| && 0 <= t[at + 2] < |v|
      && v[t[at]] == Upper(h) && v[t[at + 1]] == TopCentre && v[t[at + 2]] == Upper(h + 1)
  {
    TopEntries(s, h, at);
    CylinderVertexAt(s, h);
    CylinderVertexAt(s, h + 1);
  }

  /** Bottom-cap triangle h is (Lower h, Lower h+1, BottomCentre):
      patchIndexBottom is exactly the bottom centre. */
  lemma BottomCapMeetsCentre(s: nat, h: nat, at: nat)
    requires h < s && at == 9 * s + 3 * h
    ensures var t := CylinderTriangles(s); var v := CylinderVertices(s);
      && at + 2 < |t|
      && 0 <= t[at] < |v| && 0 <= t[at + 1] < |v| && 0 <= t[at + 2] < |v|
      && v[t[at]] == Lower(h) && v[t[at + 1]] == Lower(h + 1) && v[t[at + 2]] == BottomCentre
  {
    BottomEntries(s, h, at);
    CylinderVertexAt(s, h);
    CylinderVertexAt(s, h + 1);
  }

  /** Every index names a vertex, for every natural number of slices. */
  lemma CylinderInRange(s: nat)
    ensures AllIn(CylinderTriangles(s), 0, |CylinderVertices(s)|)
  {
    var n := |CylinderVertices(s)|;
    forall h | 0 <= h < s
      ensures AllIn(SideBody(s)(h), 0, n) && AllIn(TopBody(s)(h), 0, n) && AllIn(BottomBody(s)(h), 0, n)
    {
    }
    LoopAllIn(s, SideBody(s), 0, n);
    LoopAllIn(s, TopBody(s), 0, n);
    LoopAllIn(s, BottomBody(s), 0, n);
    AllInConcat(Loop(s, SideBody(s)), Loop(s, TopBody(s)), 0, n);
    AllInConcat(Loop(s, SideBody(s)) + Loop(s, TopBody(s)), Loop(s, BottomBody(s)), 0, n);
  }

  /** The `(short)` casts keep every index while the largest vertex index,
      2 * slices + 3, fits a short, that is up to 16382 slices. */
  lemma IndicesFitShort(s: nat)
    requires |CylinderVertices(s)| - 1 <= ShortMax
    ensures s <= 16382
    ensures AllIn(CylinderTriangles(s), ShortMin, ShortMax + 1)
  {
    CylinderInRange(s);
  }

  /** From 16383 slices on, patchIndexTop = 2 * (slices + 1) is at least
      32768, past the largest short. */
  lemma TopCentreLeavesShort(s: nat)
    requires s >= 16383
    ensures var t := CylinderTriangles(s); 6 * s + 1 < |t| && t[6 * s + 1] > ShortMax
  {
    TopEntries(s, 0, 6 * s);
  }
}
