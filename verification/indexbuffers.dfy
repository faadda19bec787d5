/** The two triangle patterns the tree mesh builders emit per slice: a cap
    fan round a centre vertex and a quad band between two rings. */
module IndexBuffers {
  import opened Loops

  function FanBody(c: int, b: int): nat -> seq<int>
  {
    j => [c, b + j + 1, b + j]
  }

  /** `for (j = 0; j < s; j++) add(c, b + j + 1, b + j)`: s triangles round
      centre c over the ring whose first vertex is b. */
  function Fan(c: int, b: int, s: nat): seq<int>
  {
    Loop(s, FanBody(c, b))
  }

  /** Triangle j of a fan is (c, b + j + 1, b + j). */
  lemma FanShape(c: int, b: int, s: nat)
    ensures |Fan(c, b, s)| == 3 * s
    ensures forall j :: 0 <= j < s ==>
      Fan(c, b, s)[3 * j] == c && Fan(c, b, s)[3 * j + 1] == b + j + 1 && Fan(c, b, s)[3 * j + 2] == b + j
  {
    LoopLength(s, FanBody(c, b), 3);
    forall j | 0 <= j < s
      ensures Fan(c, b, s)[3 * j] == c && Fan(c, b, s)[3 * j + 1] == b + j + 1 && Fan(c, b, s)[3 * j + 2] == b + j
    {
      LoopAt(s, FanBody(c, b), 3, j, 0);
      LoopAt(s, FanBody(c, b), 3, j, 1);
      LoopAt(s, FanBody(c, b), 3, j, 2);
    }
  }

  /** A fan stays inside [lo, hi) when its centre and its ring b..b+s do. */
  lemma FanInRange(c: int, b: int, s: nat, lo: int, hi: int)
    requires lo <= c < hi && lo <= b && b + s < hi
    ensures AllIn(Fan(c, b, s), lo, hi)
  {
    forall j | 0 <= j < s
      ensures AllIn(FanBody(c, b)(j), lo, hi)
    {
    }
    LoopAllIn(s, FanBody(c, b), lo, hi);
  }

  function QuadBody(b: int, t: int): nat -> seq<int>
  {
    j => [b + j, t + j, b + j + 1, b + j + 1, t + j, t + j + 1]
  }

  /** The stitching loop: for each slice j, triangles (b+j, t+j, b+j+1) and
      (b+j+1, t+j, t+j+1) joining the ring at b to the ring at t. */
  function Band(b: int, t: int, s: nat): seq<int>
  {
    Loop(s, QuadBody(b, t))
  }

  lemma BandLength(b: int, t: int, s: nat)
    ensures |Band(b, t, s)| == 6 * s
  {
    LoopLength(s, QuadBody(b, t), 6);
  }

  /** Slice j of a band occupies positions 6j..6j+5. */
  lemma BandAt(b: int, t: int, s: nat, j: nat, k: nat)
    requires j < s && k < 6
    ensures 6 * j + k < |Band(b, t, s)| && Band(b, t, s)[6 * j + k] == QuadBody(b, t)(j)[k]
  {
    LoopAt(s, QuadBody(b, t), 6, j, k);
  }

  /** A band stays inside [lo, hi) when both rings b..b+s and t..t+s do. */
  lemma BandInRange(b: int, t: int, s: nat, lo: int, hi: int)
    requires lo <= b && b + s < hi && lo <= t && t + s < hi
    ensures AllIn(Band(b, t, s), lo, hi)
  {
    forall j | 0 <= j < s
      ensures AllIn(QuadBody(b, t)(j), lo, hi)
    {
    }
    LoopAllIn(s, QuadBody(b, t), lo, hi);
  }

  /** The last index of a band with at least one slice is t + s. */
  lemma BandLast(b: int, t: int, s: nat)
    requires s >= 1
    ensures |Band(b, t, s)| == 6 * s && Band(b, t, s)[6 * s - 1] == t + s
  {
    BandLength(b, t, s);
    BandAt(b, t, s, s - 1, 5);
    assert 6 * s - 1 == 6 * (s - 1) + 5;
  }
}
