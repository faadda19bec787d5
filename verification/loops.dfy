/** The shape shared by every buffer-building loop of the source:
    `for (i = 0; i < n; i++) list.AddRange(body(i))`. */
module Loops {

  /** The concatenation body(0) + body(1) + ... + body(n-1), in loop order. */
  function Loop<T>(n: nat, body: nat --> seq<T>): seq<T>
    requires forall i :: 0 <= i < n ==> body.requires(i)
  {
    if n == 0 then [] else Loop(n - 1, body) + body(n - 1)
  }

  /** Every element of xs lies in [lo, hi). */
  predicate AllIn(xs: seq<int>, lo: int, hi: int)
  {
    forall k :: 0 <= k < |xs| ==> lo <= xs[k] < hi
  }

  /** A loop whose every iteration appends w elements appends w*n in all. */
  lemma {:induction false} LoopLength<T>(n: nat, body: nat --> seq<T>, w: nat)
    requires forall i :: 0 <= i < n ==> body.requires(i) && |body(i)| == w
    ensures |Loop(n, body)| == w * n
  {
    if n > 0 {
      LoopLength(n - 1, body, w);
    }
  }

  /** Element k of iteration j sits at position w*j + k of the result. */
  lemma {:induction false} LoopAt<T>(n: nat, body: nat --> seq<T>, w: nat, j: nat, k: nat)
    requires forall i :: 0 <= i < n ==> body.requires(i) && |body(i)| == w
    requires j < n && k < w
    ensures w * j + k < |Loop(n, body)|
    ensures Loop(n, body)[w * j + k] == body(j)[k]
  {
    LoopLength(n, body, w);
    LoopLength(n - 1, body, w);
    if j < n - 1 {
      LoopAt(n - 1, body, w, j, k);
    } else {
      assert w * j == w * (n - 1);
    }
  }

  /** A property of every element of every iteration holds of every element of the result. */
  lemma {:induction false} LoopAll<T>(n: nat, body: nat --> seq<T>, P: T -> bool)
    requires forall i :: 0 <= i < n ==> body.requires(i)
    requires forall i, k :: 0 <= i < n && 0 <= k < |body(i)| ==> P(body(i)[k])
    ensures forall k :: 0 <= k < |Loop(n, body)| ==> P(Loop(n, body)[k])
  {
    if n > 0 {
      LoopAll(n - 1, body, P);
      var prev := Loop(n - 1, body);
      var last := body(n - 1);
      assert Loop(n, body) == prev + last;
      forall k | 0 <= k < |prev + last|
        ensures P((prev + last)[k])
      {
        if k >= |prev| {
          assert (prev + last)[k] == last[k - |prev|];
        }
      }
    }
  }

  /** Bounds of every iteration bound the result. */
  lemma LoopAllIn(n: nat, body: nat --> seq<int>, lo: int, hi: int)
    requires forall i :: 0 <= i < n ==> body.requires(i) && AllIn(body(i), lo, hi)
    ensures AllIn(Loop(n, body), lo, hi)
  {
    LoopAll(n, body, x => lo <= x < hi);
  }

  lemma AllInConcat(a: seq<int>, b: seq<int>, lo: int, hi: int)
    requires AllIn(a, lo, hi) && AllIn(b, lo, hi)
    ensures AllIn(a + b, lo, hi)
  {
    forall k | 0 <= k < |a + b|
      ensures lo <= (a + b)[k] < hi
    {
      if k >= |a| {
        assert (a + b)[k] == b[k - |a|];
      }
    }
  }

  /** Multiplying by the same natural number keeps the order: used to
      bound ring offsets i * (slices + 2) and the like. */
  lemma MulMono(a: nat, b: nat, c: nat)
    requires a <= b
    ensures a * c <= b * c
  {
  }
}
