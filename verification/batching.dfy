/** Cutting the texts to translate into consecutive slices of at most 100, one slice per
    request (`parts` and `translations.slice(ind*100, (ind+1)*100)`). */
module Batching {

  /** Largest number of texts sent in one request. */
  const BatchSize: nat := 100

  function Min(a: int, b: int): int {
    if a <= b then a else b
  }

  /** `Math.ceil(n / cap)`: the number of slices, counted one full slice at a time. */
  function PartsOf(n: nat, cap: nat): (p: nat)
    requires cap >= 1
    ensures p * cap >= n
    ensures n > 0 ==> (p - 1) * cap < n
    ensures p == 0 <==> n == 0
    decreases n
  {
    if n == 0 then 0
    else if n <= cap then 1
    else
      var q := PartsOf(n - cap, cap);
      assert (q + 1) * cap == q * cap + cap;
      q + 1
  }

  /** The slice count is the rounded-up quotient the source computes. */
  lemma PartsIsCeiling(n: nat, cap: nat)
    requires cap >= 1
    ensures PartsOf(n, cap) == (n + cap - 1) / cap
  {
    var q := (n + cap - 1) / cap;
    if n > 0 {
      CeilingBounds(n, cap);
      CeilingIsUnique(n, cap, PartsOf(n, cap), q);
    }
  }

  /** The rounded-up quotient covers `n` and one slice less does not. */
  lemma CeilingBounds(n: nat, cap: nat)
    requires cap >= 1 && n > 0
    ensures (n + cap - 1) / cap * cap >= n
    ensures ((n + cap - 1) / cap - 1) * cap < n
  {
    var q := (n + cap - 1) / cap;
    var r := (n + cap - 1) % cap;
    assert n + cap - 1 == q * cap + r && 0 <= r < cap;
    assert (q - 1) * cap == q * cap - cap;
  }

  /** At most one count of slices covers `n` while one slice less does not. */
  lemma CeilingIsUnique(n: nat, cap: nat, p: int, q: int)
    requires cap >= 1 && p >= 0 && q >= 0
    requires p * cap >= n && (p - 1) * cap < n
    requires q * cap >= n && (q - 1) * cap < n
    ensures p == q
  {
    if p < q {
      MulMonotone(p, q - 1, cap);
    } else if p > q {
      MulMonotone(q, p - 1, cap);
    }
  }

  lemma MulMonotone(a: nat, b: nat, c: nat)
    requires a <= b
    ensures a * c <= b * c
  {
    assert b * c == a * c + (b - a) * c;
  }

  function Parts(n: nat): nat {
    PartsOf(n, BatchSize)
  }

  /** `xs.slice(ind*cap, (ind+1)*cap)`; JavaScript clamps both bounds to the length. */
  function SliceOf<T>(xs: seq<T>, ind: nat, cap: nat): (s: seq<T>)
    ensures |s| <= cap
  {
    xs[Min(ind * cap, |xs|)..Min((ind + 1) * cap, |xs|)]
  }

  /** The slice sent by request number `ind`. */
  function Batch(ts: seq<string>, ind: nat): seq<string> {
    SliceOf(ts, ind, BatchSize)
  }

  /** The first `k` slices put back together. */
  function Joined<T>(xs: seq<T>, k: nat, cap: nat): seq<T>
    decreases k
  {
    if k == 0 then [] else Joined(xs, k - 1, cap) + SliceOf(xs, k - 1, cap)
  }

  lemma {:induction false} JoinedIsPrefix<T>(xs: seq<T>, k: nat, cap: nat)
    ensures Joined(xs, k, cap) == xs[..Min(k * cap, |xs|)]
    decreases k
  {
    if k > 0 {
      JoinedIsPrefix(xs, k - 1, cap);
      var a := Min((k - 1) * cap, |xs|);
      var b := Min(k * cap, |xs|);
      assert (k - 1) * cap <= k * cap by { assert k * cap == (k - 1) * cap + cap; }
      assert xs[..a] + xs[a..b] == xs[..b];
    }
  }

  /** Each slice holds at most `BatchSize` texts, every slice before the last one is full
      and non-empty, and the slices put back together give the texts in their order. */
  lemma BatchesPartitionTexts(ts: seq<string>)
    ensures forall ind :: 0 <= ind < Parts(|ts|) ==> 1 <= |Batch(ts, ind)| <= BatchSize
    ensures forall ind :: 0 <= ind < Parts(|ts|) - 1 ==> |Batch(ts, ind)| == BatchSize
    ensures forall ind :: ind >= Parts(|ts|) ==> Batch(ts, ind) == []
    ensures Joined(ts, Parts(|ts|), BatchSize) == ts
  {
    var n := |ts|;
    var p := Parts(n);
    JoinedIsPrefix(ts, p, BatchSize);
    forall ind | 0 <= ind < p ensures 1 <= |Batch(ts, ind)| {
      assert ind * BatchSize <= (p - 1) * BatchSize;
    }
    forall ind | 0 <= ind < p - 1 ensures |Batch(ts, ind)| == BatchSize {
      assert (ind + 1) * BatchSize <= (p - 1) * BatchSize;
    }
    forall ind: nat | ind >= p ensures Batch(ts, ind) == [] {
      assert ind * BatchSize >= p * BatchSize;
    }
  }

  /** Slice `ind` of a non-final request is full; the final one reaches the end. */
  lemma SliceLength(ts: seq<string>, ind: nat)
    requires ind < Parts(|ts|)
    ensures ind * BatchSize < |ts|
    ensures |Batch(ts, ind)| == Min((ind + 1) * BatchSize, |ts|) - ind * BatchSize
    ensures ind < Parts(|ts|) - 1 ==> (ind + 1) * BatchSize <= |ts|
    ensures ind == Parts(|ts|) - 1 ==> |ts| <= (ind + 1) * BatchSize
  {
    var p := Parts(|ts|);
    assert ind * BatchSize <= (p - 1) * BatchSize;
    if ind < p - 1 {
      assert (ind + 1) * BatchSize <= (p - 1) * BatchSize;
    }
  }

  /** Text `i` travels in request `i / BatchSize`, at position `i % BatchSize` of its slice. */
  lemma BatchHoldsText(ts: seq<string>, i: nat)
    requires i < |ts|
    ensures i / BatchSize < Parts(|ts|)
    ensures i % BatchSize < |Batch(ts, i / BatchSize)|
    ensures Batch(ts, i / BatchSize)[i % BatchSize] == ts[i]
  {
    var ind := i / BatchSize;
    assert ind * BatchSize <= i < ind * BatchSize + BatchSize;
    SliceLength(ts, ind);
  }

  /** The texts translated one by one with `f`. */
  function MapText(f: string -> string, xs: seq<string>): (ys: seq<string>)
    ensures |ys| == |xs|
    ensures forall i :: 0 <= i < |xs| ==> ys[i] == f(xs[i])
    decreases |xs|
  {
    if xs == [] then [] else [f(xs[0])] + MapText(f, xs[1..])
  }

  /** The texts translated slice by slice with `f`, the results of the first `k` slices
      concatenated in request order. */
  function InBatches(f: string -> string, xs: seq<string>, k: nat, cap: nat): seq<string>
    decreases k
  {
    if k == 0 then [] else InBatches(f, xs, k - 1, cap) + MapText(f, SliceOf(xs, k - 1, cap))
  }

  lemma {:induction false} InBatchesIsMapOfJoined(f: string -> string, xs: seq<string>, k: nat, cap: nat)
    ensures InBatches(f, xs, k, cap) == MapText(f, Joined(xs, k, cap))
    decreases k
  {
    if k > 0 {
      InBatchesIsMapOfJoined(f, xs, k - 1, cap);
      var a := Joined(xs, k - 1, cap);
      var b := SliceOf(xs, k - 1, cap);
      assert MapText(f, a + b) == MapText(f, a) + MapText(f, b);
    }
  }

  /** For a deterministic per-text translator, translating in slices of any size and
      concatenating the answers in request order gives the same sequence as translating
      every text on its own: the result does not depend on the slice size. */
  lemma BatchSizeDoesNotMatter(f: string -> string, xs: seq<string>, cap: nat)
    requires cap >= 1
    ensures InBatches(f, xs, PartsOf(|xs|, cap), cap) == MapText(f, xs)
  {
    var p := PartsOf(|xs|, cap);
    InBatchesIsMapOfJoined(f, xs, p, cap);
    JoinedIsPrefix(xs, p, cap);
    assert xs[..Min(p * cap, |xs|)] == xs;
  }
}
