/** The sequence comprehensions the persistence layer is built from:
    `[x for x in s if p(x)]`, `next((x for x in s if p(x)), None)` and
    `[v for pair in zip(xs, ys) for v in pair]`. */
module Seqs {
  import opened Wrappers

  function Min(a: int, b: int): int {
    if a <= b then a else b
  }

  /** The elements of `s` that satisfy `p`, in their original order. */
  function Filter<T>(s: seq<T>, p: T -> bool): (r: seq<T>)
    ensures |r| <= |s|
    ensures forall i :: 0 <= i < |r| ==> p(r[i]) && r[i] in s
    ensures forall i :: 0 <= i < |s| && p(s[i]) ==> s[i] in r
  {
    if s == [] then []
    else if p(s[0]) then [s[0]] + Filter(s[1..], p)
    else Filter(s[1..], p)
  }

  /** Filtering distributes over concatenation, so the kept elements keep their order. */
  lemma {:induction false} FilterAppend<T>(a: seq<T>, b: seq<T>, p: T -> bool)
    ensures Filter(a + b, p) == Filter(a, p) + Filter(b, p)
  {
    if a == [] {
      assert a + b == b;
    } else {
      assert (a + b)[0] == a[0];
      assert (a + b)[1..] == a[1..] + b;
      FilterAppend(a[1..], b, p);
    }
  }

  /** The index of the first element that satisfies `p`, if any. */
  function FirstIndex<T>(s: seq<T>, p: T -> bool): (r: Option<nat>)
    ensures r.Some? ==> r.value < |s| && p(s[r.value])
    ensures r.Some? ==> forall j :: 0 <= j < r.value ==> !p(s[j])
    ensures r.None? ==> forall j :: 0 <= j < |s| ==> !p(s[j])
  {
    if s == [] then None
    else if p(s[0]) then Some(0)
    else match FirstIndex(s[1..], p)
      case None => None
      case Some(k) => Some(k + 1)
  }

  /** `zip(xs, ys)` flattened: x0, y0, x1, y1, ... as long as both have elements. */
  function Interleave<T>(xs: seq<T>, ys: seq<T>): (r: seq<T>)
    ensures |r| == 2 * Min(|xs|, |ys|)
    ensures forall i :: 0 <= i < |r| ==> r[i] == if i % 2 == 0 then xs[i / 2] else ys[i / 2]
  {
    if xs == [] || ys == [] then []
    else [xs[0], ys[0]] + Interleave(xs[1..], ys[1..])
  }

  /** The elements beyond the shorter list's length play no part in the result. */
  lemma {:induction false} InterleaveDropsTrailing<T>(xs: seq<T>, ys: seq<T>)
    ensures Interleave(xs, ys) == Interleave(xs[..Min(|xs|, |ys|)], ys[..Min(|xs|, |ys|)])
  {
    var m := Min(|xs|, |ys|);
    if m > 0 {
      InterleaveDropsTrailing(xs[1..], ys[1..]);
      assert xs[..m][1..] == xs[1..][..m - 1];
      assert ys[..m][1..] == ys[1..][..m - 1];
    }
  }
}
