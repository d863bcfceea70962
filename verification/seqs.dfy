/** Sequence combinators shared by the providers: Python list comprehensions
    with a condition, `next(... , None)` searches, and list comprehensions
    whose element expression may raise. */
module Seqs {
  import opened Wrappers

  /** `[x for x in s if p(x)]`. */
  function Filter<T>(s: seq<T>, p: T -> bool): (r: seq<T>)
    ensures |r| <= |s|
    ensures forall k :: 0 <= k < |r| ==> p(r[k]) && r[k] in s
    ensures forall k :: 0 <= k < |s| && p(s[k]) ==> s[k] in r
    decreases |s|
  {
    if |s| == 0 then []
    else if p(s[0]) then [s[0]] + Filter(s[1..], p)
    else Filter(s[1..], p)
  }

  /** Filtering commutes with concatenation, so survivors keep their relative order. */
  lemma {:induction false} FilterConcat<T>(a: seq<T>, b: seq<T>, p: T -> bool)
    ensures Filter(a + b, p) == Filter(a, p) + Filter(b, p)
    decreases |a|
  {
    if |a| == 0 {
      assert a + b == b;
    } else {
      assert (a + b)[1..] == a[1..] + b;
      FilterConcat(a[1..], b, p);
    }
  }

  /** Two successive filters keep exactly what one filter on the conjunction keeps. */
  lemma {:induction false} FilterFilter<T>(s: seq<T>, p: T -> bool, q: T -> bool, both: T -> bool)
    requires forall x :: both(x) == (p(x) && q(x))
    ensures Filter(Filter(s, p), q) == Filter(s, both)
    decreases |s|
  {
    if |s| > 0 {
      FilterFilter(s[1..], p, q, both);
    }
  }

  /** A filter keeps everything exactly when every element passes it. */
  lemma {:induction false} FilterAll<T>(s: seq<T>, p: T -> bool)
    ensures Filter(s, p) == s <==> forall k :: 0 <= k < |s| ==> p(s[k])
    decreases |s|
  {
    if |s| > 0 {
      FilterAll(s[1..], p);
      if !p(s[0]) {
        assert |Filter(s, p)| < |s|;
      }
    }
  }

  /** Filtering twice by the same condition is filtering once. */
  lemma FilterIdempotent<T>(s: seq<T>, p: T -> bool)
    ensures Filter(Filter(s, p), p) == Filter(s, p)
  {
    FilterAll(Filter(s, p), p);
  }

  /** `k` is the first position of `s` whose element satisfies `p`. */
  predicate IsFirst<T>(s: seq<T>, p: T -> bool, k: int) {
    0 <= k < |s| && p(s[k]) && forall j :: 0 <= j < k ==> !p(s[j])
  }

  /** `next((i for i, x in enumerate(s) if p(x)), None)`: the first position satisfying `p`. */
  function FirstIndex<T>(s: seq<T>, p: T -> bool): (r: Option<nat>)
    ensures r.Some? ==> IsFirst(s, p, r.value)
    ensures r.None? <==> forall j :: 0 <= j < |s| ==> !p(s[j])
    decreases |s|
  {
    if |s| == 0 then None
    else if p(s[0]) then Some(0)
    else match FirstIndex(s[1..], p)
      case None => None
      case Some(j) => Some(j + 1)
  }

  /** `[f(x) for x in s]` where `f` may raise: the first exception aborts the whole list. */
  function MapAll<T, U(==), E(==)>(s: seq<T>, f: T -> Result<U, E>): (r: Result<seq<U>, E>)
    ensures r.Success? <==> forall k :: 0 <= k < |s| ==> f(s[k]).Success?
    ensures r.Success? ==> |r.value| == |s| && forall k :: 0 <= k < |s| ==> f(s[k]) == Success(r.value[k])
    ensures r.Failure? ==>
      exists k :: 0 <= k < |s| && f(s[k]) == Failure(r.error) && forall j :: 0 <= j < k ==> f(s[j]).Success?
    decreases |s|
  {
    if |s| == 0 then Success([])
    else match f(s[0])
      case Failure(e) => Failure(e)
      case Success(u) =>
        match MapAll(s[1..], f)
        case Failure(e) => Failure(e)
        case Success(us) => Success([u] + us)
  }

  /** A list comprehension over two consecutive chunks succeeds when both chunks do, with the results concatenated. */
  lemma MapAllConcat<T, U, E>(a: seq<T>, b: seq<T>, f: T -> Result<U, E>)
    requires MapAll(a, f).Success? && MapAll(b, f).Success?
    ensures MapAll(a + b, f) == Success(MapAll(a, f).value + MapAll(b, f).value)
  {
    var va, vb := MapAll(a, f).value, MapAll(b, f).value;
    forall k | 0 <= k < |a + b|
      ensures f((a + b)[k]) == Success((va + vb)[k])
    {
      if k < |a| {
        assert (a + b)[k] == a[k];
      } else {
        assert (a + b)[k] == b[k - |a|];
      }
    }
    assert forall k :: 0 <= k < |a + b| ==> f((a + b)[k]).Success?;
    assert MapAll(a + b, f).Success?;
    var v := MapAll(a + b, f).value;
    assert |v| == |va + vb|;
    assert forall k :: 0 <= k < |v| ==> v[k] == (va + vb)[k];
    assert v == va + vb;
  }

  /** `[p for p in s if p]` on a list of optional values: drops exactly the `None`s. */
  function KeepSome<T>(s: seq<Option<T>>): (r: seq<T>)
    ensures |r| <= |s|
    ensures forall k :: 0 <= k < |r| ==> Some(r[k]) in s
    ensures forall k :: 0 <= k < |s| && s[k].Some? ==> s[k].value in r
    ensures |r| == |s| <==> forall k :: 0 <= k < |s| ==> s[k].Some?
    decreases |s|
  {
    if |s| == 0 then []
    else match s[0]
      case None => KeepSome(s[1..])
      case Some(x) => [x] + KeepSome(s[1..])
  }

  /** Dropping `None`s commutes with concatenation, so the kept values keep their order. */
  lemma {:induction false} KeepSomeConcat<T>(a: seq<Option<T>>, b: seq<Option<T>>)
    ensures KeepSome(a + b) == KeepSome(a) + KeepSome(b)
    decreases |a|
  {
    if |a| == 0 {
      assert a + b == b;
    } else {
      assert (a + b)[1..] == a[1..] + b;
      KeepSomeConcat(a[1..], b);
    }
  }

  /** `[x for xs in ss for x in xs]`. */
  function Concat<T>(ss: seq<seq<T>>): (r: seq<T>)
    ensures forall k :: 0 <= k < |ss| ==> forall x :: x in ss[k] ==> x in r
    ensures forall x :: x in r ==> exists k :: 0 <= k < |ss| && x in ss[k]
    ensures |ss| == 1 ==> r == ss[0]
    decreases |ss|
  {
    if |ss| == 0 then []
    else ss[0] + Concat(ss[1..])
  }

  /** Flattening commutes with concatenation of the outer list. */
  lemma {:induction false} ConcatAppend<T>(a: seq<seq<T>>, b: seq<seq<T>>)
    ensures Concat(a + b) == Concat(a) + Concat(b)
    decreases |a|
  {
    if |a| == 0 {
      assert a + b == b;
    } else {
      assert (a + b)[1..] == a[1..] + b;
      ConcatAppend(a[1..], b);
    }
  }

  /** `[f(x) for x in s]`. */
  function Map<T, U>(s: seq<T>, f: T -> U): (r: seq<U>)
    ensures |r| == |s|
    ensures forall k :: 0 <= k < |s| ==> r[k] == f(s[k])
  {
    seq(|s|, k requires 0 <= k < |s| => f(s[k]))
  }

  /** Mapping commutes with concatenation. */
  lemma MapConcat<T, U>(a: seq<T>, b: seq<T>, f: T -> U)
    ensures Map(a + b, f) == Map(a, f) + Map(b, f)
  {
    assert forall k :: 0 <= k < |a + b| ==> Map(a + b, f)[k] == (Map(a, f) + Map(b, f))[k];
  }
}
