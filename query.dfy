/** The query shapes the store uses, over rows kept in insertion order:
    `filter(...)`, `.first()` and `.offset(skip).limit(limit)`. */
module Query {
  import opened Wrappers

  /** The rows of `s` satisfying `p`, in store order. */
  function Filter<T(!new)>(s: seq<T>, p: T -> bool): (r: seq<T>)
    ensures |r| <= |s|
    ensures forall x :: x in r <==> x in s && p(x)
  {
    if s == [] then []
    else if p(s[0]) then [s[0]] + Filter(s[1..], p)
    else Filter(s[1..], p)
  }

  /** Filtering a concatenation filters each part: the store order is kept. */
  lemma {:induction false} FilterAppend<T(!new)>(a: seq<T>, b: seq<T>, p: T -> bool)
    ensures Filter(a + b, p) == Filter(a, p) + Filter(b, p)
  {
    if a == [] {
      assert a + b == b;
    } else {
      assert (a + b)[0] == a[0];
      assert (a + b)[1..] == a[1..] + b;
      FilterAppend(a[1..], b, p);
    }
  }

  /** The position of the first row satisfying `p`, if there is one. */
  function FirstIndex<T>(s: seq<T>, p: T -> bool): (r: Option<nat>)
    ensures r.Some? ==> r.value < |s| && p(s[r.value])
    ensures r.Some? ==> forall j :: 0 <= j < r.value ==> !p(s[j])
    ensures r.None? ==> forall j :: 0 <= j < |s| ==> !p(s[j])
  {
    if s == [] then None
    else if p(s[0]) then Some(0)
    else match FirstIndex(s[1..], p)
      case None => None
      case Some(k) => Some(k + 1)
  }

  /** The first row satisfying `p`, or `None`: `filter(p).first()`. */
  function First<T(!new)>(s: seq<T>, p: T -> bool): (r: Option<T>)
    ensures r.Some? ==> r.value in s && p(r.value)
    ensures r.Some? ==> exists i :: 0 <= i < |s| && s[i] == r.value && forall j :: 0 <= j < i ==> !p(s[j])
    ensures r.None? <==> forall x :: x in s ==> !p(x)
  {
    match FirstIndex(s, p)
    case None => None
    case Some(i) => Some(s[i])
  }

  /** `First` is the head of `Filter`, which is how the query reads. */
  lemma {:induction false} FirstIsHeadOfFilter<T(!new)>(s: seq<T>, p: T -> bool)
    ensures First(s, p) == if Filter(s, p) == [] then None else Some(Filter(s, p)[0])
  {
    if s != [] && !p(s[0]) {
      FirstIsHeadOfFilter(s[1..], p);
      match FirstIndex(s[1..], p)
      case None =>
      case Some(k) => assert s[k + 1] == s[1..][k];
    }
  }

  /** Appending rows does not change an existing first match. */
  lemma FirstAppend<T(!new)>(a: seq<T>, b: seq<T>, p: T -> bool)
    ensures First(a + b, p) == if First(a, p).Some? then First(a, p) else First(b, p)
  {
    FilterAppend(a, b, p);
    FirstIsHeadOfFilter(a + b, p);
    FirstIsHeadOfFilter(a, p);
    FirstIsHeadOfFilter(b, p);
  }

  /** `offset(skip).limit(limit)`: drop the first `skip` rows, then keep at most `limit`. */
  function Page<T>(s: seq<T>, skip: nat, limit: nat): (r: seq<T>)
    ensures |r| == if skip >= |s| then 0 else if limit < |s| - skip then limit else |s| - skip
    ensures forall i :: 0 <= i < |r| ==> skip + i < |s| && r[i] == s[skip + i]
  {
    if skip >= |s| then []
    else
      var rest := s[skip..];
      if limit < |rest| then rest[..limit] else rest
  }

  /** Of three matching rows, skip 1 and limit 1 yield exactly the second. */
  lemma SecondOfThree<T(!new)>(a: T, b: T, c: T, p: T -> bool)
    requires p(a) && p(b) && p(c)
    ensures Page(Filter([a, b, c], p), 1, 1) == [b]
  {
  }
}
