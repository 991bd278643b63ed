/** The three buckets `fetch_all_courses` fills from the settled lookups, in
    the order they settle: certain courses (admission rate exactly 100),
    uncertain courses, and the messages of the failed lookups. */
module Buckets {
  import opened Wrappers
  import opened Records

  predicate IsCertain(c: Course)
  {
    c.successRate == 100.0
  }

  function Last<T>(s: seq<T>): T
    requires s != []
  {
    s[|s| - 1]
  }

  function Init<T>(s: seq<T>): seq<T>
    requires s != []
  {
    s[..|s| - 1]
  }

  /** `safe_courses`: every successful lookup with an admission rate of 100. */
  function SafeOf(rs: seq<Result<Course>>): (r: seq<Course>)
    ensures |r| <= |rs|
    ensures forall k :: 0 <= k < |r| ==> IsCertain(r[k]) && Ok(r[k]) in rs
  {
    if rs == [] then []
    else
      var last := Last(rs);
      SafeOf(Init(rs)) + (if last.Ok? && IsCertain(last.value) then [last.value] else [])
  }

  /** `unsafe_courses`: every successful lookup with any other admission rate. */
  function UnsafeOf(rs: seq<Result<Course>>): (r: seq<Course>)
    ensures |r| <= |rs|
    ensures forall k :: 0 <= k < |r| ==> !IsCertain(r[k]) && Ok(r[k]) in rs
  {
    if rs == [] then []
    else
      var last := Last(rs);
      UnsafeOf(Init(rs)) + (if last.Ok? && !IsCertain(last.value) then [last.value] else [])
  }

  /** `unknown_courses`: the message of every failed lookup. */
  function UnknownOf(rs: seq<Result<Course>>): (r: seq<string>)
    ensures |r| <= |rs|
    ensures forall k :: 0 <= k < |r| ==> Err(r[k]) in rs
  {
    if rs == [] then []
    else
      var last := Last(rs);
      UnknownOf(Init(rs)) + (if last.Err? then [last.message] else [])
  }

  /** Every outcome lands in exactly one bucket, so the buckets together are
      as long as the input. */
  lemma {:induction false} PartitionComplete(rs: seq<Result<Course>>)
    ensures |SafeOf(rs)| + |UnsafeOf(rs)| + |UnknownOf(rs)| == |rs|
  {
    if rs != [] {
      PartitionComplete(Init(rs));
    }
  }

  lemma SplitLast(rs: seq<Result<Course>>)
    requires rs != []
    ensures multiset(rs) == multiset(Init(rs)) + multiset{Last(rs)}
  {
    assert rs == Init(rs) + [Last(rs)];
  }

  /** A course occurs in the certain bucket as often as it was looked up
      successfully, if certain, and never otherwise. */
  lemma {:induction false} SafeCount(rs: seq<Result<Course>>, c: Course)
    ensures multiset(SafeOf(rs))[c] == if IsCertain(c) then multiset(rs)[Ok(c)] else 0
  {
    if rs != [] {
      SafeCount(Init(rs), c);
      SplitLast(rs);
    }
  }

  /** A course occurs in the uncertain bucket as often as it was looked up
      successfully, if not certain, and never otherwise. */
  lemma {:induction false} UnsafeCount(rs: seq<Result<Course>>, c: Course)
    ensures multiset(UnsafeOf(rs))[c] == if IsCertain(c) then 0 else multiset(rs)[Ok(c)]
  {
    if rs != [] {
      UnsafeCount(Init(rs), c);
      SplitLast(rs);
    }
  }

  /** A message occurs in the unknown bucket as often as a lookup failed with it. */
  lemma {:induction false} UnknownCount(rs: seq<Result<Course>>, m: string)
    ensures multiset(UnknownOf(rs))[m] == multiset(rs)[Err(m)]
  {
    if rs != [] {
      UnknownCount(Init(rs), m);
      SplitLast(rs);
    }
  }

  /** An outcome lands in its own bucket and in no other: a certain course in
      the certain bucket, any other course in the uncertain one, a failure's
      message in the unknown one. A failure anywhere does not keep a later
      outcome out of its bucket. */
  lemma LandsInOneBucket(rs: seq<Result<Course>>, x: Result<Course>)
    requires x in rs
    ensures x.Ok? && IsCertain(x.value) ==> x.value in SafeOf(rs) && x.value !in UnsafeOf(rs)
    ensures x.Ok? && !IsCertain(x.value) ==> x.value in UnsafeOf(rs) && x.value !in SafeOf(rs)
    ensures x.Err? ==> x.message in UnknownOf(rs)
  {
    assert multiset(rs)[x] > 0;
    if x.Ok? {
      SafeCount(rs, x.value);
      UnsafeCount(rs, x.value);
    } else {
      UnknownCount(rs, x.message);
    }
  }

  /** The buckets hold the same entries whatever order the lookups settle in;
      only the order inside each bucket follows the completion order. */
  lemma CompletionOrderIrrelevant(submitted: seq<Result<Course>>, settled: seq<Result<Course>>)
    requires multiset(settled) == multiset(submitted)
    ensures multiset(SafeOf(settled)) == multiset(SafeOf(submitted))
    ensures multiset(UnsafeOf(settled)) == multiset(UnsafeOf(submitted))
    ensures multiset(UnknownOf(settled)) == multiset(UnknownOf(submitted))
  {
    forall c: Course
      ensures multiset(SafeOf(settled))[c] == multiset(SafeOf(submitted))[c]
      ensures multiset(UnsafeOf(settled))[c] == multiset(UnsafeOf(submitted))[c]
    {
      SafeCount(settled, c);
      SafeCount(submitted, c);
      UnsafeCount(settled, c);
      UnsafeCount(submitted, c);
    }
    forall m: string
      ensures multiset(UnknownOf(settled))[m] == multiset(UnknownOf(submitted))[m]
    {
      UnknownCount(settled, m);
      UnknownCount(submitted, m);
    }
  }
}
