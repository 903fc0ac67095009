/** `unique_jobs.sort(key=lambda x: x[0].date, reverse=True)` (bot.py, line
    150): newest first, and — Python's sort being stable also with
    `reverse=True` — jobs with the same date keep their relative order. */
module Ordering {
  import opened Util
  import opened Collect

  function Date(j: Job): int
  {
    j.msg.date
  }

  /** Dates never increase from left to right. */
  predicate NewestFirst(s: seq<Job>)
  {
    forall i, j :: 0 <= i < j < |s| ==> Date(s[i]) >= Date(s[j])
  }

  /** Put `x` in front of the first job no newer than it. */
  function Insert(x: Job, t: seq<Job>): (r: seq<Job>)
    ensures |r| == |t| + 1
  {
    if t == [] || Date(x) >= Date(t[0]) then [x] + t
    else [t[0]] + Insert(x, t[1..])
  }

  /** The sorted list: each job, from the last to the first, is inserted in
      front of the first job no newer than it, so a job ends up before every
      later job with the same date. */
  function SortByDate(s: seq<Job>): (r: seq<Job>)
    ensures |r| == |s|
  {
    if s == [] then []
    else Insert(s[0], SortByDate(s[1..]))
  }

  /** Inserting neither loses nor duplicates a job. */
  lemma {:induction false} InsertPerm(x: Job, t: seq<Job>)
    ensures multiset(Insert(x, t)) == multiset([x] + t)
    decreases |t|
  {
    if t != [] && Date(x) < Date(t[0]) {
      InsertPerm(x, t[1..]);
      assert t == [t[0]] + t[1..];
    }
  }

  /** The result is a permutation of the input. */
  lemma {:induction false} SortPerm(s: seq<Job>)
    ensures multiset(SortByDate(s)) == multiset(s)
    decreases |s|
  {
    if s != [] {
      SortPerm(s[1..]);
      InsertPerm(s[0], SortByDate(s[1..]));
      assert s == [s[0]] + s[1..];
    }
  }

  /** Inserting adds `x` and nothing else. */
  lemma {:induction false} InsertMembers(x: Job, t: seq<Job>)
    ensures forall y :: y in Insert(x, t) <==> y == x || y in t
    decreases |t|
  {
    if t != [] && Date(x) >= Date(t[0]) {
    } else if t != [] {
      InsertMembers(x, t[1..]);
      assert forall y :: y in t <==> y == t[0] || y in t[1..];
    }
  }

  /** Inserting into a newest-first list keeps it newest first. */
  lemma {:induction false} InsertOrdered(x: Job, t: seq<Job>)
    requires NewestFirst(t)
    ensures NewestFirst(Insert(x, t))
    decreases |t|
  {
    if t != [] && Date(x) < Date(t[0]) {
      InsertOrdered(x, t[1..]);
      var rest := Insert(x, t[1..]);
      InsertMembers(x, t[1..]);
      var r := [t[0]] + rest;
      forall j | 0 < j < |r| ensures Date(t[0]) >= Date(r[j]) {
        assert r[j] == rest[j - 1];
        assert r[j] in rest;
        if r[j] != x {
          var k :| 0 <= k < |t[1..]| && t[1..][k] == r[j];
          assert t[k + 1] == r[j];
        }
      }
      forall i, j | 0 < i < j < |r| ensures Date(r[i]) >= Date(r[j]) {
        assert r[i] == rest[i - 1] && r[j] == rest[j - 1];
      }
    }
  }

  /** The result is newest first. */
  lemma {:induction false} SortOrdered(s: seq<Job>)
    ensures NewestFirst(SortByDate(s))
    decreases |s|
  {
    if s != [] {
      SortOrdered(s[1..]);
      InsertOrdered(s[0], SortByDate(s[1..]));
    }
  }

  /** The jobs of `s` dated exactly `d`, in their order. */
  function WithDate(s: seq<Job>, d: int): seq<Job>
  {
    Filter((j: Job) => Date(j) == d, s)
  }

  /** Filtering by date, one job at a time. */
  lemma WithDateCons(y: Job, s: seq<Job>, d: int)
    ensures WithDate([y] + s, d) == (if Date(y) == d then [y] else []) + WithDate(s, d)
  {
    assert ([y] + s)[1..] == s;
  }

  /** Insertion keeps `x` before every job of its date already in the list. */
  lemma {:induction false} InsertStable(x: Job, t: seq<Job>, d: int)
    ensures WithDate(Insert(x, t), d) == WithDate([x] + t, d)
    decreases |t|
  {
    if t != [] && Date(x) < Date(t[0]) {
      InsertStable(x, t[1..], d);
      WithDateCons(t[0], Insert(x, t[1..]), d);
      WithDateCons(x, t[1..], d);
      WithDateCons(x, t, d);
      WithDateCons(t[0], t[1..], d);
      assert [t[0]] + t[1..] == t;
    }
  }

  /** Stability: for every date, the jobs with that date come out in the
      order they went in. */
  lemma {:induction false} SortStable(s: seq<Job>, d: int)
    ensures WithDate(SortByDate(s), d) == WithDate(s, d)
    decreases |s|
  {
    if s != [] {
      SortStable(s[1..], d);
      InsertStable(s[0], SortByDate(s[1..]), d);
      WithDateCons(s[0], SortByDate(s[1..]), d);
      WithDateCons(s[0], s[1..], d);
      assert [s[0]] + s[1..] == s;
    }
  }

  /** A list that is already newest first is left as it is. */
  lemma {:induction false} SortKeepsOrdered(s: seq<Job>)
    requires NewestFirst(s)
    ensures SortByDate(s) == s
    decreases |s|
  {
    if s != [] {
      assert NewestFirst(s[1..]);
      SortKeepsOrdered(s[1..]);
      assert s == [s[0]] + s[1..];
    }
  }

  /** The first job of the result is a newest job of the input. */
  lemma NewestComesFirst(s: seq<Job>)
    requires s != []
    ensures forall j :: j in s ==> Date(SortByDate(s)[0]) >= Date(j)
  {
    SortOrdered(s);
    SortPerm(s);
    var r := SortByDate(s);
    forall j | j in s ensures Date(r[0]) >= Date(j) {
      assert j in multiset(r);
      var k :| 0 <= k < |r| && r[k] == j;
    }
  }
}
