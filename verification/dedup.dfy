/** Removal of repeated jobs (bot.py, lines 139-148): walk the collected jobs
    in order, remember the fingerprints already seen, keep a job only when
    its fingerprint is new. The fingerprint function is a parameter here;
    the relay instantiates it with the normalised text. */
module Duplicates {
  import opened Util

  /** The jobs kept from `s` when the fingerprints in `seen` are already taken. */
  function DedupFrom<T(==), K(==)>(key: T -> K, s: seq<T>, seen: set<K>): (r: seq<T>)
    ensures |r| <= |s|
    ensures forall i :: 0 <= i < |r| ==> key(r[i]) !in seen
    decreases |s|
  {
    if s == [] then []
    else if key(s[0]) in seen then DedupFrom(key, s[1..], seen)
    else
      var rest := DedupFrom(key, s[1..], seen + {key(s[0])});
      assert forall i :: 0 < i < |[s[0]] + rest| ==> ([s[0]] + rest)[i] == rest[i - 1];
      [s[0]] + rest
  }

  /** `unique_jobs` as computed from `all_jobs`. */
  function Dedup<T(==), K(==)>(key: T -> K, s: seq<T>): seq<T>
  {
    DedupFrom(key, s, {})
  }

  /** The fingerprints occurring in `s`. */
  function Keys<T(==), K(==)>(key: T -> K, s: seq<T>): set<K>
  {
    set x | x in s :: key(x)
  }

  /** No two elements of `s` share a fingerprint. */
  predicate DistinctKeys<T(==), K(==)>(key: T -> K, s: seq<T>)
  {
    forall i, j :: 0 <= i < j < |s| ==> key(s[i]) != key(s[j])
  }

  /** The first element of `s` with fingerprint `k`, if any. */
  function FirstWith<T(==), K(==)>(key: T -> K, s: seq<T>, k: K): Option<T>
  {
    if s == [] then None
    else if key(s[0]) == k then Some(s[0])
    else FirstWith(key, s[1..], k)
  }

  /** The first element with the fingerprint of `s[i]` sits at or before `i`. */
  lemma {:induction false} FirstWithAt<T, K>(key: T -> K, s: seq<T>, i: nat) returns (m: nat)
    requires i < |s|
    ensures m <= i && FirstWith(key, s, key(s[i])) == Some(s[m])
    decreases i
  {
    if key(s[0]) == key(s[i]) {
      m := 0;
    } else {
      assert s[1..][i - 1] == s[i];
      m := FirstWithAt(key, s[1..], i - 1);
      m := m + 1;
    }
  }

  /** The kept jobs appear in the original order. */
  lemma {:induction false} DedupSubseq<T, K>(key: T -> K, s: seq<T>, seen: set<K>)
    ensures IsSubseq(DedupFrom(key, s, seen), s)
    decreases |s|
  {
    if s != [] {
      if key(s[0]) in seen {
        DedupSubseq(key, s[1..], seen);
        SubseqCons(DedupFrom(key, s[1..], seen), s[0], s[1..]);
        assert [s[0]] + s[1..] == s;
      } else {
        DedupSubseq(key, s[1..], seen + {key(s[0])});
        assert ([s[0]] + DedupFrom(key, s[1..], seen + {key(s[0])}))[1..]
            == DedupFrom(key, s[1..], seen + {key(s[0])});
      }
    }
  }

  /** No fingerprint is kept twice. */
  lemma {:induction false} DedupDistinct<T, K>(key: T -> K, s: seq<T>, seen: set<K>)
    ensures DistinctKeys(key, DedupFrom(key, s, seen))
    decreases |s|
  {
    if s != [] {
      if key(s[0]) in seen {
        DedupDistinct(key, s[1..], seen);
      } else {
        var rest := DedupFrom(key, s[1..], seen + {key(s[0])});
        DedupDistinct(key, s[1..], seen + {key(s[0])});
        var r := [s[0]] + rest;
        forall i, j | 0 <= i < j < |r| ensures key(r[i]) != key(r[j]) {
          assert r[j] == rest[j - 1];
          if i > 0 {
            assert r[i] == rest[i - 1];
          }
        }
      }
    }
  }

  /** Every new fingerprint of the input is represented in the output. */
  lemma {:induction false} DedupKeys<T, K>(key: T -> K, s: seq<T>, seen: set<K>)
    ensures Keys(key, DedupFrom(key, s, seen)) == Keys(key, s) - seen
    decreases |s|
  {
    if s != [] {
      assert Keys(key, s) == {key(s[0])} + Keys(key, s[1..]) by {
        assert forall x :: x in s <==> x == s[0] || x in s[1..];
      }
      if key(s[0]) in seen {
        DedupKeys(key, s[1..], seen);
      } else {
        var rest := DedupFrom(key, s[1..], seen + {key(s[0])});
        DedupKeys(key, s[1..], seen + {key(s[0])});
        assert forall x :: x in [s[0]] + rest <==> x == s[0] || x in rest;
        assert Keys(key, [s[0]] + rest) == {key(s[0])} + Keys(key, rest);
      }
    }
  }

  /** Each kept job is the first job of the input with its fingerprint: a
      repost is dropped, never the original. */
  lemma {:induction false} DedupKeepsFirst<T, K>(key: T -> K, s: seq<T>, seen: set<K>)
    ensures forall i :: 0 <= i < |DedupFrom(key, s, seen)| ==>
      FirstWith(key, s, key(DedupFrom(key, s, seen)[i])) == Some(DedupFrom(key, s, seen)[i])
    decreases |s|
  {
    if s != [] {
      if key(s[0]) in seen {
        var r := DedupFrom(key, s[1..], seen);
        DedupKeepsFirst(key, s[1..], seen);
        forall i | 0 <= i < |r| ensures FirstWith(key, s, key(r[i])) == Some(r[i]) {
          assert key(r[i]) != key(s[0]);
          assert FirstWith(key, s[1..], key(r[i])) == Some(r[i]);
        }
      } else {
        var rest := DedupFrom(key, s[1..], seen + {key(s[0])});
        DedupKeepsFirst(key, s[1..], seen + {key(s[0])});
        var r := [s[0]] + rest;
        forall i | 0 <= i < |r| ensures FirstWith(key, s, key(r[i])) == Some(r[i]) {
          if i == 0 {
            assert r[0] == s[0];
          } else {
            assert r[i] == rest[i - 1];
            assert key(rest[i - 1]) != key(s[0]);
            assert FirstWith(key, s[1..], key(rest[i - 1])) == Some(rest[i - 1]);
          }
        }
      }
    }
  }

  /** A sequence with distinct fingerprints has as many elements as
      fingerprints. */
  lemma {:induction false} DistinctCount<T, K>(key: T -> K, s: seq<T>)
    requires DistinctKeys(key, s)
    ensures |Keys(key, s)| == |s|
    decreases |s|
  {
    if s != [] {
      DistinctCount(key, s[1..]);
      assert forall x :: x in s <==> x == s[0] || x in s[1..];
      assert Keys(key, s) == {key(s[0])} + Keys(key, s[1..]);
      forall x | x in s[1..] ensures key(x) != key(s[0]) {
        var j :| 0 <= j < |s[1..]| && s[1..][j] == x;
        assert s[j + 1] == x;
      }
    }
  }

  /** The number of unique jobs is the number of distinct fingerprints, so
      `total_duplicates` is the number of jobs minus that. */
  lemma DedupCount<T, K>(key: T -> K, s: seq<T>)
    ensures |Dedup(key, s)| == |Keys(key, s)| <= |s|
  {
    DedupKeys(key, s, {});
    DedupDistinct(key, s, {});
    DistinctCount(key, Dedup(key, s));
  }

  /** Deduplicating twice changes nothing. */
  lemma DedupIdempotent<T, K>(key: T -> K, s: seq<T>)
    ensures Dedup(key, Dedup(key, s)) == Dedup(key, s)
  {
    DedupDistinct(key, s, {});
    DistinctUnchanged(key, Dedup(key, s), {});
  }

  /** A sequence whose fingerprints are distinct and unseen is kept whole. */
  lemma {:induction false} DistinctUnchanged<T, K>(key: T -> K, s: seq<T>, seen: set<K>)
    requires DistinctKeys(key, s)
    requires forall i :: 0 <= i < |s| ==> key(s[i]) !in seen
    ensures DedupFrom(key, s, seen) == s
    decreases |s|
  {
    if s != [] {
      forall i | 0 <= i < |s[1..]| ensures key(s[1..][i]) !in seen + {key(s[0])} {
        assert s[1..][i] == s[i + 1];
      }
      DistinctUnchanged(key, s[1..], seen + {key(s[0])});
      assert [s[0]] + s[1..] == s;
    }
  }

  /** A sequence has at most as many fingerprints as elements. */
  lemma {:induction false} KeysBound<T, K>(key: T -> K, s: seq<T>)
    ensures |Keys(key, s)| <= |s|
    decreases |s|
  {
    if s != [] {
      KeysBound(key, s[1..]);
      assert forall x :: x in s <==> x == s[0] || x in s[1..];
      assert Keys(key, s) == {key(s[0])} + Keys(key, s[1..]);
    }
  }

  /** Two elements sharing a fingerprint leave fewer fingerprints than
      elements. */
  lemma RepeatCount<T, K>(key: T -> K, s: seq<T>, i: nat, j: nat)
    requires i < j < |s| && key(s[i]) == key(s[j])
    ensures |Keys(key, s)| < |s|
  {
    var t := s[..j] + s[j + 1..];
    forall k | 0 <= k < |t| ensures t[k] in s {
      if k < j {
        assert t[k] == s[k];
      } else {
        assert t[k] == s[k + 1];
      }
    }
    forall k | 0 <= k < |s| ensures key(s[k]) in Keys(key, t) {
      var m := if k < j then k else if k == j then i else k - 1;
      assert t[m] in t;
      assert key(t[m]) == key(s[k]);
    }
    assert Keys(key, t) == Keys(key, s);
    KeysBound(key, t);
  }

  /** Reordering keeps fingerprints distinct. */
  lemma DistinctPerm<T, K>(key: T -> K, s: seq<T>, r: seq<T>)
    requires multiset(r) == multiset(s)
    requires DistinctKeys(key, s)
    ensures DistinctKeys(key, r)
  {
    DistinctCount(key, s);
    assert |r| == |multiset(r)| == |s|;
    assert forall x :: x in r <==> x in s by {
      assert forall x :: x in r <==> x in multiset(r);
      assert forall x :: x in s <==> x in multiset(s);
    }
    assert Keys(key, r) == Keys(key, s);
    if !DistinctKeys(key, r) {
      var i, j :| 0 <= i < j < |r| && key(r[i]) == key(r[j]);
      RepeatCount(key, r, i, j);
    }
  }

  /** The loop of lines 142-146, with `seen_hashes` as a set. */
  method DedupJobs<T(==), K(==)>(key: T -> K, all: seq<T>) returns (unique: seq<T>)
    ensures unique == Dedup(key, all)
  {
    var seen: set<K> := {};
    unique := [];
    var i := 0;
    while i < |all|
      invariant i <= |all|
      invariant unique + DedupFrom(key, all[i..], seen) == Dedup(key, all)
    {
      var k := key(all[i]);
      assert all[i..][1..] == all[i + 1..];
      if k !in seen {
        seen := seen + {k};
        unique := unique + [all[i]];
      }
      i := i + 1;
    }
  }
}
