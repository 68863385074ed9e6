/**
 * Row order of the queries. A table whose key is an INTEGER PRIMARY KEY is
 * scanned in ascending key order; `ORDER BY created_at DESC` over sessions
 * created one after the other is descending session id; `ORDER BY
 * finished_at DESC` sorts by a key.
 */
module Ordering {

  predicate Increasing(s: seq<int>) {
    forall i, j :: 0 <= i < j < |s| ==> s[i] < s[j]
  }

  predicate Decreasing(s: seq<int>) {
    forall i, j :: 0 <= i < j < |s| ==> s[i] > s[j]
  }

  /** No value occurs twice. */
  predicate Distinct(s: seq<int>) {
    forall i, j :: 0 <= i < j < |s| ==> s[i] != s[j]
  }

  /** A sequence without repeats holds each value at most once. */
  lemma {:induction false} DistinctCountsAtMostOne(s: seq<int>, x: int)
    requires Distinct(s)
    ensures multiset(s)[x] <= 1
    decreases |s|
  {
    if s != [] {
      var t := s[1..];
      forall i, j | 0 <= i < j < |t| ensures t[i] != t[j] {
        assert t[i] == s[i + 1] && t[j] == s[j + 1];
      }
      DistinctCountsAtMostOne(t, x);
      assert s[0] !in t by {
        forall k | 0 <= k < |t| ensures t[k] != s[0] {
          assert t[k] == s[k + 1];
        }
      }
      assert s == [s[0]] + t;
      assert multiset(s) == multiset{s[0]} + multiset(t);
    }
  }

  /** A permutation of a sequence without repeats has none either. */
  lemma PermutationKeepsDistinct(a: seq<int>, b: seq<int>)
    requires Distinct(a) && multiset(a) == multiset(b)
    ensures Distinct(b)
  {
    forall i, j | 0 <= i < j < |b| ensures b[i] != b[j] {
      DistinctCountsAtMostOne(a, b[j]);
      assert b == b[..j] + [b[j]] + b[j + 1..];
      assert multiset(b) == multiset(b[..j]) + multiset{b[j]} + multiset(b[j + 1..]);
      assert b[..j][i] == b[i];
      assert multiset(b)[b[j]] == multiset(b[..j])[b[j]] + 1 + multiset(b[j + 1..])[b[j]];
    }
  }

  lemma ConsIncreasing(x: int, s: seq<int>)
    requires Increasing(s) && forall y :: y in s ==> x < y
    ensures Increasing([x] + s)
  {
    forall i, j | 0 <= i < j < |[x] + s| ensures ([x] + s)[i] < ([x] + s)[j] {
      assert ([x] + s)[j] == s[j - 1];
      if i > 0 {
        assert ([x] + s)[i] == s[i - 1];
      } else {
        assert s[j - 1] in s;
      }
    }
  }

  lemma ConsDecreasing(x: int, s: seq<int>)
    requires Decreasing(s) && forall y :: y in s ==> x > y
    ensures Decreasing([x] + s)
  {
    forall i, j | 0 <= i < j < |[x] + s| ensures ([x] + s)[i] > ([x] + s)[j] {
      assert ([x] + s)[j] == s[j - 1];
      if i > 0 {
        assert ([x] + s)[i] == s[i - 1];
      } else {
        assert s[j - 1] in s;
      }
    }
  }

  /** The first element of a decreasing sequence is its largest. */
  lemma DecreasingHeadIsMax(s: seq<int>)
    requires Decreasing(s) && |s| > 0
    ensures forall y :: y in s ==> y <= s[0]
  {
    forall y | y in s ensures y <= s[0] {
      var k :| 0 <= k < |s| && s[k] == y;
    }
  }

  lemma {:induction false} MinExists(s: set<int>)
    requires s != {}
    ensures exists m :: m in s && forall y :: y in s ==> m <= y
    decreases |s|
  {
    var x := Pick(s);
    if s != {x} {
      MinExists(s - {x});
      var m :| m in s - {x} && forall y :: y in s - {x} ==> m <= y;
      var least := if x < m then x else m;
      forall y | y in s ensures least <= y {
        if y != x {
          assert y in s - {x};
        }
      }
    } else {
      assert forall y :: y in s ==> x <= y;
    }
  }

  ghost function Pick(s: set<int>): (x: int)
    requires s != {}
    ensures x in s
  {
    if forall y :: y !in s then assert false; 0
    else var y :| y in s; y
  }

  /** The elements of `s` in ascending order; `AscendingIsIncreasing`
      states the order. */
  function Ascending(s: set<int>): (r: seq<int>)
    ensures |r| == |s|
    ensures forall x :: x in r <==> x in s
    decreases |s|
  {
    if s == {} then []
    else
      var m := Min(s);
      assert |s - {m}| == |s| - 1;
      [m] + Ascending(s - {m})
  }

  function Min(s: set<int>): (m: int)
    requires s != {}
    ensures m in s && forall y :: y in s ==> m <= y
  {
    MinExists(s);
    var m :| m in s && forall y :: y in s ==> m <= y;
    m
  }

  lemma {:induction false} AscendingIsIncreasing(s: set<int>)
    ensures Increasing(Ascending(s))
    decreases |s|
  {
    if s != {} {
      var m := Min(s);
      AscendingIsIncreasing(s - {m});
      ConsIncreasing(m, Ascending(s - {m}));
    }
  }

  lemma {:induction false} MaxExists(s: set<int>)
    requires s != {}
    ensures exists m :: m in s && forall y :: y in s ==> y <= m
    decreases |s|
  {
    var x := Pick(s);
    if s != {x} {
      MaxExists(s - {x});
      var m :| m in s - {x} && forall y :: y in s - {x} ==> y <= m;
      var greatest := if x > m then x else m;
      forall y | y in s ensures y <= greatest {
        if y != x {
          assert y in s - {x};
        }
      }
    } else {
      assert forall y :: y in s ==> y <= x;
    }
  }

  /** The elements of `s` in descending order; `DescendingIsDecreasing`
      states the order. */
  function Descending(s: set<int>): (r: seq<int>)
    ensures |r| == |s|
    ensures forall x :: x in r <==> x in s
    decreases |s|
  {
    if s == {} then []
    else
      var m := Max(s);
      assert |s - {m}| == |s| - 1;
      [m] + Descending(s - {m})
  }

  function Max(s: set<int>): (m: int)
    requires s != {}
    ensures m in s && forall y :: y in s ==> y <= m
  {
    MaxExists(s);
    var m :| m in s && forall y :: y in s ==> y <= m;
    m
  }

  lemma {:induction false} DescendingIsDecreasing(s: set<int>)
    ensures Decreasing(Descending(s))
    decreases |s|
  {
    if s != {} {
      var m := Max(s);
      DescendingIsDecreasing(s - {m});
      ConsDecreasing(m, Descending(s - {m}));
    }
  }

  /** A strictly ordered sequence has no repeats: it has as many elements
      as the set of its elements. */
  lemma {:induction false} DecreasingCount(s: seq<int>)
    requires Decreasing(s)
    ensures |set x | x in s| == |s|
  {
    if s != [] {
      var tail := s[1..];
      assert Decreasing(tail) by {
        forall i, j | 0 <= i < j < |tail| ensures tail[i] > tail[j] {
          assert tail[i] == s[i + 1] && tail[j] == s[j + 1];
        }
      }
      DecreasingCount(tail);
      assert s[0] !in tail by {
        forall k | 0 <= k < |tail| ensures tail[k] != s[0] {
          assert tail[k] == s[k + 1];
        }
      }
      assert (set x | x in s) == (set x | x in tail) + {s[0]};
    }
  }

  /** `ids` sorted by `key` from the largest to the smallest key; equal keys
      keep their order. */
  function SortByKeyDesc(ids: seq<int>, key: map<int, nat>): (r: seq<int>)
    requires forall i :: 0 <= i < |ids| ==> ids[i] in key
    ensures multiset(r) == multiset(ids)
    ensures forall i :: 0 <= i < |r| ==> r[i] in key
    ensures forall i, j :: 0 <= i < j < |r| ==> key[r[i]] >= key[r[j]]
  {
    if ids == [] then []
    else
      assert ids == [ids[0]] + ids[1..];
      InsertByKey(ids[0], SortByKeyDesc(ids[1..], key), key)
  }

  function InsertByKey(x: int, sorted: seq<int>, key: map<int, nat>): (r: seq<int>)
    requires x in key && forall i :: 0 <= i < |sorted| ==> sorted[i] in key
    requires forall i, j :: 0 <= i < j < |sorted| ==> key[sorted[i]] >= key[sorted[j]]
    ensures multiset(r) == multiset([x] + sorted)
    ensures forall i :: 0 <= i < |r| ==> r[i] in key
    ensures forall i, j :: 0 <= i < j < |r| ==> key[r[i]] >= key[r[j]]
  {
    if sorted == [] || key[x] >= key[sorted[0]] then [x] + sorted
    else
      var rest := InsertByKey(x, sorted[1..], key);
      InsertBehindHead(x, sorted, rest, key);
      [sorted[0]] + rest
  }

  lemma InsertBehindHead(x: int, sorted: seq<int>, rest: seq<int>, key: map<int, nat>)
    requires sorted != [] && x in key && forall i :: 0 <= i < |sorted| ==> sorted[i] in key
    requires forall i, j :: 0 <= i < j < |sorted| ==> key[sorted[i]] >= key[sorted[j]]
    requires key[x] < key[sorted[0]]
    requires multiset(rest) == multiset([x] + sorted[1..])
    requires forall i :: 0 <= i < |rest| ==> rest[i] in key
    ensures forall i :: 0 <= i < |rest| ==> key[sorted[0]] >= key[rest[i]]
    ensures multiset([sorted[0]] + rest) == multiset([x] + sorted)
  {
    forall i | 0 <= i < |rest| ensures key[sorted[0]] >= key[rest[i]] {
      assert rest[i] in multiset([x] + sorted[1..]);
      if rest[i] != x {
        assert rest[i] in sorted[1..];
        var k :| 0 <= k < |sorted[1..]| && sorted[1..][k] == rest[i];
        assert sorted[k + 1] == rest[i];
      }
    }
    assert sorted == [sorted[0]] + sorted[1..];
  }

  /** Python's `xs[:n]` / SQL `LIMIT n`. */
  function Take(xs: seq<int>, n: nat): (r: seq<int>)
    ensures |r| == if |xs| < n then |xs| else n
    ensures r == xs[..|r|]
  {
    if |xs| <= n then xs else xs[..n]
  }
}
