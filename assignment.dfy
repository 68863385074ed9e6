/**
 * Counselor assignment (utils/counselor_assignment.py). The eligible
 * counselors are the store's active counselors matching the category, or,
 * when there are none, the configured fallback list. Round robin picks the
 * eligible counselor with the fewest active sessions in the category; on a
 * tie the one listed first wins, as with Python's `min`. Random picks any
 * eligible counselor; the random index is an input.
 */
module Assignment {
  import opened Wrappers
  import Text
  import Config
  import SqlLike
  import opened Ordering
  import opened Store

  datatype Strategy = RoundRobin | Random

  /** The candidate list: the store's matches, else the configured list. */
  function Eligible(db: Database, category: string): (r: seq<int>)
    reads db
    ensures db.GetCounselorsByCategory(category) != [] ==> r == db.GetCounselorsByCategory(category)
    ensures db.GetCounselorsByCategory(category) == [] ==>
      r == if category in Config.CounselorCategories then Config.CounselorCategories[category] else []
  {
    var fromStore := db.GetCounselorsByCategory(category);
    if fromStore != [] then fromStore
    else if category in Config.CounselorCategories then Config.CounselorCategories[category]
    else []
  }

  /** Every configured fallback list is empty, so the candidates are always
      the store's matches. */
  lemma FallbackIsEmpty(db: Database, category: string)
    ensures Eligible(db, category) == db.GetCounselorsByCategory(category)
  {
  }

  /** The active sessions of `counselor` in `category`. */
  function LoadSet(sessions: map<int, Session>, counselor: int, category: string): set<int> {
    set id | id in sessions && sessions[id].status == Active &&
             sessions[id].category == category && sessions[id].counselor == counselor
  }

  /** The number of active sessions of `counselor` in `category`. */
  function Load(sessions: map<int, Session>, counselor: int, category: string): nat {
    |LoadSet(sessions, counselor, category)|
  }

  /** `sum(1 for s in category_sessions if s["counselor_telegram_id"] == c)`. */
  function CountServing(sessions: map<int, Session>, ids: seq<int>, counselor: int): (n: nat)
    requires forall i :: 0 <= i < |ids| ==> ids[i] in sessions
    ensures n <= |ids|
  {
    if ids == [] then 0
    else (if sessions[ids[0]].counselor == counselor then 1 else 0) + CountServing(sessions, ids[1..], counselor)
  }

  /** The active sessions of the category, newest first
      (`[s for s in active_sessions if s["category"] == category]`). */
  function InCategory(sessions: map<int, Session>, ids: seq<int>, category: string): (r: seq<int>)
    requires forall i :: 0 <= i < |ids| ==> ids[i] in sessions
    ensures forall x :: x in r <==> (x in ids && x in sessions && sessions[x].category == category)
    ensures Decreasing(ids) ==> Decreasing(r)
  {
    if ids == [] then []
    else
      var rest := InCategory(sessions, ids[1..], category);
      if sessions[ids[0]].category == category then
        assert Decreasing(ids) ==> Decreasing([ids[0]] + rest) by {
          if Decreasing(ids) {
            forall x | x in rest ensures ids[0] > x {
              var k :| 0 <= k < |ids[1..]| && ids[1..][k] == x;
              assert ids[k + 1] == x;
            }
            ConsDecreasing(ids[0], rest);
          }
        }
        [ids[0]] + rest
      else rest
  }

  /** The sessions of `ids` served by `counselor`, as a set. */
  function Serving(sessions: map<int, Session>, ids: seq<int>, counselor: int): (r: set<int>)
    requires forall i :: 0 <= i < |ids| ==> ids[i] in sessions
    ensures forall x :: x in r <==> (x in ids && x in sessions && sessions[x].counselor == counselor)
  {
    if ids == [] then {}
    else (if sessions[ids[0]].counselor == counselor then {ids[0]} else {}) + Serving(sessions, ids[1..], counselor)
  }

  /** Counting along a list without repeats gives the size of the set of
      matching elements. */
  lemma {:induction false} CountIsCardinality(sessions: map<int, Session>, ids: seq<int>, counselor: int)
    requires forall i :: 0 <= i < |ids| ==> ids[i] in sessions
    requires Decreasing(ids)
    ensures CountServing(sessions, ids, counselor) == |Serving(sessions, ids, counselor)|
  {
    if ids != [] {
      var tail := ids[1..];
      assert Decreasing(tail) by {
        forall i, j | 0 <= i < j < |tail| ensures tail[i] > tail[j] {
          assert tail[i] == ids[i + 1] && tail[j] == ids[j + 1];
        }
      }
      CountIsCardinality(sessions, tail, counselor);
      assert ids[0] !in Serving(sessions, tail, counselor);
    }
  }

  /** The count the source takes over the active sessions of the category is
      the load. */
  lemma CountIsLoad(sessions: map<int, Session>, active: seq<int>, category: string, counselor: int)
    requires forall x :: x in active <==> (x in sessions && sessions[x].status == Active)
    requires Decreasing(active)
    ensures forall i :: 0 <= i < |active| ==> active[i] in sessions
    ensures CountServing(sessions, InCategory(sessions, active, category), counselor) == Load(sessions, counselor, category)
  {
    assert forall i :: 0 <= i < |active| ==> active[i] in sessions by {
      forall i | 0 <= i < |active| ensures active[i] in sessions {
        assert active[i] in active;
      }
    }
    var inCategory := InCategory(sessions, active, category);
    CountIsCardinality(sessions, inCategory, counselor);
    var serving := Serving(sessions, inCategory, counselor);
    var loaded := LoadSet(sessions, counselor, category);
    forall x ensures x in serving <==> x in loaded {
      if x in loaded {
        assert x in sessions && sessions[x].status == Active;
        assert x in active;
        assert x in inCategory;
      }
      if x in serving {
        assert x in inCategory;
        assert x in active;
      }
    }
    assert serving == loaded;
  }

  /** The index of the first smallest element (Python's `min` keeps the first
      of equal keys). */
  function FirstMinIndex(xs: seq<nat>): (k: nat)
    requires |xs| > 0
    ensures k < |xs|
    ensures forall j :: 0 <= j < |xs| ==> xs[k] <= xs[j]
    ensures forall j :: 0 <= j < k ==> xs[j] > xs[k]
  {
    if |xs| == 1 then 0
    else
      var k := FirstMinIndex(xs[1..]);
      if xs[0] <= xs[1..][k] then 0 else k + 1
  }

  function Loads(sessions: map<int, Session>, ids: seq<int>, category: string): (r: seq<nat>)
    ensures |r| == |ids| && forall j :: 0 <= j < |ids| ==> r[j] == Load(sessions, ids[j], category)
  {
    seq(|ids|, j requires 0 <= j < |ids| => Load(sessions, ids[j], category))
  }

  /** `[counts.get(c, 0) for c in ids]`, the keys `min` compares. */
  function KeyedLoads(ids: seq<int>, counts: map<int, nat>): (r: seq<nat>)
    ensures |r| == |ids|
    ensures forall j :: 0 <= j < |ids| ==> r[j] == if ids[j] in counts then counts[ids[j]] else 0
  {
    seq(|ids|, j requires 0 <= j < |ids| => if ids[j] in counts then counts[ids[j]] else 0)
  }

  /** The keys `min` compares are the loads. */
  lemma CountsAreLoads(sessions: map<int, Session>, active: seq<int>, category: string, ids: seq<int>, counts: map<int, nat>)
    requires forall x :: x in active <==> (x in sessions && sessions[x].status == Active)
    requires Decreasing(active)
    requires forall i :: 0 <= i < |active| ==> active[i] in sessions
    requires forall j :: 0 <= j < |ids| ==> ids[j] in counts
    requires forall c :: c in counts ==> counts[c] == CountServing(sessions, InCategory(sessions, active, category), c)
    ensures KeyedLoads(ids, counts) == Loads(sessions, ids, category)
  {
    forall j | 0 <= j < |ids| ensures KeyedLoads(ids, counts)[j] == Loads(sessions, ids, category)[j] {
      CountIsLoad(sessions, active, category, ids[j]);
    }
  }

  /** The round-robin choice among `ids`. */
  function LeastLoaded(sessions: map<int, Session>, ids: seq<int>, category: string): (c: int)
    requires |ids| > 0
    ensures c in ids
    ensures forall j :: 0 <= j < |ids| ==> Load(sessions, c, category) <= Load(sessions, ids[j], category)
    ensures exists k :: 0 <= k < |ids| && ids[k] == c &&
                        forall j :: 0 <= j < k ==> Load(sessions, ids[j], category) > Load(sessions, c, category)
  {
    var loads := Loads(sessions, ids, category);
    var k := FirstMinIndex(loads);
    ids[k]
  }

  /** The loop filling `counselor_session_count`: one count per candidate. */
  method CountPerCounselor(sessions: map<int, Session>, inCategory: seq<int>, ids: seq<int>) returns (counts: map<int, nat>)
    requires forall k :: 0 <= k < |inCategory| ==> inCategory[k] in sessions
    ensures forall j :: 0 <= j < |ids| ==> ids[j] in counts
    ensures forall c :: c in counts ==> counts[c] == CountServing(sessions, inCategory, c)
  {
    counts := map[];
    var i := 0;
    while i < |ids|
      invariant 0 <= i <= |ids|
      invariant forall j :: 0 <= j < i ==> ids[j] in counts
      invariant forall c :: c in counts ==> counts[c] == CountServing(sessions, inCategory, c)
    {
      counts := counts[ids[i] := CountServing(sessions, inCategory, ids[i])];
      i := i + 1;
    }
  }

  /** `assign_counselor`: `None` exactly when there is no candidate; otherwise
      a candidate, and with round robin the least-loaded one. */
  method AssignCounselor(db: Database, category: string, strategy: Strategy, pick: nat) returns (r: Option<int>)
    ensures r.None? <==> Eligible(db, category) == []
    ensures r.Some? ==> r.value in Eligible(db, category)
    ensures r.Some? && strategy == RoundRobin ==> r.value == LeastLoaded(db.sessions, Eligible(db, category), category)
  {
    var ids := db.GetCounselorsByCategory(category);
    if ids == [] {
      ids := if category in Config.CounselorCategories then Config.CounselorCategories[category] else [];
    }
    if ids == [] {
      return None;
    }
    if strategy == Random {
      return Some(ids[pick % |ids|]);
    }
    var c := LeastLoadedOf(db.sessions, db.GetAllActiveSessions(), ids, category);
    r := Some(c);
  }

  /** The round-robin branch: count each candidate's sessions among the active
      sessions of the category, then take the first candidate with the
      smallest count. */
  method LeastLoadedOf(sessions: map<int, Session>, active: seq<int>, ids: seq<int>, category: string) returns (c: int)
    requires forall x :: x in active <==> (x in sessions && sessions[x].status == Active)
    requires Decreasing(active)
    requires |ids| > 0
    ensures c == LeastLoaded(sessions, ids, category)
  {
    CountIsLoad(sessions, active, category, 0);
    var inCategory := InCategory(sessions, active, category);
    var counts := CountPerCounselor(sessions, inCategory, ids);
    CountsAreLoads(sessions, active, category, ids, counts);
    c := ids[FirstMinIndex(KeyedLoads(ids, counts))];
  }

  /** Only the active sessions of the category count: two session tables that
      agree on those give every counselor the same load, hence the same
      round-robin choice. Finished sessions and other categories do not
      matter. */
  lemma OnlyActiveInCategoryMatters(s1: map<int, Session>, s2: map<int, Session>, ids: seq<int>, category: string)
    requires |ids| > 0
    requires forall id :: (id in s1 && s1[id].status == Active && s1[id].category == category) <==>
                          (id in s2 && s2[id].status == Active && s2[id].category == category)
    requires forall id :: id in s1 && id in s2 && s1[id].status == Active && s1[id].category == category ==>
                          s1[id].counselor == s2[id].counselor
    ensures LeastLoaded(s1, ids, category) == LeastLoaded(s2, ids, category)
  {
    forall c ensures Load(s1, c, category) == Load(s2, c, category) {
      var a := LoadSet(s1, c, category);
      var b := LoadSet(s2, c, category);
      forall x ensures x in a <==> x in b {
        if x in a { assert x in s2; }
        if x in b { assert x in s1; }
      }
      assert a == b;
    }
    assert Loads(s1, ids, category) == Loads(s2, ids, category);
  }
}
