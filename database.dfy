/**
 * The bot's SQLite store (database.py) as four abstract tables owned by one
 * `Database` object: users, counselors, chat sessions and messages.
 *
 * - A table keyed by an INTEGER PRIMARY KEY is a map from that key to the
 *   rest of the row; the append-only messages table is a sequence.
 * - `created_at` and `sent_at` are not stored: rows are created one after the
 *   other, so ordering by them is ordering by session id and by message
 *   position. `finished_at` is a value of a counter that each successful
 *   finish advances.
 * - Every write method catches its own exceptions and returns False (or
 *   None); `fault` stands for such a failure, which leaves the tables as they
 *   were.
 */
module Store {
  import opened Wrappers
  import Text
  import SqlLike
  import opened Ordering

  datatype UserRow = UserRow(anonymousId: string, blocked: bool)

  datatype CounselorRow = CounselorRow(categories: string, active: bool)

  datatype Status = Active | Finished

  datatype Session = Session(user: int, counselor: int, category: string, status: Status, finishedAt: Option<nat>)

  /** The `message_type` column. */
  datatype MessageKind = TextMessage | Photo | Voice | Video | Document

  datatype MessageRow = MessageRow(sessionId: int, sender: int, kind: MessageKind, content: Option<string>, fileId: Option<string>)

  /** One entry of `get_all_counselors()`. */
  datatype CounselorInfo = CounselorInfo(telegramId: int, categories: seq<string>, active: bool)

  /** The contents of all tables at one moment. */
  datatype Tables = Tables(
    users: map<int, UserRow>,
    counselors: map<int, CounselorRow>,
    sessions: map<int, Session>,
    lastSessionId: nat,
    messages: seq<MessageRow>,
    clock: nat)
  {
    /** The schema's constraints and what the operations keep: `anonymous_id`
        is UNIQUE, session ids come from AUTOINCREMENT, and a session has a
        `finished_at` exactly when its status is 'finished'. */
    predicate Valid() {
      HandlesDistinct(users) &&
      (forall id :: id in sessions ==> 1 <= id <= lastSessionId) &&
      (forall id :: id in sessions ==> FinishRecorded(sessions[id], clock))
    }

    /** The tables after `finish_session(id)` commits: the session, when it
        exists, is 'finished' at the current time, which then advances. */
    function Finish(id: int): Tables {
      if id in sessions then
        this.(sessions := sessions[id := sessions[id].(status := Finished, finishedAt := Some(clock))], clock := clock + 1)
      else this
    }

    /** The tables after `create_chat_session` commits. */
    function Open(user: int, counselor: int, category: string): Tables {
      this.(sessions := sessions[lastSessionId + 1 := Session(user, counselor, category, Active, None)],
            lastSessionId := lastSessionId + 1)
    }

    /** The tables after `save_message` commits. */
    function Append(row: MessageRow): Tables {
      this.(messages := messages + [row])
    }
  }

  /** A value SQLite's INTEGER can hold: a signed 64-bit number. Python's
      `sqlite3` refuses to bind any other `int` as a parameter and raises
      `OverflowError` before the statement runs. */
  predicate SqlInteger(v: int) {
    -0x8000_0000_0000_0000 <= v < 0x8000_0000_0000_0000
  }

  /** The handle stored for `telegramId`, if it has a row. */
  function AnonymousIdOf(users: map<int, UserRow>, telegramId: int): Option<string> {
    if telegramId in users then Some(users[telegramId].anonymousId) else None
  }

  predicate HandlesDistinct(users: map<int, UserRow>) {
    forall t, u :: t in users && u in users && t != u ==> users[t].anonymousId != users[u].anonymousId
  }

  predicate FinishRecorded(s: Session, clock: nat) {
    (s.status == Finished <==> s.finishedAt.Some?) &&
    (s.finishedAt.Some? ==> s.finishedAt.value < clock)
  }

  /** No user has two active sessions at once. The store does not enforce
      this (see `CreateWithoutCheckBreaksOneActive`); the conversation
      handlers keep it. */
  predicate AtMostOneActive(sessions: map<int, Session>) {
    forall a, b ::
      (a in sessions && b in sessions && sessions[a].status == Active &&
       sessions[b].status == Active && sessions[a].user == sessions[b].user) ==> a == b
  }

  /** Finishing a session never gives anybody a second active session. */
  lemma FinishKeepsOneActive(t: Tables, id: int)
    requires AtMostOneActive(t.sessions)
    ensures AtMostOneActive(t.Finish(id).sessions)
  {
  }

  /** With at most one active session per user, finishing the user's active
      session leaves the user with none. */
  lemma FinishEndsTheActiveSession(t: Tables, id: int)
    requires AtMostOneActive(t.sessions)
    requires id in t.sessions && t.sessions[id].status == Active
    ensures forall x :: x in t.Finish(id).sessions ==>
      !(t.Finish(id).sessions[x].user == t.sessions[id].user && t.Finish(id).sessions[x].status == Active)
  {
  }

  /** Opening a session for a user who has no active session keeps at most
      one active session per user. */
  lemma OpenKeepsOneActive(t: Tables, user: int, counselor: int, category: string)
    requires t.Valid() && AtMostOneActive(t.sessions)
    requires forall x :: x in t.sessions ==> !(t.sessions[x].user == user && t.sessions[x].status == Active)
    ensures AtMostOneActive(t.Open(user, counselor, category).sessions)
  {
  }

  // ------------------------------------------------------------ row scans

  /** The first of `ids` whose user row carries handle `a`. */
  function FirstWithHandle(users: map<int, UserRow>, ids: seq<int>, a: string): (r: Option<int>)
    requires forall i :: 0 <= i < |ids| ==> ids[i] in users
    ensures r.Some? ==> r.value in users && users[r.value].anonymousId == a && r.value in ids
    ensures r.None? ==> forall i :: 0 <= i < |ids| ==> users[ids[i]].anonymousId != a
  {
    if ids == [] then None
    else if users[ids[0]].anonymousId == a then Some(ids[0])
    else FirstWithHandle(users, ids[1..], a)
  }

  /** The ids of `ids`, in order, of active counselors whose category string
      matches `LIKE '%category%'`. */
  function SelectCounselors(counselors: map<int, CounselorRow>, ids: seq<int>, category: string): (r: seq<int>)
    requires forall i :: 0 <= i < |ids| ==> ids[i] in counselors
    ensures forall x :: x in r <==> (x in ids && x in counselors && counselors[x].active &&
                                      SqlLike.Like(counselors[x].categories, SqlLike.ContainsPattern(category)))
    ensures Increasing(ids) ==> Increasing(r)
  {
    if ids == [] then []
    else
      var rest := SelectCounselors(counselors, ids[1..], category);
      var row := counselors[ids[0]];
      if row.active && SqlLike.Like(row.categories, SqlLike.ContainsPattern(category))
      then
        assert Increasing(ids) ==> Increasing([ids[0]] + rest) by {
          if Increasing(ids) {
            forall x | x in rest ensures ids[0] < x {
              var k :| 0 <= k < |ids[1..]| && ids[1..][k] == x;
              assert ids[k + 1] == x;
            }
            ConsIncreasing(ids[0], rest);
          }
        }
        [ids[0]] + rest
      else rest
  }

  /** Which sessions a session query asks for. */
  datatype Where = OfCounselor(counselor: int, status: Status) | ActiveOfUser(user: int) | AnyWith(status: Status)

  predicate Holds(w: Where, s: Session) {
    match w
    case OfCounselor(c, st) => s.counselor == c && s.status == st
    case ActiveOfUser(u) => s.user == u && s.status == Active
    case AnyWith(st) => s.status == st
  }

  /** The ids of `ids`, in order, of the sessions `w` asks for. */
  function SelectSessions(sessions: map<int, Session>, ids: seq<int>, w: Where): (r: seq<int>)
    requires forall i :: 0 <= i < |ids| ==> ids[i] in sessions
    ensures forall x :: x in r <==> (x in ids && x in sessions && Holds(w, sessions[x]))
    ensures Decreasing(ids) ==> Decreasing(r)
  {
    if ids == [] then []
    else
      var rest := SelectSessions(sessions, ids[1..], w);
      if Holds(w, sessions[ids[0]]) then
        assert Decreasing(ids) ==> Decreasing([ids[0]] + rest) by {
          if Decreasing(ids) {
            forall x | x in rest ensures ids[0] > x {
              var k :| 0 <= k < |ids[1..]| && ids[1..][k] == x;
              assert ids[k + 1] == x;
            }
            ConsDecreasing(ids[0], rest);
          }
        }
        [ids[0]] + rest
      else rest
  }

  /** Selecting from ids in ascending order keeps them ascending, so no
      session is selected twice. */
  lemma {:induction false} SelectKeepsIncreasing(sessions: map<int, Session>, ids: seq<int>, w: Where)
    requires forall i :: 0 <= i < |ids| ==> ids[i] in sessions
    requires Increasing(ids)
    ensures Increasing(SelectSessions(sessions, ids, w))
    decreases |ids|
  {
    if ids != [] {
      var rest := SelectSessions(sessions, ids[1..], w);
      SelectKeepsIncreasing(sessions, ids[1..], w);
      if Holds(w, sessions[ids[0]]) {
        forall x | x in rest ensures ids[0] < x {
          var k :| 0 <= k < |ids[1..]| && ids[1..][k] == x;
          assert ids[k + 1] == x;
        }
        ConsIncreasing(ids[0], rest);
      }
    }
  }

  /** The messages of session `sid`, in the order they were stored. */
  function MessagesOf(messages: seq<MessageRow>, sid: int): (r: seq<MessageRow>)
    ensures forall m :: m in r <==> m in messages && m.sessionId == sid
    ensures |r| <= |messages|
  {
    if messages == [] then []
    else
      var last := messages[|messages| - 1];
      var init := messages[..|messages| - 1];
      assert messages == init + [last];
      MessagesOf(init, sid) + (if last.sessionId == sid then [last] else [])
  }

  /** The positions in the table of the messages of session `sid`, in
      increasing order. */
  function PositionsOf(messages: seq<MessageRow>, sid: int): (ps: seq<nat>)
    ensures forall j :: 0 <= j < |ps| ==> ps[j] < |messages| && messages[ps[j]].sessionId == sid
    ensures forall j, k :: 0 <= j < k < |ps| ==> ps[j] < ps[k]
    ensures forall p :: 0 <= p < |messages| && messages[p].sessionId == sid ==> p in ps
  {
    if messages == [] then []
    else
      var n := |messages| - 1;
      var ps := PositionsOf(messages[..n], sid);
      assert forall p :: 0 <= p < n ==> messages[..n][p] == messages[p];
      if messages[n].sessionId == sid then ps + [n] else ps
  }

  /** The messages of a session are the table's rows at that session's
      positions, in table order: nothing is dropped, added or reordered. */
  lemma {:induction false} MessagesOfInOrder(messages: seq<MessageRow>, sid: int)
    ensures |MessagesOf(messages, sid)| == |PositionsOf(messages, sid)|
    ensures forall j :: 0 <= j < |PositionsOf(messages, sid)| ==>
      MessagesOf(messages, sid)[j] == messages[PositionsOf(messages, sid)[j]]
  {
    if messages != [] {
      var n := |messages| - 1;
      var init, last := messages[..n], messages[n];
      MessagesOfInOrder(init, sid);
      var r0, ps0 := MessagesOf(init, sid), PositionsOf(init, sid);
      var r, ps := MessagesOf(messages, sid), PositionsOf(messages, sid);
      if last.sessionId == sid {
        assert r == r0 + [last] && ps == ps0 + [n];
      } else {
        assert r == r0 && ps == ps0;
      }
      forall j | 0 <= j < |ps0| ensures r[j] == messages[ps[j]] {
        assert r[j] == r0[j] && ps[j] == ps0[j];
        assert init[ps0[j]] == messages[ps0[j]];
      }
    }
  }

  lemma MessagesOfAppend(messages: seq<MessageRow>, m: MessageRow, sid: int)
    ensures MessagesOf(messages + [m], sid) ==
      MessagesOf(messages, sid) + (if m.sessionId == sid then [m] else [])
  {
    assert (messages + [m])[..|messages|] == messages;
  }

  function CounselorInfos(counselors: map<int, CounselorRow>, ids: seq<int>): (r: seq<CounselorInfo>)
    requires forall i :: 0 <= i < |ids| ==> ids[i] in counselors
    ensures |r| == |ids|
    ensures forall i :: 0 <= i < |r| ==>
      (r[i].telegramId == ids[i] &&
       r[i].categories == Text.Split(counselors[ids[i]].categories, ',') &&
       r[i].active == counselors[ids[i]].active)
  {
    if ids == [] then []
    else
      var row := counselors[ids[0]];
      [CounselorInfo(ids[0], Text.Split(row.categories, ','), row.active)] + CounselorInfos(counselors, ids[1..])
  }

  lemma EveryIdListed(ids: seq<int>, r: seq<CounselorInfo>, keys: set<int>)
    requires |r| == |ids| && forall i :: 0 <= i < |r| ==> r[i].telegramId == ids[i]
    requires forall x :: x in ids <==> x in keys
    ensures forall t :: t in keys ==> exists i :: 0 <= i < |r| && r[i].telegramId == t
  {
    forall t | t in keys ensures exists i :: 0 <= i < |r| && r[i].telegramId == t {
      var i :| 0 <= i < |ids| && ids[i] == t;
      assert r[i].telegramId == t;
    }
  }

  /** Creating a session without looking for an active one, as the store
      does, can give a user two active sessions. */
  lemma CreateWithoutCheckBreaksOneActive(sessions: map<int, Session>, old_id: int, id: int, counselor: int, category: string)
    requires old_id in sessions && sessions[old_id].status == Active && id !in sessions
    ensures !AtMostOneActive(sessions[id := Session(sessions[old_id].user, counselor, category, Active, None)])
  {
    var after := sessions[id := Session(sessions[old_id].user, counselor, category, Active, None)];
    assert old_id in after && id in after && after[old_id].user == after[id].user;
  }

  // ------------------------------------------------------------ the store

  class Database {
    var users: map<int, UserRow>
    var counselors: map<int, CounselorRow>
    var sessions: map<int, Session>
    var lastSessionId: nat
    var messages: seq<MessageRow>
    var clock: nat

    function Snapshot(): Tables
      reads this
    {
      Tables(users, counselors, sessions, lastSessionId, messages, clock)
    }

    ghost predicate Valid()
      reads this
    {
      Snapshot().Valid()
    }

    /** `init_database` on a fresh file: four empty tables. */
    constructor ()
      ensures Valid()
      ensures Snapshot() == Tables(map[], map[], map[], 0, [], 0)
    {
      users, counselors, sessions, lastSessionId, messages, clock := map[], map[], map[], 0, [], 0;
    }

    // ---------------------------------------------------------- users

    /** `INSERT OR IGNORE INTO users`: a row is added only when neither the
        telegram id nor the handle is taken; otherwise the first mapping
        stays. The call reports success either way. */
    method CreateUser(telegramId: int, anonymousId: string, fault: bool) returns (ok: bool)
      requires Valid()
      modifies this
      ensures Valid()
      ensures ok == !fault
      ensures Snapshot() == old(Snapshot()).(users :=
        if !fault && telegramId !in old(users) && old(GetUserTelegramId(anonymousId)).None?
        then old(users)[telegramId := UserRow(anonymousId, false)]
        else old(users))
      ensures telegramId in old(users) ==> users[telegramId] == old(users[telegramId])
      ensures ok && telegramId !in old(users) && old(GetUserTelegramId(anonymousId)).None? ==>
        GetUserAnonymousId(telegramId) == Some(anonymousId) && GetUserTelegramId(anonymousId) == Some(telegramId)
    {
      ok := !fault;
      if !fault && telegramId !in users && GetUserTelegramId(anonymousId).None? {
        users := users[telegramId := UserRow(anonymousId, false)];
        HandleOwner(telegramId);
      }
    }

    function GetUserAnonymousId(telegramId: int): (r: Option<string>)
      reads this
      ensures r.Some? <==> telegramId in users
      ensures r.Some? ==> r.value == users[telegramId].anonymousId
    {
      AnonymousIdOf(users, telegramId)
    }

    /** The telegram id whose row holds handle `anonymousId`, found by a scan
        in key order. */
    function GetUserTelegramId(anonymousId: string): (r: Option<int>)
      reads this
      ensures r.Some? ==> r.value in users && users[r.value].anonymousId == anonymousId
      ensures r.None? <==> forall t :: t in users ==> users[t].anonymousId != anonymousId
    {
      FirstWithHandle(users, Ascending(users.Keys), anonymousId)
    }

    /** Handles are unique, so looking a stored handle up gives its owner. */
    lemma HandleOwner(telegramId: int)
      requires Valid() && telegramId in users
      ensures GetUserTelegramId(users[telegramId].anonymousId) == Some(telegramId)
    {
    }

    method BlockUser(telegramId: int, fault: bool) returns (ok: bool)
      requires Valid()
      modifies this
      ensures Valid()
      ensures ok == (!fault && SqlInteger(telegramId))
      ensures Snapshot() == old(Snapshot()).(users :=
        if ok && telegramId in old(users)
        then old(users)[telegramId := old(users[telegramId]).(blocked := true)]
        else old(users))
      ensures ok ==> (IsUserBlocked(telegramId) <==> telegramId in users)
    {
      ok := !fault && SqlInteger(telegramId);
      if ok && telegramId in users {
        users := users[telegramId := users[telegramId].(blocked := true)];
      }
    }

    method UnblockUser(telegramId: int, fault: bool) returns (ok: bool)
      requires Valid()
      modifies this
      ensures Valid()
      ensures ok == (!fault && SqlInteger(telegramId))
      ensures Snapshot() == old(Snapshot()).(users :=
        if ok && telegramId in old(users)
        then old(users)[telegramId := old(users[telegramId]).(blocked := false)]
        else old(users))
      ensures ok ==> !IsUserBlocked(telegramId)
    {
      ok := !fault && SqlInteger(telegramId);
      if ok && telegramId in users {
        users := users[telegramId := users[telegramId].(blocked := false)];
      }
    }

    /** A telegram id without a row is never blocked. */
    function IsUserBlocked(telegramId: int): (r: bool)
      reads this
      ensures r ==> telegramId in users
      ensures telegramId in users ==> (r <==> users[telegramId].blocked)
    {
      telegramId in users && users[telegramId].blocked
    }

    // ---------------------------------------------------------- counselors

    /** `INSERT OR REPLACE`: the comma-joined categories replace any earlier
        registration, and `is_active` takes its default, 1. */
    method AddCounselor(telegramId: int, categories: seq<string>, fault: bool) returns (ok: bool)
      requires Valid()
      modifies this
      ensures Valid()
      ensures ok == (!fault && SqlInteger(telegramId))
      ensures Snapshot() == old(Snapshot()).(counselors :=
        if !ok then old(counselors)
        else old(counselors)[telegramId := CounselorRow(Text.Join(categories, ','), true)])
      ensures ok && |categories| >= 1 && (forall i :: 0 <= i < |categories| ==> ',' !in categories[i]) ==>
        RegisteredCategories(telegramId) == Some(categories)
    {
      ok := !fault && SqlInteger(telegramId);
      if ok {
        counselors := counselors[telegramId := CounselorRow(Text.Join(categories, ','), true)];
        if |categories| >= 1 && (forall i :: 0 <= i < |categories| ==> ',' !in categories[i]) {
          Text.SplitJoin(categories, ',');
        }
      }
    }

    method RemoveCounselor(telegramId: int, fault: bool) returns (ok: bool)
      requires Valid()
      modifies this
      ensures Valid()
      ensures ok == (!fault && SqlInteger(telegramId))
      ensures Snapshot() == old(Snapshot()).(counselors :=
        if !ok then old(counselors) else old(counselors) - {telegramId})
      ensures ok ==> !IsCounselor(telegramId)
    {
      ok := !fault && SqlInteger(telegramId);
      if ok {
        counselors := counselors - {telegramId};
      }
    }

    /** The active counselors, in ascending telegram id, whose category
        string matches `LIKE '%category%'`: a substring test in which `_` is
        a wildcard and ASCII letters ignore case. */
    function GetCounselorsByCategory(category: string): (r: seq<int>)
      reads this
      ensures Increasing(r)
      ensures forall x :: x in r <==>
        (x in counselors && counselors[x].active &&
         SqlLike.Like(counselors[x].categories, SqlLike.ContainsPattern(category)))
    {
      AscendingIsIncreasing(counselors.Keys);
      SelectCounselors(counselors, Ascending(counselors.Keys), category)
    }

    /** Whether a row exists, active or not. */
    function IsCounselor(telegramId: int): (r: bool)
      reads this
      ensures r <==> telegramId in counselors
    {
      telegramId in counselors
    }

    /** The category list `get_all_counselors` reports for one counselor. */
    function RegisteredCategories(telegramId: int): (r: Option<seq<string>>)
      reads this
      ensures r.Some? <==> telegramId in counselors
      ensures r.Some? ==> Text.Join(r.value, ',') == counselors[telegramId].categories
    {
      if telegramId in counselors then
        Text.JoinSplit(counselors[telegramId].categories, ',');
        Some(Text.Split(counselors[telegramId].categories, ','))
      else None
    }

    /** Every counselor row, in ascending telegram id, with its categories
        split at the commas. */
    function GetAllCounselors(): (r: seq<CounselorInfo>)
      reads this
      ensures |r| == |counselors|
      ensures forall i :: 0 <= i < |r| ==>
        (r[i].telegramId in counselors &&
         r[i].categories == Text.Split(counselors[r[i].telegramId].categories, ',') &&
         r[i].active == counselors[r[i].telegramId].active)
      ensures forall i, j :: 0 <= i < j < |r| ==> r[i].telegramId < r[j].telegramId
      ensures forall t :: t in counselors ==> exists i :: 0 <= i < |r| && r[i].telegramId == t
    {
      var ids := Ascending(counselors.Keys);
      AscendingIsIncreasing(counselors.Keys);
      var r := CounselorInfos(counselors, ids);
      EveryIdListed(ids, r, counselors.Keys);
      r
    }

    // ---------------------------------------------------------- sessions

    /** AUTOINCREMENT gives the next id; the new session is 'active'. There is
        no check for an active session of the same user. */
    method CreateChatSession(user: int, counselor: int, category: string, fault: bool) returns (id: Option<int>)
      requires Valid()
      modifies this
      ensures Valid()
      ensures fault <==> id.None?
      ensures id.Some? ==> id.value == old(lastSessionId) + 1
      ensures id.Some? ==> id.value !in old(sessions) && forall x :: x in old(sessions) ==> x < id.value
      ensures Snapshot() == if fault then old(Snapshot()) else old(Snapshot()).Open(user, counselor, category)
    {
      if fault {
        id := None;
      } else {
        var fresh_id := lastSessionId + 1;
        sessions := sessions[fresh_id := Session(user, counselor, category, Active, None)];
        lastSessionId := fresh_id;
        id := Some(fresh_id);
      }
    }

    /** The user's active session created last (`ORDER BY created_at DESC
        LIMIT 1`). */
    function GetActiveSession(user: int): (r: Option<int>)
      reads this
      ensures r.Some? ==> r.value in sessions && sessions[r.value].user == user && sessions[r.value].status == Active
      ensures r.Some? ==> forall x :: x in sessions && sessions[x].user == user && sessions[x].status == Active ==> x <= r.value
      ensures r.None? <==> forall x :: x in sessions ==> !(sessions[x].user == user && sessions[x].status == Active)
    {
      DescendingIsDecreasing(sessions.Keys);
      var found := SelectSessions(sessions, Descending(sessions.Keys), ActiveOfUser(user));
      if found == [] then None
      else
        DecreasingHeadIsMax(found);
        assert found[0] in found;
        Some(found[0])
    }

    /** The counselor's sessions with the given status, newest first. */
    function GetCounselorSessions(counselor: int, status: Status): (r: seq<int>)
      reads this
      ensures Decreasing(r)
      ensures forall x :: x in r <==> x in sessions && sessions[x].counselor == counselor && sessions[x].status == status
    {
      DescendingIsDecreasing(sessions.Keys);
      SelectSessions(sessions, Descending(sessions.Keys), OfCounselor(counselor, status))
    }

    function GetSessionById(id: int): (r: Option<Session>)
      reads this
      ensures r.Some? <==> id in sessions
      ensures r.Some? ==> r.value == sessions[id]
    {
      if id in sessions then Some(sessions[id]) else None
    }

    /** All active sessions, newest first. */
    function GetAllActiveSessions(): (r: seq<int>)
      reads this
      ensures Decreasing(r)
      ensures forall x :: x in r <==> x in sessions && sessions[x].status == Active
    {
      DescendingIsDecreasing(sessions.Keys);
      SelectSessions(sessions, Descending(sessions.Keys), AnyWith(Active))
    }

    /** An unconditional UPDATE: the session, when it exists, becomes
        'finished' with the current time, whatever its status was; no other
        row changes, and the call reports success even when no row matched. */
    method FinishSession(id: int, fault: bool) returns (ok: bool)
      requires Valid()
      modifies this
      ensures Valid()
      ensures ok == !fault
      ensures Snapshot() == if fault then old(Snapshot()) else old(Snapshot()).Finish(id)
      ensures ok && id in sessions ==> forall x :: x in sessions && x != id && sessions[x].finishedAt.Some? ==>
        sessions[x].finishedAt.value < sessions[id].finishedAt.value
    {
      ok := !fault;
      if !fault && id in sessions {
        sessions := sessions[id := sessions[id].(status := Finished, finishedAt := Some(clock))];
        clock := clock + 1;
      }
    }

    // ---------------------------------------------------------- messages

    /** Appends the message whatever the state of its session. */
    method SaveMessage(sessionId: int, sender: int, kind: MessageKind, content: Option<string>, fileId: Option<string>, fault: bool)
      returns (ok: bool)
      requires Valid()
      modifies this
      ensures Valid()
      ensures ok == !fault
      ensures Snapshot() == if fault then old(Snapshot())
        else old(Snapshot()).Append(MessageRow(sessionId, sender, kind, content, fileId))
      ensures ok ==>
        GetSessionMessages(sessionId) == old(GetSessionMessages(sessionId)) + [MessageRow(sessionId, sender, kind, content, fileId)]
      ensures forall s :: s != sessionId ==> GetSessionMessages(s) == old(GetSessionMessages(s))
    {
      ok := !fault;
      if !fault {
        var row := MessageRow(sessionId, sender, kind, content, fileId);
        MessagesOfAppend(messages, row, sessionId);
        forall s | s != sessionId ensures MessagesOf(messages + [row], s) == MessagesOf(messages, s) {
          MessagesOfAppend(messages, row, s);
        }
        messages := messages + [row];
      }
    }

    /** A session's messages are the table's rows at that session's
        positions, in table order. */
    lemma SessionMessagesInOrder(sessionId: int)
      ensures |GetSessionMessages(sessionId)| == |PositionsOf(messages, sessionId)|
      ensures forall j :: 0 <= j < |GetSessionMessages(sessionId)| ==>
        GetSessionMessages(sessionId)[j] == messages[PositionsOf(messages, sessionId)[j]]
    {
      MessagesOfInOrder(messages, sessionId);
    }

    /** The session's messages in the order they were saved
        (`ORDER BY sent_at ASC`). */
    function GetSessionMessages(sessionId: int): (r: seq<MessageRow>)
      reads this
      ensures forall m :: m in r <==> m in messages && m.sessionId == sessionId
    {
      MessagesOf(messages, sessionId)
    }
  }
}
