/**
 * The counselor flow (handlers/counselor_handlers.py): the panel and the
 * session lists, choosing a session and replying in it, cancelling, and
 * finishing a session by sending its id.
 *
 * The FSM context is the one aiogram keys by chat and sender, so clearing
 * it here also forgets a language chosen in the user flow.
 */
module CounselorHandlers {
  import opened Wrappers
  import opened Text
  import opened Ordering
  import opened Store
  import opened Conversation

  /** The rows `get_counselor_sessions(c, "active")` returns: exactly the
      active sessions served by `c`, newest first. */
  ghost predicate ListsActiveOf(db: Database, counselor: int, ids: seq<int>)
    reads db
  {
    Decreasing(ids) &&
    forall x :: x in ids <==> x in db.sessions && db.sessions[x].counselor == counselor && db.sessions[x].status == Active
  }

  /** `cmd_counselor`: refused for anybody without a counselor row; a
      counselor sees the panel with the active sessions and the context is
      cleared. */
  method CmdCounselor(db: Database, fsm: Fsm, counselor: int) returns (next: Fsm, effects: seq<Effect>)
    ensures counselor !in db.counselors ==> next == fsm && effects == [Answer(NotCounselor)]
    ensures counselor in db.counselors ==>
      next == Cleared && |effects| == 1 && effects[0].Answer? && effects[0].reply.CounselorPanel? &&
      ListsActiveOf(db, counselor, effects[0].reply.sessions)
  {
    if !db.IsCounselor(counselor) {
      return fsm, [Answer(NotCounselor)];
    }
    var active := db.GetCounselorSessions(counselor, Active);
    next := Cleared;
    effects := [Answer(CounselorPanel(active))];
  }

  /** The "My Sessions" button: the list, or a notice that it is empty. */
  method ShowSessions(db: Database, counselor: int) returns (effects: seq<Effect>)
    ensures |effects| == 1 && effects[0].Answer?
    ensures counselor !in db.counselors <==> effects[0].reply == NotCounselor
    ensures effects[0].reply == NoActiveSessions <==>
      counselor in db.counselors && forall x :: x in db.sessions ==> !(db.sessions[x].counselor == counselor && db.sessions[x].status == Active)
    ensures effects[0].reply.SessionList? ==>
      counselor in db.counselors && effects[0].reply.sessions != [] && ListsActiveOf(db, counselor, effects[0].reply.sessions)
  {
    if !db.IsCounselor(counselor) {
      return [Answer(NotCounselor)];
    }
    var active := db.GetCounselorSessions(counselor, Active);
    if active == [] {
      return [Answer(NoActiveSessions)];
    }
    assert active[0] in active;
    effects := [Answer(SessionList(active))];
  }

  /** The "Reply to User" button: with active sessions, lists them and waits
      for a session id; the context data is kept. */
  method StartReply(db: Database, fsm: Fsm, counselor: int) returns (next: Fsm, effects: seq<Effect>)
    ensures |effects| == 1 && effects[0].Answer?
    ensures counselor !in db.counselors ==> next == fsm && effects[0].reply == NotCounselor
    ensures next != fsm ==> next == fsm.(state := Some(SelectingSession))
    ensures next.state == Some(SelectingSession) <==>
      fsm.state == Some(SelectingSession) ||
      (counselor in db.counselors && exists x :: x in db.sessions && db.sessions[x].counselor == counselor && db.sessions[x].status == Active)
    ensures effects[0].reply.AskSessionToReply? ==>
      next.state == Some(SelectingSession) && ListsActiveOf(db, counselor, effects[0].reply.sessions)
  {
    if !db.IsCounselor(counselor) {
      return fsm, [Answer(NotCounselor)];
    }
    var active := db.GetCounselorSessions(counselor, Active);
    if active == [] {
      return fsm, [Answer(NothingToReplyTo)];
    }
    assert active[0] in active;
    next := fsm.(state := Some(SelectingSession));
    effects := [Answer(AskSessionToReply(active))];
  }

  /** `handle_session_selection`: the text must parse with `int()`; the
      session must exist, belong to the sender and be active. Then its id
      and its user are remembered and the reply is awaited. A message
      without text makes `int(None)` raise a `TypeError` that the handler
      does not catch: nothing is sent and the context stays. So it is for
      an id outside SQLite's range, whose lookup raises `OverflowError`. */
  method HandleSessionSelection(db: Database, fsm: Fsm, counselor: int, m: Incoming) returns (next: Fsm, effects: seq<Effect>)
    ensures m.text.None? ==> next == fsm && effects == []
    ensures m.text.Some? && ParseInt(m.text.value).None? ==> next == fsm && effects == [Answer(InvalidSessionId)]
    ensures m.text.Some? && ParseInt(m.text.value).Some? ==>
      var sid := ParseInt(m.text.value).value;
      (!SqlInteger(sid) ==> next == fsm && effects == []) &&
      (SqlInteger(sid) && (sid !in db.sessions || db.sessions[sid].counselor != counselor) ==>
         next == Cleared && effects == [Answer(SessionNotFound)]) &&
      (SqlInteger(sid) && sid in db.sessions && db.sessions[sid].counselor == counselor && db.sessions[sid].status != Active ==>
         next == Cleared && effects == [Answer(SessionNotActive)]) &&
      (SqlInteger(sid) && sid in db.sessions && db.sessions[sid].counselor == counselor && db.sessions[sid].status == Active ==>
         next == fsm.(state := Some(WaitingForReply), sessionId := Some(sid), userId := Some(db.sessions[sid].user)) &&
         effects == [Answer(ReplyingTo(db.GetUserAnonymousId(db.sessions[sid].user)))])
    ensures next.state == Some(WaitingForReply) && next != fsm ==>
      next.sessionId.Some? && next.sessionId.value in db.sessions &&
      db.sessions[next.sessionId.value].counselor == counselor &&
      db.sessions[next.sessionId.value].status == Active &&
      next.userId == Some(db.sessions[next.sessionId.value].user)
  {
    if m.text.None? {
      return fsm, [];
    }
    var parsed := ParseInt(m.text.value);
    if parsed.None? {
      return fsm, [Answer(InvalidSessionId)];
    }
    var sid := parsed.value;
    if !SqlInteger(sid) {
      return fsm, [];
    }
    var session := db.GetSessionById(sid);
    if session.None? || session.value.counselor != counselor {
      return Cleared, [Answer(SessionNotFound)];
    }
    if session.value.status != Active {
      return Cleared, [Answer(SessionNotActive)];
    }
    var handle := db.GetUserAnonymousId(session.value.user);
    next := fsm.(state := Some(WaitingForReply), sessionId := Some(sid), userId := Some(session.value.user));
    effects := [Answer(ReplyingTo(handle))];
  }

  /** Python's truth test on an optional id: `None` and `0` are false. */
  predicate Present(v: Option<int>) {
    v.Some? && v.value != 0
  }

  /** `handle_counselor_reply`: with a remembered session of the sender, the
      message is saved and relayed to the remembered user, the sender is
      told whether it went through, and the context is cleared. The
      session's status is not looked at. */
  method HandleCounselorReply(db: Database, fsm: Fsm, counselor: int, m: Incoming, env: Env) returns (next: Fsm, effects: seq<Effect>)
    requires db.Valid()
    modifies db
    ensures db.Valid()
    ensures next == Cleared
    ensures PersistBeforeRelay(effects)
    ensures db.sessions == old(db.sessions) && db.users == old(db.users) && db.counselors == old(db.counselors)
    ensures !Present(fsm.sessionId) || !Present(fsm.userId) ==>
      effects == [Answer(SessionDataLost)] && db.Snapshot() == old(db.Snapshot())
    ensures Present(fsm.sessionId) && Present(fsm.userId) &&
            (fsm.sessionId.value !in old(db.sessions) || old(db.sessions[fsm.sessionId.value].counselor) != counselor) ==>
      effects == [Answer(SessionNotFound)] && db.Snapshot() == old(db.Snapshot())
    ensures Present(fsm.sessionId) && Present(fsm.userId) &&
            fsm.sessionId.value in old(db.sessions) && old(db.sessions[fsm.sessionId.value].counselor) == counselor ==>
      db.Snapshot() == (if env.writeFault then old(db.Snapshot())
                        else old(db.Snapshot()).Append(ChatRow(fsm.sessionId.value, counselor, m))) &&
      effects == PersistThenRelay(ChatRow(fsm.sessionId.value, counselor, m), !env.writeFault, fsm.userId.value,
                                  FromYourCounselor, env.delivered,
                                  Some(if env.delivered then SentTo(old(db.GetUserAnonymousId(fsm.userId.value))) else SendError))
  {
    next := Cleared;
    if !Present(fsm.sessionId) || !Present(fsm.userId) {
      return next, [Answer(SessionDataLost)];
    }
    var sid := fsm.sessionId.value;
    var user := fsm.userId.value;
    var session := db.GetSessionById(sid);
    if session.None? || session.value.counselor != counselor {
      return next, [Answer(SessionNotFound)];
    }
    var handle := db.GetUserAnonymousId(user);
    effects := ForwardMessage(db, sid, counselor, m, user, FromYourCounselor, env,
                              Some(if env.delivered then SentTo(handle) else SendError));
  }

  /** `cmd_cancel`: the context is cleared, whatever it held. */
  method CmdCancel(fsm: Fsm) returns (next: Fsm, effects: seq<Effect>)
    ensures next.state.None? && next.sessionId.None? && next.userId.None? && next.language.None?
    ensures effects == [Answer(Cancelled)]
  {
    next := Cleared;
    effects := [Answer(Cancelled)];
  }

  /** The "Finish Session" button: lists the active sessions to choose
      from; the context is not touched. */
  method FinishSessionPrompt(db: Database, counselor: int) returns (effects: seq<Effect>)
    ensures |effects| == 1 && effects[0].Answer?
    ensures counselor !in db.counselors <==> effects[0].reply == NotCounselor
    ensures effects[0].reply == NoActiveSessions <==>
      counselor in db.counselors && forall x :: x in db.sessions ==> !(db.sessions[x].counselor == counselor && db.sessions[x].status == Active)
    ensures effects[0].reply.AskSessionToFinish? ==>
      counselor in db.counselors && effects[0].reply.sessions != [] && ListsActiveOf(db, counselor, effects[0].reply.sessions)
  {
    if !db.IsCounselor(counselor) {
      return [Answer(NotCounselor)];
    }
    var active := db.GetCounselorSessions(counselor, Active);
    if active == [] {
      return [Answer(NoActiveSessions)];
    }
    assert active[0] in active;
    effects := [Answer(AskSessionToFinish(active))];
  }

  /** The filter of `handle_finish_session_id`: a text of digits from
      somebody with a counselor row. */
  predicate FinishFilter(db: Database, counselor: int, text: Option<string>)
    reads db
  {
    text.Some? && IsDigitString(text.value) && counselor in db.counselors
  }

  /** `handle_finish_session_id`: a digit text naming an active session of
      the sender finishes it, tells its user and confirms. Another session
      id is ignored without a word, and so is one outside SQLite's range,
      whose lookup raises an `OverflowError` nobody catches. The store's answer is not looked at, so
      the user is told and the success is confirmed even when the update
      failed. */
  method HandleFinishSessionId(db: Database, counselor: int, m: Incoming, env: Env) returns (effects: seq<Effect>)
    requires db.Valid()
    modifies db
    ensures db.Valid()
    ensures AtMostOneActive(old(db.sessions)) ==> AtMostOneActive(db.sessions)
    ensures !old(FinishFilter(db, counselor, m.text)) ==> effects == [] && db.Snapshot() == old(db.Snapshot())
    ensures old(FinishFilter(db, counselor, m.text)) ==>
      var sid := RunValue(m.text.value);
      (!SqlInteger(sid) || sid !in old(db.sessions) || old(db.sessions[sid].counselor) != counselor ==>
         effects == [] && db.Snapshot() == old(db.Snapshot())) &&
      (SqlInteger(sid) && sid in old(db.sessions) && old(db.sessions[sid].counselor) == counselor && old(db.sessions[sid].status) != Active ==>
         effects == [Answer(SessionNotActive)] && db.Snapshot() == old(db.Snapshot())) &&
      (SqlInteger(sid) && sid in old(db.sessions) && old(db.sessions[sid].counselor) == counselor && old(db.sessions[sid].status) == Active ==>
         db.Snapshot() == (if env.writeFault then old(db.Snapshot()) else old(db.Snapshot()).Finish(sid)) &&
         effects == [Notify(old(db.sessions[sid].user), FinishedByCounselor, env.delivered), Answer(SessionFinishedOk)] &&
         (AtMostOneActive(old(db.sessions)) && !env.writeFault ==> db.GetActiveSession(old(db.sessions[sid].user)).None?))
  {
    if !FinishFilter(db, counselor, m.text) {
      return [];
    }
    DigitStringParses(m.text.value);
    var sid := ParseInt(m.text.value).value;
    if !SqlInteger(sid) {
      return [];
    }
    var session := db.GetSessionById(sid);
    if session.None? || session.value.counselor != counselor {
      return [];
    }
    if session.value.status != Active {
      return [Answer(SessionNotActive)];
    }
    ghost var before := db.Snapshot();
    var _ := db.FinishSession(sid, env.writeFault);
    if AtMostOneActive(before.sessions) {
      FinishKeepsOneActive(before, sid);
      FinishEndsTheActiveSession(before, sid);
    }
    effects := [Notify(session.value.user, FinishedByCounselor, env.delivered), Answer(SessionFinishedOk)];
  }
}
