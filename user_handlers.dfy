/**
 * The user flow (handlers/user_handlers.py): language choice, issue choice
 * with counselor assignment, the chat itself and ending it. Each handler
 * takes the store, the user's FSM context and the incoming message, and
 * returns the new FSM context and the log of what it sent.
 *
 * When a new handle has to be drawn and every draw is taken, the source
 * loops for ever; here the handler stops at that point and sends nothing
 * more.
 */
module UserHandlers {
  import opened Wrappers
  import opened Config
  import opened Store
  import opened Anonymous
  import opened Assignment
  import opened Conversation

  /** `get_or_create_anonymous_id` as the handlers see it: the stored handle
      or a fresh one, the store changed at most by the new row. */
  method EnsureHandle(db: Database, user: int, env: Env) returns (handle: Option<string>)
    requires db.Valid() && env.Valid()
    modifies db
    ensures db.Valid()
    ensures SameOrRegistered(old(db.Snapshot()), db.Snapshot(), user)
    ensures user in old(db.users) ==> handle == Some(old(db.users[user].anonymousId))
    ensures handle.Some? && !env.idFault ==> user in db.users && db.users[user].anonymousId == handle.value
    ensures handle.None? ==> db.Snapshot() == old(db.Snapshot()) && user !in old(db.users)
    ensures handle == old(HandleOf(db.users, user, env.draws))
  {
    handle := GetOrCreateAnonymousId(db, user, env.draws, env.idFault);
  }

  /** `cmd_start`: a blocked user only gets the "blocked" text; anybody
      else gets a handle and is asked for a language. */
  method CmdStart(db: Database, fsm: Fsm, user: int, env: Env) returns (next: Fsm, effects: seq<Effect>)
    requires db.Valid() && env.Valid()
    modifies db
    ensures db.Valid()
    ensures old(db.IsUserBlocked(user)) ==>
      next == fsm && effects == [Answer(BlockedNotice(En))] && db.Snapshot() == old(db.Snapshot())
    ensures SameOrRegistered(old(db.Snapshot()), db.Snapshot(), user)
    ensures !old(db.IsUserBlocked(user)) && old(HandleOf(db.users, user, env.draws)).Some? ==>
      next == fsm.(state := Some(WaitingForLanguage)) && effects == [Answer(ChooseLanguage)] &&
      (!env.idFault ==> db.GetUserAnonymousId(user) == old(HandleOf(db.users, user, env.draws)))
    ensures !old(db.IsUserBlocked(user)) && old(HandleOf(db.users, user, env.draws)).None? ==>
      next == fsm && effects == [] && db.Snapshot() == old(db.Snapshot()) && user !in old(db.users)
  {
    if db.IsUserBlocked(user) {
      return fsm, [Answer(BlockedNotice(En))];
    }
    var handle := EnsureHandle(db, user, env);
    if handle.None? {
      return fsm, [];
    }
    next := fsm.(state := Some(WaitingForLanguage));
    effects := [Answer(ChooseLanguage)];
  }

  /** `handle_language_selection`: only the two language buttons are
      accepted; the handle is looked up (or created) first either way. */
  method HandleLanguageSelection(db: Database, fsm: Fsm, user: int, m: Incoming, env: Env) returns (next: Fsm, effects: seq<Effect>)
    requires db.Valid() && env.Valid()
    modifies db
    ensures db.Valid()
    ensures SameOrRegistered(old(db.Snapshot()), db.Snapshot(), user)
    ensures LanguageOfButton(m.text).None? ==> next == fsm
    ensures next != fsm ==>
      LanguageOfButton(m.text).Some? &&
      next == fsm.(language := LanguageOfButton(m.text), state := Some(WaitingForIssue))
    ensures old(HandleOf(db.users, user, env.draws)).None? ==>
      next == fsm && effects == [] && db.Snapshot() == old(db.Snapshot())
    ensures old(HandleOf(db.users, user, env.draws)).Some? && LanguageOfButton(m.text).None? ==>
      effects == [Answer(ChooseFromMenu)]
    ensures old(HandleOf(db.users, user, env.draws)).Some? && LanguageOfButton(m.text).Some? ==>
      next == fsm.(language := LanguageOfButton(m.text), state := Some(WaitingForIssue)) &&
      effects == [Answer(Welcome(LanguageOfButton(m.text).value, old(HandleOf(db.users, user, env.draws)).value))]
  {
    var handle := EnsureHandle(db, user, env);
    if handle.None? {
      return fsm, [];
    }
    var lang := LanguageOfButton(m.text);
    if lang.None? {
      return fsm, [Answer(ChooseFromMenu)];
    }
    next := fsm.(language := lang, state := Some(WaitingForIssue));
    effects := [Answer(Welcome(lang.value, handle.value))];
  }

  /** The whole outcome of `cmd_end`, from the user's active session
      `active` and the tables `before` it runs. */
  predicate Ended(fsm: Fsm, user: int, env: Env, active: Option<int>, before: Tables, after: Tables, next: Fsm, effects: seq<Effect>) {
    var lang := fsm.Language();
    var kept := Cleared.(language := Some(lang));
    if active.None? then
      next == kept.(state := Some(WaitingForIssue)) && effects == [Answer(NoActiveSession(lang))] && after == before
    else if env.writeFault then
      next == kept && effects == [Answer(SessionEndedError(lang))] && after == before
    else
      active.value in before.sessions &&
      next == kept.(state := Some(WaitingForIssue)) && after == before.Finish(active.value) &&
      effects == [Notify(before.sessions[active.value].counselor, EndedByUser(AnonymousIdOf(before.users, user)), env.delivered),
                  Answer(SessionEnded(lang))]
  }

  /** `cmd_end`: the state is cleared with the language kept; the user's
      active session, if any, is finished and its counselor notified. */
  method CmdEnd(db: Database, fsm: Fsm, user: int, env: Env) returns (next: Fsm, effects: seq<Effect>)
    requires db.Valid()
    modifies db
    ensures db.Valid()
    ensures next.language == Some(fsm.Language()) && next.sessionId.None? && next.userId.None?
    ensures old(db.GetActiveSession(user)).None? ==>
      db.Snapshot() == old(db.Snapshot()) && next.state == Some(WaitingForIssue) &&
      effects == [Answer(NoActiveSession(fsm.Language()))]
    ensures old(db.GetActiveSession(user)).Some? ==>
      db.Snapshot() == if env.writeFault then old(db.Snapshot())
                       else old(db.Snapshot()).Finish(old(db.GetActiveSession(user)).value)
    ensures old(db.GetActiveSession(user)).Some? && !env.writeFault ==>
      next.state == Some(WaitingForIssue) &&
      effects == [Notify(old(db.sessions[db.GetActiveSession(user).value].counselor), EndedByUser(db.GetUserAnonymousId(user)), env.delivered),
                  Answer(SessionEnded(fsm.Language()))]
    ensures old(db.GetActiveSession(user)).Some? && env.writeFault ==>
      next.state.None? && effects == [Answer(SessionEndedError(fsm.Language()))]
    ensures AtMostOneActive(old(db.sessions)) ==> AtMostOneActive(db.sessions)
    ensures AtMostOneActive(old(db.sessions)) && !env.writeFault ==> db.GetActiveSession(user).None?
    ensures Ended(fsm, user, env, old(db.GetActiveSession(user)), old(db.Snapshot()), db.Snapshot(), next, effects)
  {
    ghost var before := db.Snapshot();
    var lang := fsm.Language();
    next := Cleared.(language := Some(lang));
    var active := db.GetActiveSession(user);
    if active.None? {
      return next.(state := Some(WaitingForIssue)), [Answer(NoActiveSession(lang))];
    }
    var sid := active.value;
    var counselor := db.sessions[sid].counselor;
    var ok := db.FinishSession(sid, env.writeFault);
    if AtMostOneActive(before.sessions) {
      FinishKeepsOneActive(before, sid);
      FinishEndsTheActiveSession(before, sid);
    }
    if !ok {
      return next, [Answer(SessionEndedError(lang))];
    }
    var handle := db.GetUserAnonymousId(user);
    next := next.(state := Some(WaitingForIssue));
    effects := [Notify(counselor, EndedByUser(handle), env.delivered), Answer(SessionEnded(lang))];
  }

  /** The change-language buttons of the issue menu. */
  predicate IsChangeLanguage(text: Option<string>) {
    text == Some(ChangeLanguageEn) || text == Some(ChangeLanguageAm)
  }

  /** The text is neither a command nor a menu button, and names a
      category in one of the two languages. */
  predicate Resolves(fsm: Fsm, m: Incoming) {
    !IsCommand(m.text) && LanguageOfButton(m.text).None? && !IsChangeLanguage(m.text) &&
    ResolveCategory(fsm.Language(), m.text).Some?
  }

  /** The context a category request runs in: the language switches to the
      one the label was found in. */
  function Asked(fsm: Fsm, r: Resolved): (f: Fsm)
    ensures f.Language() == r.lang
  {
    if r.lang == fsm.Language() then fsm else fsm.(language := Some(r.lang))
  }

  /** The counselor a request goes to: the round-robin choice, or 0 (no
      counselor) when nobody is eligible. */
  function Chosen(sessions: map<int, Session>, eligible: seq<int>, key: string): int {
    if eligible == [] then 0 else LeastLoaded(sessions, eligible, key)
  }

  /** What a request for category `key` does, given what the store held
      before it: the user's active session, the eligible counselors, the
      sessions and the handle the user would get. An active session, no
      counselor or a failed write each leave the store as it was with their
      own answer; otherwise the session is opened with the chosen counselor,
      the user is told and the counselor notified. */
  predicate Requested(fsm: Fsm, user: int, key: string, shown: string, env: Env,
                      active: Option<int>, eligible: seq<int>, sessions: map<int, Session>,
                      handle: Option<string>, before: Tables, after: Tables,
                      next: Fsm, effects: seq<Effect>)
  {
    var c := Chosen(sessions, eligible, key);
    var lang := fsm.Language();
    if active.Some? then
      next == fsm && effects == [Answer(ActiveSessionExists(lang))] && after == before
    else if c == 0 then
      next == fsm && effects == [Answer(NoCounselor(lang))] && after == before
    else if env.writeFault then
      next == fsm && effects == [Answer(SessionError(lang))] && after == before
    else
      SameOrRegistered(before.Open(user, c, key), after, user) &&
      if handle.None? then next == fsm && effects == []
      else
        next == fsm.(state := Some(InChat)) &&
        effects == [Answer(Connected(lang, shown, handle.value)), Notify(c, NewRequest(handle.value, shown, lang), env.delivered)]
  }

  /** A request never looks at the block flag, and neither does
      `handle_issue_selection`, whose outcome is `Requested`: a blocked user
      with no active session, a non-zero eligible counselor and a write that
      succeeds gets a new active session with one of those counselors, and
      is still blocked afterwards. */
  lemma BlockedUserCanRequest(fsm: Fsm, user: int, key: string, shown: string, env: Env,
                              eligible: seq<int>, sessions: map<int, Session>,
                              handle: Option<string>, before: Tables, after: Tables,
                              next: Fsm, effects: seq<Effect>)
    requires user in before.users && before.users[user].blocked
    requires eligible != [] && 0 !in eligible && !env.writeFault
    requires Requested(fsm, user, key, shown, env, None, eligible, sessions, handle, before, after, next, effects)
    ensures before.lastSessionId + 1 in after.sessions
    ensures after.sessions[before.lastSessionId + 1].user == user
    ensures after.sessions[before.lastSessionId + 1].status == Active
    ensures after.sessions[before.lastSessionId + 1].counselor in eligible
    ensures user in after.users && after.users[user].blocked
    ensures handle.Some? ==> next.state == Some(InChat)
  {
  }

  /** `handle_issue_selection`: commands are ignored; a language button
      switches the language and repeats the welcome; the change-language
      button goes back to the language menu; otherwise the text must be a
      category label of the current language or, failing that, of the other
      one (which then becomes the language). A session is opened only for
      a category, only when the user has no active session and only with
      the counselor the round robin picks. */
  method HandleIssueSelection(db: Database, fsm: Fsm, user: int, m: Incoming, env: Env) returns (next: Fsm, effects: seq<Effect>)
    requires db.Valid() && env.Valid()
    modifies db
    ensures db.Valid()
    ensures IsCommand(m.text) ==> next == fsm && effects == [] && db.Snapshot() == old(db.Snapshot())
    ensures !IsCommand(m.text) && LanguageOfButton(m.text).Some? ==>
      next == fsm.(language := LanguageOfButton(m.text)) &&
      SameOrRegistered(old(db.Snapshot()), db.Snapshot(), user) &&
      effects == (if old(HandleOf(db.users, user, env.draws)).None? then []
                  else [Answer(Welcome(LanguageOfButton(m.text).value, old(HandleOf(db.users, user, env.draws)).value))])
    ensures !IsCommand(m.text) && LanguageOfButton(m.text).None? && IsChangeLanguage(m.text) ==>
      next == fsm.(state := Some(WaitingForLanguage)) && effects == [Answer(ChooseLanguage)] &&
      db.Snapshot() == old(db.Snapshot())
    ensures !IsCommand(m.text) && LanguageOfButton(m.text).None? && !IsChangeLanguage(m.text) &&
            ResolveCategory(fsm.Language(), m.text).None? ==>
      next == fsm && effects == [Answer(InvalidSelection(fsm.Language()))] && db.Snapshot() == old(db.Snapshot())
    ensures !IsCommand(m.text) && LanguageOfButton(m.text).None? && !IsChangeLanguage(m.text) &&
            ResolveCategory(fsm.Language(), m.text).Some? ==>
      var r := ResolveCategory(fsm.Language(), m.text).value;
      next == Asked(fsm, r) || next == Asked(fsm, r).(state := Some(InChat))
    ensures db.sessions != old(db.sessions) ==>
      !IsCommand(m.text) && LanguageOfButton(m.text).None? && !IsChangeLanguage(m.text) &&
      ResolveCategory(fsm.Language(), m.text).Some? && old(db.GetActiveSession(user)).None? &&
      var key := ResolveCategory(fsm.Language(), m.text).value.key;
      old(Eligible(db, key)) != [] &&
      SameOrRegistered(old(db.Snapshot()).Open(user, LeastLoaded(old(db.sessions), old(Eligible(db, key)), key), key),
                       db.Snapshot(), user)
    ensures db.sessions == old(db.sessions) ==> SameOrRegistered(old(db.Snapshot()), db.Snapshot(), user)
    ensures AtMostOneActive(old(db.sessions)) ==> AtMostOneActive(db.sessions)
    // Once the text names a category, the outcome is that of the request,
    // made in the language the label was found in.
    ensures Resolves(fsm, m) ==>
      var r := ResolveCategory(fsm.Language(), m.text).value;
      Requested(Asked(fsm, r), user, r.key, m.text.value, env,
                old(db.GetActiveSession(user)), old(Eligible(db, r.key)), old(db.sessions),
                old(HandleOf(db.users, user, env.draws)), old(db.Snapshot()), db.Snapshot(), next, effects)
  {
    if IsCommand(m.text) {
      return fsm, [];
    }
    var lang := fsm.Language();
    var chosen := LanguageOfButton(m.text);
    if chosen.Some? {
      next := fsm.(language := chosen);
      var handle := EnsureHandle(db, user, env);
      if handle.None? {
        return next, [];
      }
      return next, [Answer(Welcome(chosen.value, handle.value))];
    }
    if IsChangeLanguage(m.text) {
      return fsm.(state := Some(WaitingForLanguage)), [Answer(ChooseLanguage)];
    }
    var key := FindCategory(IssueCategories, lang, m.text);
    var found := lang;
    if key.None? {
      key := FindCategory(IssueCategories, lang.Other(), m.text);
      if key.None? {
        return fsm, [Answer(InvalidSelection(lang))];
      }
      found := lang.Other();
    }
    assert ResolveCategory(lang, m.text) == Some(Resolved(key.value, found));
    assert m.text.Some?;
    next := Asked(fsm, Resolved(key.value, found));
    next, effects := RequestSession(db, next, user, key.value, m.text.value, env);
  }

  /** The second half of `handle_issue_selection`, once the text named
      category `key`: refuse while a session is active, assign a counselor
      (round robin), open the session, then connect both sides. */
  method RequestSession(db: Database, fsm: Fsm, user: int, key: string, shown: string, env: Env) returns (next: Fsm, effects: seq<Effect>)
    requires db.Valid() && env.Valid()
    modifies db
    ensures db.Valid()
    ensures next == fsm || next == fsm.(state := Some(InChat))
    ensures old(db.GetActiveSession(user)).Some? ==>
      next == fsm && effects == [Answer(ActiveSessionExists(fsm.Language()))] && db.Snapshot() == old(db.Snapshot())
    ensures old(db.GetActiveSession(user)).None? &&
            (old(Eligible(db, key)) == [] || LeastLoaded(old(db.sessions), old(Eligible(db, key)), key) == 0) ==>
      next == fsm && effects == [Answer(NoCounselor(fsm.Language()))] && db.Snapshot() == old(db.Snapshot())
    ensures db.sessions != old(db.sessions) <==>
      old(db.GetActiveSession(user)).None? && old(Eligible(db, key)) != [] &&
      LeastLoaded(old(db.sessions), old(Eligible(db, key)), key) != 0 && !env.writeFault
    ensures db.sessions == old(db.sessions) ==> db.Snapshot() == old(db.Snapshot())
    ensures db.sessions != old(db.sessions) ==>
      SameOrRegistered(old(db.Snapshot()).Open(user, LeastLoaded(old(db.sessions), old(Eligible(db, key)), key), key), db.Snapshot(), user)
    ensures db.sessions != old(db.sessions) && old(HandleOf(db.users, user, env.draws)).Some? ==>
      var c := LeastLoaded(old(db.sessions), old(Eligible(db, key)), key);
      var h := old(HandleOf(db.users, user, env.draws)).value;
      next == fsm.(state := Some(InChat)) &&
      effects == [Answer(Connected(fsm.Language(), shown, h)), Notify(c, NewRequest(h, shown, fsm.Language()), env.delivered)]
    ensures db.sessions != old(db.sessions) && old(HandleOf(db.users, user, env.draws)).None? ==>
      next == fsm && effects == []
    ensures old(db.GetActiveSession(user)).None? && old(Eligible(db, key)) != [] &&
            LeastLoaded(old(db.sessions), old(Eligible(db, key)), key) != 0 && env.writeFault ==>
      next == fsm && effects == [Answer(SessionError(fsm.Language()))]
    ensures AtMostOneActive(old(db.sessions)) ==> AtMostOneActive(db.sessions)
    ensures Requested(fsm, user, key, shown, env, old(db.GetActiveSession(user)), old(Eligible(db, key)), old(db.sessions),
                      old(HandleOf(db.users, user, env.draws)), old(db.Snapshot()), db.Snapshot(), next, effects)
  {
    ghost var before := db.Snapshot();
    var lang := fsm.Language();
    var active := db.GetActiveSession(user);
    if active.Some? {
      return fsm, [Answer(ActiveSessionExists(lang))];
    }
    var counselor := AssignCounselor(db, key, RoundRobin, 0);
    if counselor.None? || counselor.value == 0 {
      return fsm, [Answer(NoCounselor(lang))];
    }
    var c := counselor.value;
    var sid := db.CreateChatSession(user, c, key, env.writeFault);
    if sid.None? {
      return fsm, [Answer(SessionError(lang))];
    }
    if AtMostOneActive(before.sessions) {
      OpenKeepsOneActive(before, user, c, key);
    }
    var handle := EnsureHandle(db, user, env);
    if handle.None? {
      return fsm, [];
    }
    next := fsm.(state := Some(InChat));
    effects := [Answer(Connected(lang, shown, handle.value)), Notify(c, NewRequest(handle.value, shown, lang), env.delivered)];
  }

  /** The whole outcome of `handle_return_back`, from the user's active
      session `active` and the tables `before` it runs. */
  predicate ReturnedBack(fsm: Fsm, user: int, env: Env, active: Option<int>, before: Tables, after: Tables, next: Fsm, effects: seq<Effect>) {
    var lang := fsm.Language();
    next == fsm.(state := Some(WaitingForIssue)) &&
    if active.None? then
      effects == [Answer(ChooseIssue(lang))] && after == before
    else
      active.value in before.sessions &&
      after == (if env.writeFault then before else before.Finish(active.value)) &&
      effects == [Notify(before.sessions[active.value].counselor, ReturnedBackByUser(AnonymousIdOf(before.users, user)), env.delivered),
                  Answer(ChooseIssue(lang))]
  }

  /** `handle_return_back`: the user's active session, if any, is finished
      (the outcome is not checked) and its counselor notified; the user is
      back at the issue menu. */
  method HandleReturnBack(db: Database, fsm: Fsm, user: int, env: Env) returns (next: Fsm, effects: seq<Effect>)
    requires db.Valid()
    modifies db
    ensures db.Valid()
    ensures next == fsm.(state := Some(WaitingForIssue))
    ensures old(db.GetActiveSession(user)).None? ==>
      db.Snapshot() == old(db.Snapshot()) && effects == [Answer(ChooseIssue(fsm.Language()))]
    ensures old(db.GetActiveSession(user)).Some? ==>
      db.Snapshot() == if env.writeFault then old(db.Snapshot())
                       else old(db.Snapshot()).Finish(old(db.GetActiveSession(user)).value)
    ensures old(db.GetActiveSession(user)).Some? ==>
      effects == [Notify(old(db.sessions[db.GetActiveSession(user).value].counselor), ReturnedBackByUser(db.GetUserAnonymousId(user)), env.delivered),
                  Answer(ChooseIssue(fsm.Language()))]
    ensures AtMostOneActive(old(db.sessions)) ==> AtMostOneActive(db.sessions)
    ensures AtMostOneActive(old(db.sessions)) && !env.writeFault ==> db.GetActiveSession(user).None?
    ensures ReturnedBack(fsm, user, env, old(db.GetActiveSession(user)), old(db.Snapshot()), db.Snapshot(), next, effects)
  {
    ghost var before := db.Snapshot();
    next := fsm.(state := Some(WaitingForIssue));
    var active := db.GetActiveSession(user);
    if active.None? {
      return next, [Answer(ChooseIssue(fsm.Language()))];
    }
    var sid := active.value;
    var counselor := db.sessions[sid].counselor;
    var _ := db.FinishSession(sid, env.writeFault);
    if AtMostOneActive(before.sessions) {
      FinishKeepsOneActive(before, sid);
      FinishEndsTheActiveSession(before, sid);
    }
    var handle := db.GetUserAnonymousId(user);
    effects := [Notify(counselor, ReturnedBackByUser(handle), env.delivered), Answer(ChooseIssue(fsm.Language()))];
  }

  /** The whole outcome of `handle_user_message`, from whether the user is
      `blocked`, the user's active session `active` and the tables `before`
      it runs. */
  predicate Chatted(fsm: Fsm, user: int, m: Incoming, env: Env, blocked: bool, active: Option<int>,
                    before: Tables, after: Tables, next: Fsm, effects: seq<Effect>) {
    var lang := fsm.Language();
    if IsCommand(m.text) then
      next == fsm && effects == [] && after == before
    else if blocked then
      next == Cleared && effects == [Answer(BlockedNotice(lang))] && after == before
    else if active.None? then
      next == fsm.(state := Some(WaitingForIssue)) && effects == [Answer(NoActiveSession(lang))] && after == before
    else
      var row := ChatRow(active.value, user, m);
      active.value in before.sessions && next == fsm &&
      after == (if env.writeFault then before else before.Append(row)) &&
      effects == PersistThenRelay(row, !env.writeFault, before.sessions[active.value].counselor,
                                  FromUser(AnonymousIdOf(before.users, user)), env.delivered,
                                  if env.delivered then None else Some(DeliveryFailed(lang)))
  }

  /** `handle_user_message`: a message from a user with an active session
      is stored, then forwarded to the counselor under the user's handle.
      Commands are ignored; a blocked user or one without an active session
      gets nothing stored. */
  method HandleUserMessage(db: Database, fsm: Fsm, user: int, m: Incoming, env: Env) returns (next: Fsm, effects: seq<Effect>)
    requires db.Valid()
    modifies db
    ensures db.Valid()
    ensures PersistBeforeRelay(effects)
    ensures IsCommand(m.text) ==> next == fsm && effects == [] && db.Snapshot() == old(db.Snapshot())
    ensures !IsCommand(m.text) && old(db.IsUserBlocked(user)) ==>
      next == Cleared && effects == [Answer(BlockedNotice(fsm.Language()))] && db.Snapshot() == old(db.Snapshot())
    ensures !IsCommand(m.text) && !old(db.IsUserBlocked(user)) && old(db.GetActiveSession(user)).None? ==>
      next == fsm.(state := Some(WaitingForIssue)) && effects == [Answer(NoActiveSession(fsm.Language()))] &&
      db.Snapshot() == old(db.Snapshot())
    ensures !IsCommand(m.text) && !old(db.IsUserBlocked(user)) && old(db.GetActiveSession(user)).Some? ==>
      var sid := old(db.GetActiveSession(user)).value;
      next == fsm &&
      db.Snapshot() == (if env.writeFault then old(db.Snapshot()) else old(db.Snapshot()).Append(ChatRow(sid, user, m))) &&
      effects == PersistThenRelay(ChatRow(sid, user, m), !env.writeFault, old(db.sessions[sid].counselor),
                                  FromUser(old(db.GetUserAnonymousId(user))), env.delivered,
                                  if env.delivered then None else Some(DeliveryFailed(fsm.Language())))
    ensures db.sessions == old(db.sessions)
    ensures Chatted(fsm, user, m, env, old(db.IsUserBlocked(user)), old(db.GetActiveSession(user)),
                    old(db.Snapshot()), db.Snapshot(), next, effects)
  {
    if IsCommand(m.text) {
      return fsm, [];
    }
    var lang := fsm.Language();
    if db.IsUserBlocked(user) {
      return Cleared, [Answer(BlockedNotice(lang))];
    }
    var active := db.GetActiveSession(user);
    if active.None? {
      return fsm.(state := Some(WaitingForIssue)), [Answer(NoActiveSession(lang))];
    }
    var sid := active.value;
    var counselor := db.sessions[sid].counselor;
    var handle := db.GetUserAnonymousId(user);
    effects := ForwardMessage(db, sid, user, m, counselor, FromUser(handle), env,
                              if env.delivered then None else Some(DeliveryFailed(lang)));
    next := fsm;
  }

  /** `handle_chat_buttons`: the localized "end" and "back" buttons end the
      chat; any other message is a chat message. Its outcome is exactly the
      outcome of the handler it hands the message to. */
  method HandleChatButtons(db: Database, fsm: Fsm, user: int, m: Incoming, env: Env) returns (next: Fsm, effects: seq<Effect>)
    requires db.Valid()
    modifies db
    ensures db.Valid()
    ensures AtMostOneActive(old(db.sessions)) ==> AtMostOneActive(db.sessions)
    ensures m.text == Some(EndButton(fsm.Language())) || m.text == Some(BackButton(fsm.Language())) ==>
      db.messages == old(db.messages) && (next.state == Some(WaitingForIssue) || env.writeFault) &&
      (AtMostOneActive(old(db.sessions)) && !env.writeFault ==> db.GetActiveSession(user).None?)
    ensures m.text != Some(EndButton(fsm.Language())) && m.text != Some(BackButton(fsm.Language())) ==>
      PersistBeforeRelay(effects) && db.sessions == old(db.sessions) &&
      (db.messages == old(db.messages) ||
       (old(db.GetActiveSession(user)).Some? &&
        db.messages == old(db.messages) + [ChatRow(old(db.GetActiveSession(user)).value, user, m)]))
    ensures m.text == Some(EndButton(fsm.Language())) ==>
      Ended(fsm, user, env, old(db.GetActiveSession(user)), old(db.Snapshot()), db.Snapshot(), next, effects)
    ensures m.text != Some(EndButton(fsm.Language())) && m.text == Some(BackButton(fsm.Language())) ==>
      ReturnedBack(fsm, user, env, old(db.GetActiveSession(user)), old(db.Snapshot()), db.Snapshot(), next, effects)
    ensures m.text != Some(EndButton(fsm.Language())) && m.text != Some(BackButton(fsm.Language())) ==>
      Chatted(fsm, user, m, env, old(db.IsUserBlocked(user)), old(db.GetActiveSession(user)),
              old(db.Snapshot()), db.Snapshot(), next, effects)
  {
    var lang := fsm.Language();
    if m.text == Some(EndButton(lang)) {
      next, effects := CmdEnd(db, fsm, user, env);
    } else if m.text == Some(BackButton(lang)) {
      next, effects := HandleReturnBack(db, fsm, user, env);
    } else {
      next, effects := HandleUserMessage(db, fsm, user, m, env);
    }
  }
}
