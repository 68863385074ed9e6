/**
 * The administrator flow (handlers/admin_handlers.py): the panel, the
 * counselor registry commands, blocking and unblocking users, ending a
 * user's session by force, and the selection behind the log export.
 *
 * A command handler is given the whole text of the command message. (The
 * `Command` filter also matches a command in a media caption, where
 * `message.text` is absent; that case is not modelled.) Every handler first
 * compares the sender with the configured administrator. For anybody else
 * `cmd_admin` answers that the sender is not an administrator,
 * `handle_block_user` clears the context, and every other handler stops
 * without a word.
 */
module AdminHandlers {
  import opened Wrappers
  import opened Text
  import opened Config
  import opened Ordering
  import SqlLike
  import opened Store
  import opened Conversation

  /** `is_admin`. */
  predicate IsAdmin(user: int) {
    user == AdminId
  }

  /** `cmd_admin`: the number of active sessions and of counselor rows, and
      the context is cleared. */
  method CmdAdmin(db: Database, fsm: Fsm, admin: int) returns (next: Fsm, effects: seq<Effect>)
    ensures !IsAdmin(admin) ==> next == fsm && effects == [Answer(NotAdmin)]
    ensures IsAdmin(admin) ==>
      next == Cleared &&
      effects == [Answer(AdminPanel(|set x | x in db.sessions && db.sessions[x].status == Active|, |db.counselors|))]
  {
    if !IsAdmin(admin) {
      return fsm, [Answer(NotAdmin)];
    }
    var active := db.GetAllActiveSessions();
    var counselors := db.GetAllCounselors();
    DecreasingCount(active);
    assert (set x | x in active) == (set x | x in db.sessions && db.sessions[x].status == Active);
    next := Cleared;
    effects := [Answer(AdminPanel(|active|, |counselors|))];
  }

  // ------------------------------------------------------------ /add_counselor

  /** `message.text.split()[1:]`: the words after the command. */
  function CommandArgs(text: string): (r: seq<string>)
    ensures forall i :: 0 <= i < |r| ==> |r[i]| > 0 && NoSpace(r[i])
  {
    var words := Words(text);
    if words == [] then [] else words[1..]
  }

  /** The arguments of a command written as its words joined by spaces are
      those words. */
  lemma CommandArgsJoin(command: string, args: seq<string>)
    requires |command| > 0 && NoSpace(command)
    requires forall i :: 0 <= i < |args| ==> |args[i]| > 0 && NoSpace(args[i])
    ensures CommandArgs(Join([command] + args, ' ')) == args
  {
    var ws := [command] + args;
    assert forall i :: 0 <= i < |ws| ==> |ws[i]| > 0 && NoSpace(ws[i]) by {
      forall i | 0 < i < |ws| ensures ws[i] == args[i - 1] { }
    }
    WordsJoin(ws);
    assert ws[1..] == args;
  }

  /** `[cat.strip() for cat in xs]`. */
  function StripAll(xs: seq<string>): (r: seq<string>)
    ensures |r| == |xs|
    ensures forall i :: 0 <= i < |xs| ==> r[i] == Strip(xs[i])
  {
    if xs == [] then [] else [Strip(xs[0])] + StripAll(xs[1..])
  }

  /** The categories of `/add_counselor <id> <c1,c2,...>`: every argument
      after the id, joined with commas, split at the commas, each piece
      stripped. */
  function ParseCategories(args: seq<string>): (r: seq<string>)
    ensures |r| >= 1
  {
    StripAll(Split(Join(args, ','), ','))
  }

  /** `[cat for cat in categories if cat not in valid_categories]`: the
      offending names, in order. */
  function NotKeys(cats: seq<string>): (r: seq<string>)
    ensures forall c :: c in r <==> c in cats && !SqlLike.IsKey(c)
    ensures r == [] <==> SqlLike.AllKeys(cats)
  {
    if cats == [] then []
    else
      var rest := NotKeys(cats[1..]);
      assert forall c :: c in cats <==> c == cats[0] || c in cats[1..];
      if SqlLike.IsKey(cats[0]) then
        assert SqlLike.AllKeys(cats) <==> SqlLike.AllKeys(cats[1..]) by {
          if SqlLike.AllKeys(cats[1..]) {
            forall i | 0 <= i < |cats| ensures SqlLike.IsKey(cats[i]) {
              if i > 0 {
                assert cats[i] == cats[1..][i - 1];
              }
            }
          }
        }
        rest
      else
        [cats[0]] + rest
  }

  /** `cmd_add_counselor`. The checks come in the source's order: two
      arguments at least, an id that `int()` accepts, then every category a
      configured key; only then is the row written (replacing any earlier
      one), and the reply says whether the store took it. */
  method CmdAddCounselor(db: Database, admin: int, text: string, env: Env) returns (effects: seq<Effect>)
    requires db.Valid()
    modifies db
    ensures db.Valid()
    ensures db.users == old(db.users) && db.sessions == old(db.sessions) && db.messages == old(db.messages)
    ensures !IsAdmin(admin) ==> effects == [] && db.Snapshot() == old(db.Snapshot())
    ensures IsAdmin(admin) && |CommandArgs(text)| < 2 ==>
      effects == [Answer(AddCounselorUsage)] && db.Snapshot() == old(db.Snapshot())
    ensures IsAdmin(admin) && |CommandArgs(text)| >= 2 && ParseInt(CommandArgs(text)[0]).None? ==>
      effects == [Answer(InvalidCounselorId)] && db.Snapshot() == old(db.Snapshot())
    ensures IsAdmin(admin) && |CommandArgs(text)| >= 2 && ParseInt(CommandArgs(text)[0]).Some? ==>
      var id := ParseInt(CommandArgs(text)[0]).value;
      var cats := ParseCategories(CommandArgs(text)[1..]);
      (NotKeys(cats) != [] ==>
         effects == [Answer(InvalidCategories(NotKeys(cats)))] && db.Snapshot() == old(db.Snapshot())) &&
      (NotKeys(cats) == [] && (env.writeFault || !SqlInteger(id)) ==>
         effects == [Answer(AddCounselorFailed)] && db.Snapshot() == old(db.Snapshot())) &&
      (NotKeys(cats) == [] && !env.writeFault && SqlInteger(id) ==>
         effects == [Answer(CounselorAdded(id, cats))] &&
         db.counselors == old(db.counselors)[id := CounselorRow(Join(cats, ','), true)] &&
         db.Snapshot() == old(db.Snapshot()).(counselors := old(db.counselors)[id := CounselorRow(Join(cats, ','), true)]) &&
         db.RegisteredCategories(id) == Some(cats))
  {
    if !IsAdmin(admin) {
      return [];
    }
    var args := CommandArgs(text);
    if |args| < 2 {
      return [Answer(AddCounselorUsage)];
    }
    var parsed := ParseInt(args[0]);
    if parsed.None? {
      return [Answer(InvalidCounselorId)];
    }
    var id := parsed.value;
    var cats := ParseCategories(args[1..]);
    var invalid := NotKeys(cats);
    if invalid != [] {
      return [Answer(InvalidCategories(invalid))];
    }
    KeysHaveNoComma(cats);
    var ok := db.AddCounselor(id, cats, env.writeFault);
    effects := if ok then [Answer(CounselorAdded(id, cats))] else [Answer(AddCounselorFailed)];
  }

  /** No configured key contains a comma. */
  lemma KeysHaveNoComma(cats: seq<string>)
    requires SqlLike.AllKeys(cats)
    ensures forall i :: 0 <= i < |cats| ==> ',' !in cats[i]
  {
    forall i | 0 <= i < |cats| ensures ',' !in cats[i] {
      SqlLike.KeyCharacters(cats[i]);
    }
  }

  /** Categories without commas or whitespace are read back as given, both
      when each is its own argument and when they come comma-joined in one. */
  lemma ParseCategoriesJoin(ks: seq<string>)
    requires |ks| >= 1
    requires forall i :: 0 <= i < |ks| ==> ',' !in ks[i] && NoSpace(ks[i])
    ensures ParseCategories(ks) == ks
    ensures ParseCategories([Join(ks, ',')]) == ks
  {
    SplitJoin(ks, ',');
    StripAllNoSpace(ks);
    assert Join([Join(ks, ',')], ',') == Join(ks, ',');
  }

  /** Joining words without whitespace with a comma gives a word. */
  lemma {:induction false} JoinNoSpace(xs: seq<string>)
    requires forall i :: 0 <= i < |xs| ==> NoSpace(xs[i])
    ensures NoSpace(Join(xs, ','))
    decreases |xs|
  {
    if |xs| > 1 {
      JoinNoSpace(xs[1..]);
    }
  }

  /** `/add_counselor <id> k1,...,kn`, written by the usage line's own
      recipe, yields that id and those keys. */
  lemma AddCounselorUsageParses(command: string, id: nat, ks: seq<string>)
    requires |command| > 0 && NoSpace(command)
    requires |ks| >= 1 && SqlLike.AllKeys(ks)
    ensures var args := CommandArgs(Join([command, NatToString(id), Join(ks, ',')], ' '));
      |args| == 2 && ParseInt(args[0]) == Some(id) && ParseCategories(args[1..]) == ks && NotKeys(ks) == []
  {
    KeysHaveNoComma(ks);
    forall i | 0 <= i < |ks| ensures NoSpace(ks[i]) {
      KeyNoSpace(ks[i]);
    }
    JoinNoSpace(ks);
    assert |Join(ks, ',')| > 0 by {
      assert SqlLike.IsKey(ks[0]);
      assert |Join(ks, ',')| >= |ks[0]| > 0;
    }
    DigitsHaveNoSpace(NatToString(id));
    CommandArgsJoin(command, [NatToString(id), Join(ks, ',')]);
    assert [command] + [NatToString(id), Join(ks, ',')] == [command, NatToString(id), Join(ks, ',')];
    ParseIntOfNatToString(id);
    ParseCategoriesJoin(ks);
    assert [NatToString(id), Join(ks, ',')][1..] == [Join(ks, ',')];
  }

  /** A counselor added by `/add_counselor` is found by the category lookup
      of the assignment exactly under the categories given. */
  lemma AddedCounselorLookup(db: Database, id: int, cats: seq<string>, k: string)
    requires id in db.counselors && db.counselors[id] == CounselorRow(Join(cats, ','), true)
    requires |cats| >= 1 && SqlLike.AllKeys(cats) && SqlLike.IsKey(k)
    ensures id in db.GetCounselorsByCategory(k) <==> k in cats
  {
    SqlLike.MatchesKeyList(cats, k);
  }

  /** A comma followed by a space splits into two words, which are joined
      back with a comma of their own: the piece between the two commas is an
      empty category, so "/add_counselor 1 stress, family" is refused. */
  lemma CommaThenSpaceIsRefused(a: string, b: string)
    requires SqlLike.IsKey(a) && SqlLike.IsKey(b)
    ensures ParseCategories([a + [','], b]) == [a, "", b]
    ensures NotKeys(ParseCategories([a + [','], b])) == [""]
  {
    SqlLike.KeyCharacters(a);
    SqlLike.KeyCharacters(b);
    KeyNoSpace(a);
    KeyNoSpace(b);
    EmptyPieceBetween(a, b);
    EmptyIsRefused(a, b);
  }

  /** A trailing comma on one argument leaves an empty piece before the
      next argument. */
  lemma EmptyPieceBetween(a: string, b: string)
    requires ',' !in a && ',' !in b && NoSpace(a) && NoSpace(b)
    ensures ParseCategories([a + [','], b]) == [a, "", b]
  {
    JoinPair(a + [','], b, ',');
    assert a + [','] + [','] + b == a + [','] + ([','] + b);
    SplitEmptyBetween(a, b, ',');
    var pieces: seq<string> := [a, [], b];
    assert forall i :: 0 <= i < 3 ==> NoSpace(pieces[i]);
    StripAllNoSpace(pieces);
  }

  lemma JoinPair(x: string, y: string, sep: char)
    ensures Join([x, y], sep) == x + [sep] + y
  {
    assert [x, y][1..] == [y];
  }

  /** Two separators in a row leave an empty piece between them. */
  lemma SplitEmptyBetween(a: string, b: string, sep: char)
    requires sep !in a && sep !in b
    ensures Split(a + [sep] + ([sep] + b), sep) == [a, [], b]
  {
    var t := [sep] + b;
    var s := a + [sep] + t;
    IndexOfConcat(a, t, sep);
    assert s[..|a|] == a && s[|a| + 1..] == t;
    assert Split(s, sep) == [a] + Split(t, sep);
    IndexOfConcat([], b, sep);
    assert [] + [sep] + b == t && t[1..] == b;
    assert Split(t, sep) == [[]] + Split(b, sep);
    assert IndexOf(b, sep) == |b|;
    assert Split(b, sep) == [b];
  }

  /** Stripping leaves pieces without whitespace as they are. */
  lemma StripAllNoSpace(xs: seq<string>)
    requires forall i :: 0 <= i < |xs| ==> NoSpace(xs[i])
    ensures StripAll(xs) == xs
  {
    forall i | 0 <= i < |xs| ensures StripAll(xs)[i] == xs[i] {
      StripNoSpace(xs[i]);
    }
  }

  lemma EmptyIsRefused(a: string, b: string)
    requires SqlLike.IsKey(a) && SqlLike.IsKey(b)
    ensures NotKeys([a, "", b]) == [""]
  {
    var cats := [a, "", b];
    assert !SqlLike.IsKey("");
    assert cats[1..][1..] == [b];
    assert NotKeys([b]) == [];
  }

  lemma KeyNoSpace(k: string)
    requires SqlLike.IsKey(k)
    ensures NoSpace(k)
  {
  }

  // ------------------------------------------------------------ one-id commands

  /** The id argument of `/remove_counselor`, `/unblock_user` and
      `/force_end`: `int(message.text.split()[1])`, `None` when `int()`
      raises. */
  function SecondWordId(text: string): (r: Option<int>)
    requires |Words(text)| >= 2
  {
    ParseInt(Words(text)[1])
  }

  /** `cmd_remove_counselor`: the row is deleted; the counselor's open
      sessions stay as they are. */
  method CmdRemoveCounselor(db: Database, admin: int, text: string, env: Env) returns (effects: seq<Effect>)
    requires db.Valid()
    modifies db
    ensures db.Valid()
    ensures db.users == old(db.users) && db.sessions == old(db.sessions) && db.messages == old(db.messages)
    ensures !IsAdmin(admin) ==> effects == [] && db.Snapshot() == old(db.Snapshot())
    ensures IsAdmin(admin) && |Words(text)| < 2 ==>
      effects == [Answer(RemoveCounselorUsage)] && db.Snapshot() == old(db.Snapshot())
    ensures IsAdmin(admin) && |Words(text)| >= 2 && SecondWordId(text).None? ==>
      effects == [Answer(InvalidCounselorId)] && db.Snapshot() == old(db.Snapshot())
    ensures IsAdmin(admin) && |Words(text)| >= 2 && SecondWordId(text).Some? ==>
      var id := SecondWordId(text).value;
      (env.writeFault || !SqlInteger(id) ==>
         effects == [Answer(RemoveCounselorFailed)] && db.Snapshot() == old(db.Snapshot())) &&
      (!env.writeFault && SqlInteger(id) ==>
         effects == [Answer(CounselorRemoved(id))] && db.counselors == old(db.counselors) - {id} && !db.IsCounselor(id) &&
         db.Snapshot() == old(db.Snapshot()).(counselors := old(db.counselors) - {id}))
  {
    if !IsAdmin(admin) {
      return [];
    }
    var words := Words(text);
    if |words| < 2 {
      return [Answer(RemoveCounselorUsage)];
    }
    var parsed := ParseInt(words[1]);
    if parsed.None? {
      return [Answer(InvalidCounselorId)];
    }
    var ok := db.RemoveCounselor(parsed.value, env.writeFault);
    effects := if ok then [Answer(CounselorRemoved(parsed.value))] else [Answer(RemoveCounselorFailed)];
  }

  /** The "Block User" button: asks for an id and waits for it. */
  method StartBlockUser(fsm: Fsm, admin: int) returns (next: Fsm, effects: seq<Effect>)
    ensures !IsAdmin(admin) ==> next == fsm && effects == []
    ensures IsAdmin(admin) ==> next == fsm.(state := Some(BlockingUser)) && effects == [Answer(AskUserToBlock)]
  {
    if !IsAdmin(admin) {
      return fsm, [];
    }
    next := fsm.(state := Some(BlockingUser));
    effects := [Answer(AskUserToBlock)];
  }

  /** `handle_block_user`: the context is cleared on every path that
      finishes, the non-administrator's included. A message without text
      makes `int(None)` raise a `TypeError` that is not caught: nothing is
      sent and the context stays. The flag is set on an existing row only,
      and the success reply does not depend on there being one. */
  method HandleBlockUser(db: Database, fsm: Fsm, admin: int, m: Incoming, env: Env) returns (next: Fsm, effects: seq<Effect>)
    requires db.Valid()
    modifies db
    ensures db.Valid()
    ensures db.counselors == old(db.counselors) && db.sessions == old(db.sessions) && db.messages == old(db.messages)
    ensures db.users.Keys == old(db.users.Keys)
    ensures !IsAdmin(admin) ==> next == Cleared && effects == [] && db.Snapshot() == old(db.Snapshot())
    ensures IsAdmin(admin) && m.text.None? ==> next == fsm && effects == [] && db.Snapshot() == old(db.Snapshot())
    ensures IsAdmin(admin) && m.text.Some? ==> next == Cleared
    ensures IsAdmin(admin) && m.text.Some? && ParseInt(m.text.value).None? ==>
      effects == [Answer(InvalidUserId)] && db.Snapshot() == old(db.Snapshot())
    ensures IsAdmin(admin) && m.text.Some? && ParseInt(m.text.value).Some? ==>
      var id := ParseInt(m.text.value).value;
      (env.writeFault || !SqlInteger(id) ==>
         effects == [Answer(BlockFailed)] && db.Snapshot() == old(db.Snapshot())) &&
      (!env.writeFault && SqlInteger(id) ==>
         effects == [Answer(UserBlocked(id))] && (db.IsUserBlocked(id) <==> id in old(db.users)) &&
         (forall t :: t in db.users && t != id ==> db.users[t] == old(db.users[t])) &&
         db.Snapshot() == old(db.Snapshot()).(users :=
           if id in old(db.users) then old(db.users)[id := old(db.users[id]).(blocked := true)] else old(db.users)))
  {
    if !IsAdmin(admin) {
      return Cleared, [];
    }
    if m.text.None? {
      return fsm, [];
    }
    next := Cleared;
    var parsed := ParseInt(m.text.value);
    if parsed.None? {
      return next, [Answer(InvalidUserId)];
    }
    var ok := db.BlockUser(parsed.value, env.writeFault);
    effects := if ok then [Answer(UserBlocked(parsed.value))] else [Answer(BlockFailed)];
  }

  /** `cmd_unblock_user`. */
  method CmdUnblockUser(db: Database, admin: int, text: string, env: Env) returns (effects: seq<Effect>)
    requires db.Valid()
    modifies db
    ensures db.Valid()
    ensures db.counselors == old(db.counselors) && db.sessions == old(db.sessions) && db.messages == old(db.messages)
    ensures db.users.Keys == old(db.users.Keys)
    ensures !IsAdmin(admin) ==> effects == [] && db.Snapshot() == old(db.Snapshot())
    ensures IsAdmin(admin) && |Words(text)| < 2 ==>
      effects == [Answer(UnblockUsage)] && db.Snapshot() == old(db.Snapshot())
    ensures IsAdmin(admin) && |Words(text)| >= 2 && SecondWordId(text).None? ==>
      effects == [Answer(InvalidUserId)] && db.Snapshot() == old(db.Snapshot())
    ensures IsAdmin(admin) && |Words(text)| >= 2 && SecondWordId(text).Some? ==>
      var id := SecondWordId(text).value;
      (env.writeFault || !SqlInteger(id) ==>
         effects == [Answer(UnblockFailed)] && db.Snapshot() == old(db.Snapshot())) &&
      (!env.writeFault && SqlInteger(id) ==>
         effects == [Answer(UserUnblocked(id))] && !db.IsUserBlocked(id) &&
         (forall t :: t in db.users && t != id ==> db.users[t] == old(db.users[t])) &&
         db.Snapshot() == old(db.Snapshot()).(users :=
           if id in old(db.users) then old(db.users)[id := old(db.users[id]).(blocked := false)] else old(db.users)))
  {
    if !IsAdmin(admin) {
      return [];
    }
    var words := Words(text);
    if |words| < 2 {
      return [Answer(UnblockUsage)];
    }
    var parsed := ParseInt(words[1]);
    if parsed.None? {
      return [Answer(InvalidUserId)];
    }
    var ok := db.UnblockUser(parsed.value, env.writeFault);
    effects := if ok then [Answer(UserUnblocked(parsed.value))] else [Answer(UnblockFailed)];
  }

  /** `cmd_force_end`: the user's active session, if any, is finished. No
      one is notified, and the user's context is not touched. An id outside
      SQLite's range makes the lookup raise; the handler's catch-all answers
      with the error text. */
  method CmdForceEnd(db: Database, admin: int, text: string, env: Env) returns (effects: seq<Effect>)
    requires db.Valid()
    modifies db
    ensures db.Valid()
    ensures AtMostOneActive(old(db.sessions)) ==> AtMostOneActive(db.sessions)
    ensures !IsAdmin(admin) ==> effects == [] && db.Snapshot() == old(db.Snapshot())
    ensures IsAdmin(admin) && |Words(text)| < 2 ==>
      effects == [Answer(ForceEndUsage)] && db.Snapshot() == old(db.Snapshot())
    ensures IsAdmin(admin) && |Words(text)| >= 2 && SecondWordId(text).None? ==>
      effects == [Answer(InvalidUserId)] && db.Snapshot() == old(db.Snapshot())
    ensures IsAdmin(admin) && |Words(text)| >= 2 && SecondWordId(text).Some? ==>
      var user := SecondWordId(text).value;
      (!SqlInteger(user) ==> effects == [Answer(ForceEndError)] && db.Snapshot() == old(db.Snapshot())) &&
      (SqlInteger(user) && old(db.GetActiveSession(user)).None? ==>
         effects == [Answer(NoSessionToEnd(user))] && db.Snapshot() == old(db.Snapshot())) &&
      (SqlInteger(user) && old(db.GetActiveSession(user)).Some? ==>
         var sid := old(db.GetActiveSession(user)).value;
         db.Snapshot() == (if env.writeFault then old(db.Snapshot()) else old(db.Snapshot()).Finish(sid)) &&
         effects == [Answer(if env.writeFault then ForceEndFailed(user) else ForceEnded(sid, user))] &&
         (AtMostOneActive(old(db.sessions)) && !env.writeFault ==> db.GetActiveSession(user).None?))
  {
    if !IsAdmin(admin) {
      return [];
    }
    var words := Words(text);
    if |words| < 2 {
      return [Answer(ForceEndUsage)];
    }
    var parsed := ParseInt(words[1]);
    if parsed.None? {
      return [Answer(InvalidUserId)];
    }
    var user := parsed.value;
    if !SqlInteger(user) {
      return [Answer(ForceEndError)];
    }
    var active := db.GetActiveSession(user);
    if active.None? {
      return [Answer(NoSessionToEnd(user))];
    }
    var sid := active.value;
    ghost var before := db.Snapshot();
    var ok := db.FinishSession(sid, env.writeFault);
    if AtMostOneActive(before.sessions) {
      FinishKeepsOneActive(before, sid);
      FinishEndsTheActiveSession(before, sid);
    }
    effects := [Answer(if ok then ForceEnded(sid, user) else ForceEndFailed(user))];
  }

  // ------------------------------------------------------------ export

  /** The `finished_at` of every finished session. */
  function FinishedAt(sessions: map<int, Session>): (r: map<int, nat>)
    ensures forall x :: x in r <==> x in sessions && sessions[x].finishedAt.Some?
    ensures forall x :: x in r ==> r[x] == FinishTime(sessions[x])
  {
    map x | x in sessions && sessions[x].finishedAt.Some? :: sessions[x].finishedAt.value
  }

  /** `finished_at` of a finished session (0 for an active one, which has
      none). */
  function FinishTime(s: Session): nat {
    if s.finishedAt.Some? then s.finishedAt.value else 0
  }

  /** The number of sessions one export holds (`LIMIT 100`). */
  const ExportLimit: nat := 100

  /** Every finished session has a finish time, and only those. */
  predicate FinishTimesRecorded(sessions: map<int, Session>) {
    forall x :: x in sessions ==> (sessions[x].status == Finished <==> sessions[x].finishedAt.Some?)
  }

  lemma FinishTimesOfValid(t: Tables)
    requires t.Valid()
    ensures FinishTimesRecorded(t.sessions)
  {
    forall x | x in t.sessions
      ensures t.sessions[x].status == Finished <==> t.sessions[x].finishedAt.Some?
    {
      assert FinishRecorded(t.sessions[x], t.clock);
    }
  }

  /** `SELECT ... WHERE status = 'finished' ORDER BY finished_at DESC LIMIT
      100`: finished sessions only, latest finish first, at most 100, and
      none left out that finished later than one taken. */
  function ExportSelection(sessions: map<int, Session>): (r: seq<int>)
    requires FinishTimesRecorded(sessions)
    ensures |r| <= ExportLimit
    ensures forall i :: 0 <= i < |r| ==> r[i] in sessions && sessions[r[i]].status == Finished
    ensures forall i, j :: 0 <= i < j < |r| ==> FinishTime(sessions[r[i]]) >= FinishTime(sessions[r[j]])
    ensures forall x :: x in sessions && sessions[x].status == Finished && x !in r ==>
      |r| == ExportLimit && FinishTime(sessions[x]) <= FinishTime(sessions[r[|r| - 1]])
    ensures Distinct(r)
  {
    var ids := Ascending(sessions.Keys);
    var finished := SelectSessions(sessions, ids, AnyWith(Finished));
    AscendingIsIncreasing(sessions.Keys);
    SelectKeepsIncreasing(sessions, ids, AnyWith(Finished));
    var key := FinishedAt(sessions);
    FinishedAreKeyed(sessions, finished, key);
    var sorted := SortByKeyDesc(finished, key);
    var r := Take(sorted, ExportLimit);
    SelectionKeepsLatest(sessions, finished, key, sorted, r);
    r
  }

  lemma FinishedAreKeyed(sessions: map<int, Session>, finished: seq<int>, key: map<int, nat>)
    requires FinishTimesRecorded(sessions)
    requires forall x :: x in finished <==> x in sessions && sessions[x].status == Finished
    requires forall x :: x in key <==> x in sessions && sessions[x].finishedAt.Some?
    ensures forall i :: 0 <= i < |finished| ==> finished[i] in key
  {
    forall i | 0 <= i < |finished| ensures finished[i] in key {
      var x := finished[i];
      assert x in finished;
      assert x in sessions && sessions[x].status == Finished;
      assert sessions[x].finishedAt.Some?;
    }
  }

  lemma SelectionKeepsLatest(sessions: map<int, Session>, finished: seq<int>, key: map<int, nat>, sorted: seq<int>, r: seq<int>)
    requires forall x :: x in key <==> x in sessions && sessions[x].finishedAt.Some?
    requires forall x :: x in key ==> key[x] == FinishTime(sessions[x])
    requires FinishTimesRecorded(sessions)
    requires forall x :: x in finished <==> x in sessions && sessions[x].status == Finished
    requires Distinct(finished)
    requires multiset(sorted) == multiset(finished)
    requires forall i :: 0 <= i < |sorted| ==> sorted[i] in key
    requires forall i, j :: 0 <= i < j < |sorted| ==> key[sorted[i]] >= key[sorted[j]]
    requires |r| == (if |sorted| < ExportLimit then |sorted| else ExportLimit) && r == sorted[..|r|]
    ensures forall i :: 0 <= i < |r| ==> r[i] in sessions && sessions[r[i]].status == Finished
    ensures forall i, j :: 0 <= i < j < |r| ==> FinishTime(sessions[r[i]]) >= FinishTime(sessions[r[j]])
    ensures forall x :: x in sessions && sessions[x].status == Finished && x !in r ==>
      |r| == ExportLimit && FinishTime(sessions[x]) <= FinishTime(sessions[r[|r| - 1]])
    ensures Distinct(r)
  {
    PermutationKeepsDistinct(finished, sorted);
    forall i, j | 0 <= i < j < |r| ensures r[i] != r[j] {
      assert r[i] == sorted[i] && r[j] == sorted[j];
    }
    forall i | 0 <= i < |r| ensures r[i] in sessions && sessions[r[i]].status == Finished {
      assert r[i] == sorted[i];
    }
    forall i, j | 0 <= i < j < |r| ensures FinishTime(sessions[r[i]]) >= FinishTime(sessions[r[j]]) {
      assert r[i] == sorted[i] && r[j] == sorted[j];
    }
    forall x | x in sessions && sessions[x].status == Finished && x !in r
      ensures |r| == ExportLimit && FinishTime(sessions[x]) <= FinishTime(sessions[r[|r| - 1]])
    {
      assert x in multiset(finished);
      assert x in multiset(sorted);
      var k :| 0 <= k < |sorted| && sorted[k] == x;
      assert k >= |r| && |r| == ExportLimit;
      assert r[|r| - 1] == sorted[|r| - 1];
    }
  }

  /** One session of the export, with its messages in the order they were
      stored. */
  datatype SessionLog = SessionLog(
    sessionId: int,
    userHandle: Option<string>,
    user: int,
    counselor: int,
    category: string,
    finishedAt: Option<nat>,
    messages: seq<MessageRow>)

  /** The export document: `total_sessions` and the logs. */
  datatype Export = Export(totalSessions: nat, sessions: seq<SessionLog>)

  /** The log of session `sid` as the export assembles it. */
  function LogOf(db: Database, sid: int): (r: SessionLog)
    reads db
    requires sid in db.sessions
    ensures r.sessionId == sid && r.user == db.sessions[sid].user && r.counselor == db.sessions[sid].counselor
    ensures forall m :: m in r.messages <==> m in db.messages && m.sessionId == sid
  {
    var s := db.sessions[sid];
    SessionLog(sid, db.GetUserAnonymousId(s.user), s.user, s.counselor, s.category, s.finishedAt, db.GetSessionMessages(sid))
  }

  /** A log holds its session's messages in table order: the rows at the
      session's positions, none left out and none added. */
  lemma LogInOrder(db: Database, sid: int)
    requires sid in db.sessions
    ensures |LogOf(db, sid).messages| == |PositionsOf(db.messages, sid)|
    ensures forall j :: 0 <= j < |LogOf(db, sid).messages| ==>
      LogOf(db, sid).messages[j] == db.messages[PositionsOf(db.messages, sid)[j]]
  {
    db.SessionMessagesInOrder(sid);
  }

  /** `export_logs` up to the JSON text: for the administrator, the selected
      sessions in the selection's order, each with its messages, and the
      count of logs; nobody else gets anything. */
  method ExportLogs(db: Database, admin: int) returns (r: Option<Export>)
    requires db.Valid()
    ensures !IsAdmin(admin) <==> r.None?
    ensures r.Some? ==>
      var selected := ExportSelection(db.sessions);
      r.value.totalSessions == |r.value.sessions| && |r.value.sessions| == |selected| &&
      forall i :: 0 <= i < |selected| ==> selected[i] in db.sessions && r.value.sessions[i] == LogOf(db, selected[i])
  {
    if !IsAdmin(admin) {
      return None;
    }
    FinishTimesOfValid(db.Snapshot());
    var selected := ExportSelection(db.sessions);
    var logs := CollectLogs(db, selected);
    r := Some(Export(|logs|, logs));
  }

  /** The loop of `export_logs`: one log per selected session, in order. */
  method CollectLogs(db: Database, selected: seq<int>) returns (logs: seq<SessionLog>)
    requires forall i :: 0 <= i < |selected| ==> selected[i] in db.sessions
    ensures |logs| == |selected|
    ensures forall i :: 0 <= i < |selected| ==> logs[i] == LogOf(db, selected[i])
  {
    logs := [];
    var i := 0;
    while i < |selected|
      invariant 0 <= i <= |selected|
      invariant |logs| == i
      invariant forall j :: 0 <= j < i ==> logs[j] == LogOf(db, selected[j])
    {
      logs := logs + [LogOf(db, selected[i])];
      i := i + 1;
    }
  }
}
