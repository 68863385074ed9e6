/**
 * What the three handler files share: the FSM context of one party, the
 * incoming message, the log of what a handler sends, the classification of
 * a message by kind and the lookup of an issue category by its label.
 *
 * aiogram keeps one FSM context per chat and user, shared by all routers,
 * so a person's user, counselor and admin states live in one `Fsm`. A text
 * from the `STRINGS` table or a fixed reply is an opaque tag; only the
 * values it is formatted with are kept.
 */
module Conversation {
  import opened Wrappers
  import opened Text
  import opened Config
  import opened Store
  import Anonymous

  /** The states of `UserStates`, `CounselorStates` and `AdminStates`. */
  datatype FsmState =
    | WaitingForLanguage | WaitingForIssue | InChat | UserWaitingForReply
    | SelectingSession | WaitingForReply
    | AddingCounselor | RemovingCounselor | BlockingUser | AssigningCategories

  /** One party's FSM context: the state and the data keys the handlers
      read and write (`language`, `session_id`, `user_id`). */
  datatype Fsm = Fsm(state: Option<FsmState>, language: Option<Lang>, sessionId: Option<int>, userId: Option<int>)
  {
    /** `data.get("language", "en")`. */
    function Language(): Lang {
      language.GetOr(En)
    }
  }

  /** `state.clear()`: no state and no data. */
  const Cleared: Fsm := Fsm(None, None, None, None)

  /** An incoming Telegram message, reduced to what the handlers look at:
      the text, the caption and the file ids of the attached media (`photo`
      lists the sizes of one photo, the largest last). */
  datatype Incoming = Incoming(
    text: Option<string>,
    caption: Option<string>,
    photo: seq<string>,
    voice: Option<string>,
    video: Option<string>,
    document: Option<string>)

  /** Python's `message.text and message.text.startswith('/')`. */
  predicate IsCommand(text: Option<string>) {
    text.Some? && StartsWith(text.value, "/")
  }

  /** What the outside world decides during one handler run: the random
      handle draws, whether the handler's store write fails, whether the
      insert of a new handle fails, and whether bot API calls go through. */
  datatype Env = Env(draws: seq<nat>, writeFault: bool, idFault: bool, delivered: bool)
  {
    predicate Valid() {
      forall i :: 0 <= i < |draws| ==> Anonymous.IsDraw(draws[i])
    }
  }

  /** `after` is `before`, or `before` with a first row, not blocked, for
      `user`: what `get_or_create_anonymous_id` may do to the store. */
  predicate SameOrRegistered(before: Tables, after: Tables, user: int) {
    after == before ||
    (user !in before.users && user in after.users &&
     after == before.(users := before.users[user := UserRow(after.users[user].anonymousId, false)]))
  }

  // ------------------------------------------------------------ effects

  /** The texts a handler answers with. Those taken from `STRINGS` carry the
      language they are shown in. */
  datatype Reply =
    // user flow
    | BlockedNotice(lang: Lang)
    | ChooseLanguage
    | ChooseFromMenu
    | Welcome(lang: Lang, handle: string)
    | NoActiveSession(lang: Lang)
    | SessionEndedError(lang: Lang)
    | SessionEnded(lang: Lang)
    | InvalidSelection(lang: Lang)
    | ActiveSessionExists(lang: Lang)
    | NoCounselor(lang: Lang)
    | SessionError(lang: Lang)
    | Connected(lang: Lang, shown: string, handle: string)
    | ChooseIssue(lang: Lang)
    | DeliveryFailed(lang: Lang)
    // counselor flow
    | NotCounselor
    | CounselorPanel(sessions: seq<int>)
    | NoActiveSessions
    | SessionList(sessions: seq<int>)
    | NothingToReplyTo
    | AskSessionToReply(sessions: seq<int>)
    | InvalidSessionId
    | SessionNotFound
    | SessionNotActive
    | ReplyingTo(peer: Option<string>)
    | SessionDataLost
    | SentTo(peer: Option<string>)
    | SendError
    | Cancelled
    | AskSessionToFinish(sessions: seq<int>)
    | SessionFinishedOk
    // admin flow
    | NotAdmin
    | AdminPanel(activeSessions: nat, counselors: nat)
    | AddCounselorUsage
    | InvalidCounselorId
    | InvalidCategories(invalid: seq<string>)
    | CounselorAdded(id: int, categories: seq<string>)
    | AddCounselorFailed
    | RemoveCounselorUsage
    | CounselorRemoved(id: int)
    | RemoveCounselorFailed
    | AskUserToBlock
    | UserBlocked(id: int)
    | BlockFailed
    | InvalidUserId
    | UnblockUsage
    | UserUnblocked(id: int)
    | UnblockFailed
    | ForceEndUsage
    | NoSessionToEnd(user: int)
    | ForceEnded(session: int, user: int)
    | ForceEndFailed(user: int)
    | ForceEndError

  /** The notices one party's action sends to the other party. */
  datatype Notice =
    | EndedByUser(handle: Option<string>)
    | ReturnedBackByUser(handle: Option<string>)
    | NewRequest(requester: string, shown: string, lang: Lang)
    | FinishedByCounselor

  /** Who a relayed message is shown as coming from: a user by the
      anonymous handle only, a counselor only as "your counselor". */
  datatype Origin = FromUser(handle: Option<string>) | FromYourCounselor

  /** One step a handler takes, in order. `delivered` is whether the bot API
      call went through; `stored` whether the store write committed. */
  datatype Effect =
    | Answer(reply: Reply)
    | Notify(to: int, notice: Notice, delivered: bool)
    | Persist(row: MessageRow, stored: bool)
    | Relay(to: int, origin: Origin, kind: MessageKind, content: Option<string>, fileId: Option<string>, delivered: bool)

  /** Every relayed message directly follows the step that handed the same
      message (kind, content and file id) to the store. */
  predicate PersistBeforeRelay(effects: seq<Effect>)
    decreases |effects|
  {
    if effects == [] then true
    else if effects[0].Relay? then false
    else if effects[0].Persist? && |effects| >= 2 && effects[1].Relay? then
      SameMessage(effects[0].row, effects[1]) && PersistBeforeRelay(effects[2..])
    else PersistBeforeRelay(effects[1..])
  }

  predicate SameMessage(row: MessageRow, relay: Effect)
    requires relay.Relay?
  {
    row.kind == relay.kind && row.content == relay.content && row.fileId == relay.fileId
  }

  /** A log without relays satisfies the rule. */
  lemma {:induction false} NoRelayIsOrdered(effects: seq<Effect>)
    requires forall k :: 0 <= k < |effects| ==> !effects[k].Relay?
    ensures PersistBeforeRelay(effects)
    decreases |effects|
  {
    if effects != [] {
      NoRelayIsOrdered(effects[1..]);
    }
  }

  /** Steps without relays appended to an ordered log keep it ordered. */
  lemma {:induction false} PersistBeforeRelayExtends(effects: seq<Effect>, more: seq<Effect>)
    requires PersistBeforeRelay(effects)
    requires forall k :: 0 <= k < |more| ==> !more[k].Relay?
    ensures PersistBeforeRelay(effects + more)
    decreases |effects|
  {
    if effects == [] {
      assert effects + more == more;
      NoRelayIsOrdered(more);
    } else if effects[0].Persist? && |effects| >= 2 && effects[1].Relay? {
      PersistBeforeRelayExtends(effects[2..], more);
      var all := effects + more;
      assert all[0] == effects[0] && all[1] == effects[1];
      assert all[2..] == effects[2..] + more;
    } else {
      PersistBeforeRelayExtends(effects[1..], more);
      var all := effects + more;
      assert all[0] == effects[0];
      assert all[1..] == effects[1..] + more;
      if |effects| == 1 && |more| > 0 {
        assert all[1] == more[0];
      }
    }
  }

  /** What the sender is told after a relay: nothing, or one reply. */
  function AnswerOf(reply: Option<Reply>): (r: seq<Effect>)
    ensures forall k :: 0 <= k < |r| ==> !r[k].Relay?
  {
    if reply.Some? then [Answer(reply.value)] else []
  }

  /** The relay step of both chat directions: the message is handed to the
      store first and forwarded after, whatever the store answered; the
      answer to the sender, if any, comes last. */
  function PersistThenRelay(row: MessageRow, stored: bool, to: int, origin: Origin, delivered: bool, reply: Option<Reply>): (r: seq<Effect>)
    ensures PersistBeforeRelay(r)
    ensures |r| >= 2 && r[0] == Persist(row, stored) && r[2..] == AnswerOf(reply)
    ensures r[1].Relay? && r[1].to == to && r[1].origin == origin && r[1].delivered == delivered
    ensures SameMessage(row, r[1])
  {
    var r := [Persist(row, stored), Relay(to, origin, row.kind, row.content, row.fileId, delivered)];
    assert PersistBeforeRelay(r) by {
      assert r[2..] == [];
    }
    PersistBeforeRelayExtends(r, AnswerOf(reply));
    r + AnswerOf(reply)
  }

  // ------------------------------------------------------------ classification

  /** The kind, content and file id a chat handler stores for a message. */
  datatype Classified = Classified(kind: MessageKind, content: Option<string>, fileId: Option<string>)

  /** `message.caption or ""`. */
  function CaptionOrEmpty(m: Incoming): (r: string)
    ensures m.caption.Some? && m.caption.value != "" ==> r == m.caption.value
    ensures m.caption.None? || m.caption.value == "" ==> r == ""
  {
    if m.caption.Some? && m.caption.value != "" then m.caption.value else ""
  }

  /** The branch chain of the chat handlers: photo, then voice, then video,
      then document, and a text message otherwise. */
  function Classify(m: Incoming): (c: Classified)
    ensures c.kind == Photo <==> m.photo != []
    ensures c.kind == Voice <==> m.photo == [] && m.voice.Some?
    ensures c.kind == Video <==> m.photo == [] && m.voice.None? && m.video.Some?
    ensures c.kind == Document <==> m.photo == [] && m.voice.None? && m.video.None? && m.document.Some?
    ensures c.kind == TextMessage <==>
      (m.photo == [] && m.voice.None? && m.video.None? && m.document.None?)
    ensures c.kind == TextMessage ==> c.content == m.text && c.fileId.None?
    ensures c.kind == Voice ==> c.content == Some("")
    ensures c.kind in {Photo, Video, Document} ==> c.content == Some(CaptionOrEmpty(m))
    ensures c.kind == Photo ==> c.fileId == Some(m.photo[|m.photo| - 1])
    ensures c.kind != TextMessage ==> c.fileId.Some?
  {
    if m.photo != [] then Classified(Photo, Some(CaptionOrEmpty(m)), Some(m.photo[|m.photo| - 1]))
    else if m.voice.Some? then Classified(Voice, Some(""), m.voice)
    else if m.video.Some? then Classified(Video, Some(CaptionOrEmpty(m)), m.video)
    else if m.document.Some? then Classified(Document, Some(CaptionOrEmpty(m)), m.document)
    else Classified(TextMessage, m.text, None)
  }

  /** A message with several media is classified by the first of them in
      the order photo, voice, video, document; its text is then ignored. */
  lemma ClassifyIgnoresLaterMedia(m: Incoming, voice: Option<string>, video: Option<string>, document: Option<string>, text: Option<string>)
    requires m.photo != []
    ensures Classify(m.(voice := voice, video := video, document := document, text := text)) == Classify(m)
  {
  }

  /** The row a chat handler stores for message `m` from `sender` in session
      `sid`. */
  function ChatRow(sid: int, sender: int, m: Incoming): MessageRow {
    var c := Classify(m);
    MessageRow(sid, sender, c.kind, c.content, c.fileId)
  }

  /** The shared tail of both chat directions: the classified message is
      saved (a failed save does not stop it), then relayed to `to`, then the
      sender gets `reply`, if any. */
  method ForwardMessage(db: Database, sid: int, sender: int, m: Incoming, to: int, origin: Origin, env: Env, reply: Option<Reply>)
    returns (effects: seq<Effect>)
    requires db.Valid()
    modifies db
    ensures db.Valid()
    ensures db.Snapshot() == if env.writeFault then old(db.Snapshot()) else old(db.Snapshot()).Append(ChatRow(sid, sender, m))
    ensures effects == PersistThenRelay(ChatRow(sid, sender, m), !env.writeFault, to, origin, env.delivered, reply)
    ensures PersistBeforeRelay(effects)
  {
    var c := Classify(m);
    var stored := db.SaveMessage(sid, sender, c.kind, c.content, c.fileId, env.writeFault);
    effects := PersistThenRelay(MessageRow(sid, sender, c.kind, c.content, c.fileId), stored, to, origin, env.delivered, reply);
  }

  // ------------------------------------------------------------ languages

  /** The language a button of the language keyboard selects. */
  function LanguageOfButton(text: Option<string>): (r: Option<Lang>)
    ensures r == Some(En) <==> text == Some(EnglishButton)
    ensures r == Some(Am) <==> text == Some(AmharicButton)
  {
    if text == Some(AmharicButton) then Some(Am)
    else if text == Some(EnglishButton) then Some(En)
    else None
  }

  function LanguageButton(lang: Lang): string {
    if lang == En then EnglishButton else AmharicButton
  }

  /** Each language's button selects that language. */
  lemma LanguageButtonRoundTrip(lang: Lang)
    ensures LanguageOfButton(Some(LanguageButton(lang))) == Some(lang)
  {
  }

  // ------------------------------------------------------------ categories

  /** The key of the first category of `cats` whose label in `lang` is
      `text`. */
  function KeyForLabel(cats: seq<IssueCategory>, lang: Lang, text: Option<string>): (r: Option<string>)
    ensures r.None? <==> forall i :: 0 <= i < |cats| ==> text != Some(cats[i].Label(lang))
    ensures r.Some? ==> exists i :: 0 <= i < |cats| && cats[i].key == r.value && text == Some(cats[i].Label(lang))
  {
    if cats == [] then None
    else if text == Some(cats[0].Label(lang)) then Some(cats[0].key)
    else KeyForLabel(cats[1..], lang, text)
  }

  /** The loop over `ISSUE_CATEGORIES` (passed as `cats`) with `break` on
      the first label equal to the text. */
  method FindCategory(cats: seq<IssueCategory>, lang: Lang, text: Option<string>) returns (key: Option<string>)
    ensures key == KeyForLabel(cats, lang, text)
  {
    key := None;
    var i := 0;
    while i < |cats|
      invariant 0 <= i <= |cats|
      invariant KeyForLabel(cats[i..], lang, text) == KeyForLabel(cats, lang, text)
    {
      if text == Some(cats[i].Label(lang)) {
        key := Some(cats[i].key);
        break;
      }
      assert cats[i..][1..] == cats[i + 1..];
      i := i + 1;
    }
  }

  /** A category key together with the language it was found in. */
  datatype Resolved = Resolved(key: string, lang: Lang)

  /** The lookup of `handle_issue_selection`: the current language first,
      then the other one. */
  function ResolveCategory(lang: Lang, text: Option<string>): (r: Option<Resolved>)
    ensures r.None? <==> KeyForLabel(IssueCategories, lang, text).None? && KeyForLabel(IssueCategories, lang.Other(), text).None?
    ensures r.Some? && r.value.lang == lang ==> KeyForLabel(IssueCategories, lang, text) == Some(r.value.key)
    ensures r.Some? && r.value.lang != lang ==>
      KeyForLabel(IssueCategories, lang, text).None? && r.value.lang == lang.Other() &&
      KeyForLabel(IssueCategories, lang.Other(), text) == Some(r.value.key)
  {
    var here := KeyForLabel(IssueCategories, lang, text);
    if here.Some? then Some(Resolved(here.value, lang))
    else
      var there := KeyForLabel(IssueCategories, lang.Other(), text);
      if there.Some? then Some(Resolved(there.value, lang.Other())) else None
  }

  /** The labels of one language are pairwise distinct, and no English
      label is an Amharic one. */
  lemma LabelsDistinct(i: nat, j: nat, a: Lang, b: Lang)
    requires i < |IssueCategories| && j < |IssueCategories|
    requires IssueCategories[i].Label(a) == IssueCategories[j].Label(b)
    ensures i == j && a == b
  {
  }

  /** Choosing the button of category `i` in either language yields the
      key of `i` in that language; a label of the other language switches
      the language. */
  lemma {:induction false} ResolveLabel(i: nat, lang: Lang, shown: Lang)
    requires i < |IssueCategories|
    ensures ResolveCategory(lang, Some(IssueCategories[i].Label(shown))) == Some(Resolved(IssueCategories[i].key, shown))
  {
    var text := Some(IssueCategories[i].Label(shown));
    forall l: Lang ensures KeyForLabel(IssueCategories, l, text).Some? ==> l == shown && KeyForLabel(IssueCategories, l, text) == Some(IssueCategories[i].key) {
      if KeyForLabel(IssueCategories, l, text).Some? {
        var j :| 0 <= j < |IssueCategories| && IssueCategories[j].key == KeyForLabel(IssueCategories, l, text).value &&
                 text == Some(IssueCategories[j].Label(l));
        LabelsDistinct(j, i, l, shown);
      }
    }
    assert KeyForLabel(IssueCategories, shown, text).Some? by {
      assert text == Some(IssueCategories[i].Label(shown));
    }
  }
}
