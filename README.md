# Anonymous counseling bot: sessions, assignment and the store

This project models the core of a Telegram bot that connects users
anonymously with counselors. A user picks a language and an issue category.
The bot gives the user an anonymous handle (`User-` and four digits) and
assigns the counselor of that category with the fewest active sessions. It
then opens a chat session and relays messages both ways through the bot,
storing every message first. Counselors list their sessions, reply to one
session at a time and finish sessions. The administrator adds and removes
counselors, blocks and unblocks users, force-ends sessions and exports the
logs of finished sessions.

Modules, one per file:

- `Wrappers`: `Option`.
- `Text`: the Python string operations the handlers use. These are
  `split()`, `strip()`, `split(',')`, `','.join`, `str(n)` and `int(s)`.
- `Config`: the constants of `config.py`. These are the admin id, the issue
  categories with their English and Amharic labels, the empty
  per-category fallback lists and the handle prefix.
- `SqlLike`: SQLite's `LIKE`, as used by `get_counselors_by_category`.
- `Ordering`: the ascending and descending key orders that the SQL
  queries use, and the sort by finish time used by the export.
- `Store`: `database.py`. The class `Store.Database` holds the four tables
  as fields (maps keyed by primary key, and a sequence of messages). Each
  write method takes a `fault` flag that stands for a caught exception, which
  leaves every table unchanged.
- `Anonymous`: `utils/anonymous.py`.
- `Assignment`: `utils/counselor_assignment.py`.
- `Conversation`: what the three handler files share. This covers the FSM
  context, the incoming message, the steps a handler takes (answers,
  notices, stores and relays, in order), the classification of a message
  by media kind and the lookup of a category by its label.
- `UserHandlers`, `CounselorHandlers`, `AdminHandlers`: the three handler
  files. Each handler is a method. It takes the store, the sender's FSM
  context, the message and an `Env`, and returns the new FSM context and
  the steps it took. An `Env` holds the random handle draws, whether a store
  write fails and whether Telegram delivery succeeds.

The main properties proved:

- **At most one active session per user.** Every handler that opens or
  finishes a session preserves this (`Store.AtMostOneActive`). The store
  alone does not (`Store.CreateWithoutCheckBreaksOneActive`).
- **Persist before relay.** In every chat direction, each relayed message
  comes right after the step that hands the same message to the store
  (`Conversation.PersistBeforeRelay`).
- **Least-loaded assignment.** The counselor chosen is the first eligible
  counselor with the fewest active sessions in the category.
- **Category matching.** `LIKE '%k%'` over a counselor's comma-joined
  categories holds exactly when `k` is one of those categories, as long as
  they are valid keys.

## Model

| member | source | states |
|---|---|---|
| Store.Database.constructor | database.py:29-85 | init_database on a fresh file gives four empty tables that satisfy the schema invariant |
| Store.Database.CreateUser | database.py:88-102 | INSERT OR IGNORE adds a row only when neither the telegram id nor the handle is taken; the call reports success either way; afterwards the handle and the id look each other up |
| Store.Database.GetUserAnonymousId | database.py:104-111 | the handle is returned exactly when the telegram id has a row |
| Store.Database.GetUserTelegramId | database.py:113-120 | returns a telegram id whose row holds the handle; None exactly when no row holds it |
| Store.Database.HandleOwner | database.py:113-120 | handles are UNIQUE, so looking up a stored handle gives back its owner |
| Store.Database.BlockUser | database.py:122-133 | only an existing row is set to blocked, no other row changes, and success is reported even for an unknown id; an id outside the 64-bit range is a caught failure |
| Store.Database.UnblockUser | database.py:135-146 | an existing row is unblocked and no other row changes; afterwards the id is not blocked; an id outside the 64-bit range is a caught failure |
| Store.Database.IsUserBlocked | database.py:148-157 | blocked exactly when a row exists and its flag is set; an id without a row is never blocked |
| Store.Database.AddCounselor | database.py:158-173 | INSERT OR REPLACE stores the comma-joined categories as active; a non-empty list without commas reads back unchanged; an id outside the 64-bit range is a caught failure |
| Store.Database.RemoveCounselor | database.py:175-186 | deletes the row (absent or not); afterwards the id is not a counselor; an id outside the 64-bit range is a caught failure |
| Store.Database.GetCounselorsByCategory | database.py:188-198 | strictly ascending ids; an id is listed iff its row is active and its category string is LIKE '%category%' |
| Store.SelectCounselors | database.py:192-198 | the filtered scan keeps exactly the active LIKE-matching rows and keeps ascending order |
| Store.Database.IsCounselor | database.py:200-207 | true iff a row exists, active or not |
| Store.Database.RegisteredCategories | database.py:209-225 | the split category list, which joined with commas gives back the stored string |
| Store.Database.GetAllCounselors | database.py:209-225 | one entry per row in strictly ascending id, each with its split categories and active flag; every row is listed |
| Store.Database.CreateChatSession | database.py:226-243 | AUTOINCREMENT: the new id is one past the last and above every existing id; the new session is active; nothing checks for an existing active session |
| Store.CreateWithoutCheckBreaksOneActive | database.py:226-243 | creating a session for a user who already has an active one gives that user two active sessions |
| Store.OpenKeepsOneActive | database.py:226-243 | opening a session for a user with no active session keeps at most one active session per user |
| Store.Database.GetActiveSession | database.py:245-265 | the newest active session of the user; None exactly when the user has no active session |
| Store.Database.GetCounselorSessions | database.py:267-288 | strictly newest first; exactly the counselor's sessions with the given status |
| Store.SelectSessions | database.py:245-288 | the filtered scan keeps exactly the sessions the query asks for and keeps descending order |
| Store.Database.FinishSession | database.py:290-304 | an unconditional UPDATE: the session, if it exists, is finished with a finish time later than every earlier one; nothing else changes; success is reported even when no row matched |
| Store.FinishKeepsOneActive | database.py:290-304 | finishing a session never creates a second active session |
| Store.FinishEndsTheActiveSession | database.py:290-304 | with at most one active session per user, finishing a user's active session leaves that user with none |
| Store.Database.GetSessionById | database.py:306-325 | the row when it exists, None otherwise |
| Store.Database.GetAllActiveSessions | database.py:327-348 | strictly newest first; exactly the active sessions |
| Store.Database.SaveMessage | database.py:349-364 | appends the message whatever the session's state; that session's message list grows by exactly this message, and every other session's list is unchanged |
| Store.MessagesOfAppend | database.py:366-386 | appending a message extends only its own session's message list |
| Store.PositionsOf | database.py:366-386 | the positions in the message table that belong to the session: every one of them, and in increasing order |
| Store.MessagesOfInOrder | database.py:366-386 | the messages of a session are the table rows at its positions, in table order (`ORDER BY sent_at ASC` over insertion order) |
| Store.Database.GetSessionMessages | database.py:366-386 | exactly the stored messages of the session |
| Store.Database.SessionMessagesInOrder | database.py:366-386 | the query returns the session's rows in the order they were saved, none dropped or added |
| SqlLike.LikeContainsIsOccurrence | database.py:192-194 | `t LIKE '%c%'` holds iff some piece of `t` matches `c` character by character (`_` matches any character; ASCII letters ignore case) |
| SqlLike.MatchesKeyList | database.py:192-194 | over a comma-joined list of valid category keys, `LIKE '%k%'` for a valid key `k` holds iff `k` is in the list |
| SqlLike.SubstringMatches | database.py:192-194 | any category string that contains the category literally is matched |
| SqlLike.WildcardMatch | database.py:192-194 | a string without the category literally can still match: "Mental-Health" matches '%mental_health%' |
| Anonymous.HandleFormat | utils/anonymous.py:13-25 | a drawn handle is "User-" followed by four digits, and the number reads back from it |
| Anonymous.HandleInjective | utils/anonymous.py:13-25 | different draws give different handles |
| Anonymous.FirstFree | utils/anonymous.py:17-25 | the first candidate index whose handle nobody holds; every earlier candidate is held |
| Anonymous.FreshHandle | utils/anonymous.py:13-25 | None exactly when every draw's handle is held; otherwise a handle nobody holds, drawn after only held ones |
| Anonymous.GenerateAnonymousId | utils/anonymous.py:13-25 | returns exactly `FreshHandle`: the handle of the first draw nobody holds, or None when the draws run out |
| Anonymous.GetOrCreateAnonymousId | utils/anonymous.py:28-37 | a stored handle is returned and nothing changes; for a new user the result is the first free draw's handle (`HandleOf`), free before the call, and it is stored unless the write fails |
| Assignment.Eligible | utils/counselor_assignment.py:26-33 | the store's matches, or the configured fallback list when there are none |
| Assignment.FallbackIsEmpty | utils/counselor_assignment.py:29-30 | every configured fallback list is empty, so the candidates are always the store's matches |
| Assignment.CountIsLoad | utils/counselor_assignment.py:40-48 | counting over the category's active sessions gives the counselor's number of active sessions in the category |
| Assignment.CountsAreLoads | utils/counselor_assignment.py:44-51 | the keys `min` compares are the candidates' loads |
| Assignment.CountPerCounselor | utils/counselor_assignment.py:44-48 | the loop gives every candidate its count |
| Assignment.FirstMinIndex | utils/counselor_assignment.py:51 | Python's `min`: the first index holding the smallest key |
| Assignment.LeastLoaded | utils/counselor_assignment.py:51 | a candidate no more loaded than any other, and strictly less loaded than every candidate before it |
| Assignment.LeastLoadedOf | utils/counselor_assignment.py:37-51 | the round-robin branch computes LeastLoaded |
| Assignment.AssignCounselor | utils/counselor_assignment.py:14-51 | None iff there is no candidate; otherwise a candidate, and with round robin the least loaded one |
| Assignment.OnlyActiveInCategoryMatters | utils/counselor_assignment.py:40-51 | two session tables that agree on the category's active sessions give the same round-robin choice |
| Conversation.Classify | handlers/user_handlers.py:349-369 | photo, then voice, then video, then document, else text; the stored content and file id for each kind |
| Conversation.ClassifyIgnoresLaterMedia | handlers/counselor_handlers.py:180-195 | a message with a photo is classified as a photo whatever else it carries |
| Conversation.PersistThenRelay | handlers/counselor_handlers.py:197-240 | the steps of a relay: store first, then relay the same message, then at most one answer; the sequence is persist-before-relay ordered |
| Conversation.PersistBeforeRelayExtends | handlers/user_handlers.py:371-410 | appending steps that are not relays keeps a log ordered |
| Conversation.ForwardMessage | handlers/user_handlers.py:349-410 | the classified message is appended to the store unless the write fails, then relayed, then the sender gets the reply |
| Conversation.LanguageOfButton | handlers/user_handlers.py:83-90 | only the two language buttons select a language, each its own |
| Conversation.LanguageButtonRoundTrip | handlers/user_handlers.py:83-90 | each language's button selects that language |
| Conversation.KeyForLabel | handlers/user_handlers.py:195-199 | the key of a category whose label in the language is the text; None iff no label matches |
| Conversation.FindCategory | handlers/user_handlers.py:195-199 | the loop with `break` finds KeyForLabel |
| Conversation.ResolveCategory | handlers/user_handlers.py:194-214 | the current language's label is looked up first, then the other language's; when found in the other language, that language is taken |
| Conversation.LabelsDistinct | config.py:28-36 | the category labels are pairwise distinct across both languages |
| Conversation.ResolveLabel | handlers/user_handlers.py:194-214 | the button of a category in either language resolves to that category, in the language of the button |
| Config.CategoryKeysAreTheKeys | config.py:28-36 | the list of valid keys is the keys of the issue categories, in order |
| UserHandlers.EnsureHandle | utils/anonymous.py:28-37 | the stored handle, or for a new user the first free draw's handle in a new row; None only when every draw is held; no other change |
| UserHandlers.CmdStart | handlers/user_handlers.py:55-73 | a blocked user only gets the blocked notice; a registered user, or a new one with a free draw, gets that handle stored and is asked for a language |
| UserHandlers.HandleLanguageSelection | handlers/user_handlers.py:77-99 | the handle is ensured first; a language button then moves to choosing an issue in that language with a welcome showing the handle; any other text gets the choose-from-menu answer and keeps the state |
| UserHandlers.CmdEnd | handlers/user_handlers.py:103-157 | without an active session: notice only; otherwise the session is finished, the counselor notified and the state cleared with the language kept; on a failed write the error text is sent and the state is cleared; the whole new state is given (`Ended`); at most one active session per user is kept, and none remains for this user |
| UserHandlers.BlockedUserCanRequest | handlers/user_handlers.py:161-261 | the request never consults the block flag: a blocked user with no active session, a counselor and a successful write gets a new active session and stays blocked |
| UserHandlers.HandleIssueSelection | handlers/user_handlers.py:161-261 | commands are ignored; language buttons switch language; unknown labels are refused; a label that names a category gives exactly the outcome of the request in the label's language: refused with an active session or no counselor, otherwise a session opened with the least-loaded counselor and both sides told; at most one active session per user is kept |
| UserHandlers.RequestSession | handlers/user_handlers.py:216-261 | an existing active session, no counselor, or a failed write each leave the store unchanged with their own answer; otherwise the session is opened with the least-loaded eligible counselor, the user is told and the counselor notified |
| UserHandlers.HandleChatButtons | handlers/user_handlers.py:265-281 | the end button gives exactly the outcome of `/end`, the back button that of returning back, and any other message that of the chat path (stored, then relayed to the counselor); every table is stated, and no message is stored by a button |
| UserHandlers.HandleReturnBack | handlers/user_handlers.py:284-319 | the active session, if any, is finished and its counselor notified, whatever the write outcome; the user is back at the issue menu; the whole new state is given (`ReturnedBack`) |
| UserHandlers.HandleUserMessage | handlers/user_handlers.py:322-410 | commands are ignored; blocked users and users without an active session store nothing; otherwise the message is stored, then relayed to the session's counselor under the handle; no session changes; the whole new state is given (`Chatted`) |
| CounselorHandlers.CmdCounselor | handlers/counselor_handlers.py:29-62 | a non-counselor is refused; a counselor gets the panel listing exactly their active sessions, newest first |
| CounselorHandlers.ShowSessions | handlers/counselor_handlers.py:66-90 | refused for a non-counselor; "no active sessions" iff there are none; otherwise a non-empty list of exactly the active sessions, newest first |
| CounselorHandlers.StartReply | handlers/counselor_handlers.py:94-118 | the selection state is entered iff the counselor has an active session (or is already selecting); the prompt lists the active sessions |
| CounselorHandlers.HandleSessionSelection | handlers/counselor_handlers.py:122-151 | a non-number is refused and the state kept; an id outside SQLite's 64-bit range aborts the handler with no reply and the state kept; a missing or foreign session, or one that is not active, clears the state; otherwise the counselor waits to reply to that session's user |
| CounselorHandlers.HandleCounselorReply | handlers/counselor_handlers.py:155-242 | lost data (absent or 0) and foreign sessions store nothing; otherwise the reply is stored then relayed to the user as "your counselor", whether or not the session is still active; the state is always cleared |
| CounselorHandlers.CmdCancel | handlers/counselor_handlers.py:246-249 | the state and data are cleared |
| CounselorHandlers.FinishSessionPrompt | handlers/counselor_handlers.py:253-276 | the same cases as ShowSessions, with the finish prompt |
| CounselorHandlers.HandleFinishSessionId | handlers/counselor_handlers.py:279-314 | only a digit text from a counselor is handled; missing or foreign sessions, and ids outside SQLite's 64-bit range, are ignored; an inactive one is refused; an active one is finished and the user notified, and success is reported even if the write failed; at most one active session per user is kept |
| AdminHandlers.CmdAdmin | handlers/admin_handlers.py:33-58 | only the admin id gets the panel, with the number of active sessions and of counselors |
| AdminHandlers.CommandArgs | handlers/admin_handlers.py:104 | the whitespace-separated words after the command, all non-empty and without whitespace |
| AdminHandlers.ParseCategories | handlers/admin_handlers.py:113 | the comma-split pieces of the joined arguments, each stripped; never empty |
| Text.WordsJoin | handlers/admin_handlers.py:104 | `" ".join(ws).split()` gives back any list of non-empty words without whitespace |
| AdminHandlers.CommandArgsJoin | handlers/admin_handlers.py:104 | a command written as words joined by spaces has exactly those words as its arguments |
| AdminHandlers.ParseCategoriesJoin | handlers/admin_handlers.py:113 | categories without commas or whitespace read back as given, whether passed one per argument or comma-joined in one |
| AdminHandlers.AddCounselorUsageParses | handlers/admin_handlers.py:104-113 | `/add_counselor <id> k1,...,kn` as the usage line shows it yields that id and exactly those keys, all valid |
| AdminHandlers.NotKeys | handlers/admin_handlers.py:116-117 | exactly the pieces that are not valid keys; empty iff all pieces are valid |
| AdminHandlers.CmdAddCounselor | handlers/admin_handlers.py:98-135 | usage, a bad id, invalid categories and a failed write (an id outside the 64-bit range included) each leave the table unchanged with their own answer; otherwise the counselor row holds the categories, which read back as given, and no other table or counter changes |
| AdminHandlers.AddedCounselorLookup | handlers/admin_handlers.py:113-127 | an added counselor is found by category lookup for exactly the categories it was added with |
| AdminHandlers.CommaThenSpaceIsRefused | handlers/admin_handlers.py:104-119 | "k1, k2" (a comma then a space) leaves an empty piece, which is refused as an invalid category |
| AdminHandlers.EmptyPieceBetween | handlers/admin_handlers.py:104-113 | an argument ending in a comma, followed by another argument, parses with an empty piece between them |
| AdminHandlers.CmdRemoveCounselor | handlers/admin_handlers.py:139-157 | usage, a bad id and a failed write (an id outside the 64-bit range included) each leave the table unchanged; otherwise the row is gone and nothing else changes |
| AdminHandlers.StartBlockUser | handlers/admin_handlers.py:188-198 | only the admin enters the blocking state and is asked for an id |
| AdminHandlers.HandleBlockUser | handlers/admin_handlers.py:202-218 | a bad id or a failed write (an id outside the 64-bit range included) report their errors; otherwise the id is blocked iff it had a row, its handle is kept, and nothing else changes; success is reported even for an unknown id; the state is cleared |
| AdminHandlers.CmdUnblockUser | handlers/admin_handlers.py:222-240 | usage, a bad id and a failed write (an id outside the 64-bit range included) report their errors; otherwise the id is no longer blocked, its handle is kept, and nothing else changes |
| AdminHandlers.CmdForceEnd | handlers/admin_handlers.py:244-272 | an id outside SQLite's 64-bit range gets the catch-all error answer; without an active session for the user: notice only; otherwise that session is finished unless the write fails, and the answer says which; at most one active session per user is kept, and after a successful write the user has none |
| AdminHandlers.FinishedAt | handlers/admin_handlers.py:285-291 | the finish time of every session that has one |
| AdminHandlers.ExportSelection | handlers/admin_handlers.py:285-293 | at most 100 finished sessions, none twice, latest finish first; any finished session left out finished no later than the last one taken, and the limit was reached |
| AdminHandlers.SelectionKeepsLatest | handlers/admin_handlers.py:285-293 | taking the first 100 of the sorted finished sessions keeps the latest finishes, and a selection without repeats stays without repeats |
| AdminHandlers.LogOf | handlers/admin_handlers.py:296-322 | the log of one session: its ids, handle, category, finish time, and exactly its messages |
| AdminHandlers.LogInOrder | handlers/admin_handlers.py:296-322 | a log holds its session's messages in table order, none dropped or added |
| AdminHandlers.CollectLogs | handlers/admin_handlers.py:295-323 | one log per selected session, in the selection's order |
| AdminHandlers.ExportLogs | handlers/admin_handlers.py:276-331 | nothing for a non-admin; otherwise one log per selected session, in the selection's order, with total_sessions equal to the number of logs |

## Left out

- Routing is not modelled: the dispatch order of the three routers, the
  `StateFilter`s and the button-text filters. Each handler is modelled as
  the body it runs once dispatched. The one exception is the lambda filter
  of `handle_finish_session_id`, which is part of its contract.
- Telegram I/O is not performed. Every send is a step in the returned log.
  A `bot.send_message` to the other party (a `Notify` or `Relay` step)
  carries a `delivered` flag for the API call's outcome. The exception text
  of a failed send is not kept.
- Conversation handlers: every `message.answer` (an `Answer` step) is
  assumed delivered. In the source a failed answer raises, and most
  handlers do not catch it, so the rest of the handler is skipped. For
  example, `request_session` has already created the session
  (user_handlers.py:230) when a failed answer at 240-244 skips the
  counselor's notice and the `in_chat` state at 261. `cmd_force_end` and
  `export_logs` would instead send their catch-all error reply. The model
  does not capture this abort.
- The localized texts of `STRINGS` and the fixed replies are opaque tags.
  Only the values they are formatted with are kept.
- Timestamps are not real times. `created_at` and `sent_at` order is
  insertion order, and `finished_at` is a counter advanced by each finish.
- Store read failures (an exception inside a query) are not modelled, with
  one exception. Write failures are modelled (`fault`). The exception is an
  id outside SQLite's signed 64-bit INTEGER range, which `int()` can produce
  from a message (`Store.SqlInteger`). Such an id makes `sqlite3` raise
  `OverflowError` when binding it. The lookups of `handle_session_selection`
  and `handle_finish_session_id` do not catch it, so those handlers send
  nothing. `/force_end` answers with its catch-all error reply. The four
  registry writes catch it and report failure.
- `str.isdigit()` is modelled for ASCII digits only.
- `int()` accepts only ASCII digits (with `_` separators), not other
  Unicode decimal digits.
- Anonymous.GenerateAnonymousId: the source draws for ever when every handle
  is taken. The model takes a finite list of draws and returns None when it
  runs out, and the handler then stops without sending anything more.
- `manage_counselors` and `show_active_sessions` are not modelled separately.
  They only format `get_all_counselors` and `get_all_active_sessions`, which
  are modelled.
- `handle_other_messages` is not modelled. It only sends a fixed hint.
- JSON encoding, writing the export to a file and the 4000-character
  switch between a text and a document are not modelled. `ExportLogs` stops
  at the export structure, and `created_at`/`sent_at` are not in it.
- Concurrency between handlers is not modelled. Each handler runs alone
  against the store.
- A non-text message where a handler calls `int(message.text)` raises
  `TypeError`, which no handler catches. The model treats this as the
  handler aborting with nothing changed.
- `cmd_add_counselor` and the other commands take the message text as a
  string. The `Command` filter also matches a command in a media caption,
  where the text is absent and `message.text.split()` raises
  `AttributeError`. That case is not modelled.
- For a relayed text message without text, the source sends the literal
  "None". The model relays the absent text as it is.
- `Assignment.AssignCounselor`: the random strategy takes the index as an
  input (`pick`). No handler uses that strategy.
- The bot token, the database path and the environment overrides of
  `config.py` are not modelled.

Behaviour of the code that the model keeps as written:

- A counselor's reply is stored and relayed even when its session has been
  finished since it was selected (counselor_handlers.py:167-197).
- `handle_finish_session_id` reports success even when the finishing write
  fails (counselor_handlers.py:299-314).
- `/force_end` notifies neither party (admin_handlers.py:256-267).
- Blocking an unknown user id is reported as a success
  (admin_handlers.py:209-212, database.py:122-133).
- `/add_counselor 1 stress, family` is refused. The space splits the
  arguments, and joining them back with a comma leaves an empty category
  (`AdminHandlers.CommaThenSpaceIsRefused`).
- A blocked user is refused only by `/start` and by the chat path
  (user_handlers.py:60, 333). Choosing a language, choosing an issue,
  `/end` and returning back never consult the block flag
  (user_handlers.py:77-319). So a user blocked after `/start` can still
  open a session (`UserHandlers.BlockedUserCanRequest`), and can end it.
  Only the messages they send in it are refused.
- `state.clear()` in a counselor or admin handler also drops the user-side
  language, because aiogram keeps one FSM context per chat.
