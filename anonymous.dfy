/**
 * Anonymous handles (utils/anonymous.py). A handle is "User-" followed by a
 * number drawn from 1000..9999; draws are repeated until the handle is not
 * yet mapped to a telegram id, then the pair is stored.
 *
 * The random draws are an input sequence. The source loops for ever once
 * every handle is taken; here the loop ends when the draws run out, and the
 * result is then `None`.
 */
module Anonymous {
  import opened Wrappers
  import opened Text
  import Config
  import opened Store

  /** The handle for number `n`: the configured prefix and `str(n)`. */
  function Handle(n: nat): (h: string)
    ensures StartsWith(h, Config.AnonymousIdPrefix)
  {
    Config.AnonymousIdPrefix + NatToString(n)
  }

  /** `random.randint(1000, 9999)`. */
  predicate IsDraw(n: nat) {
    1000 <= n <= 9999
  }

  /** A drawn handle is nine characters long, and its number can be read back
      from the part after the prefix. */
  lemma HandleFormat(n: nat)
    requires IsDraw(n)
    ensures |Handle(n)| == 9
    ensures ParseInt(Handle(n)[|Config.AnonymousIdPrefix|..]) == Some(n)
  {
    NatToStringFourDigits(n);
    assert Handle(n)[|Config.AnonymousIdPrefix|..] == NatToString(n);
    ParseIntOfNatToString(n);
  }

  /** Different numbers give different handles. */
  lemma HandleInjective(a: nat, b: nat)
    requires Handle(a) == Handle(b)
    ensures a == b
  {
    assert NatToString(a) == Handle(a)[|Config.AnonymousIdPrefix|..];
    assert NatToString(b) == Handle(b)[|Config.AnonymousIdPrefix|..];
    NatToStringInjective(a, b);
  }

  /** The handles of the draws, in order. */
  function Handles(draws: seq<nat>): (hs: seq<string>)
    ensures |hs| == |draws|
    ensures forall i :: 0 <= i < |draws| ==> hs[i] == Handle(draws[i])
  {
    if draws == [] then [] else [Handle(draws[0])] + Handles(draws[1..])
  }

  /** Some user row holds handle `a`. */
  predicate Held(users: map<int, UserRow>, a: string) {
    exists t :: t in users && users[t].anonymousId == a
  }

  /** The index of the first of `hs`, from `i` on, that nobody holds;
      `|hs|` when every one is held. */
  function FirstFree(users: map<int, UserRow>, hs: seq<string>, i: nat): (k: nat)
    requires i <= |hs|
    ensures i <= k <= |hs|
    ensures forall j :: i <= j < k ==> Held(users, hs[j])
    ensures k < |hs| ==> !Held(users, hs[k])
    decreases |hs| - i
  {
    if i == |hs| then i
    else if !Held(users, hs[i]) then i
    else FirstFree(users, hs, i + 1)
  }

  /** The handle `generate_anonymous_id` settles on: that of the first draw
      nobody holds, `None` when every draw is held. */
  function FreshHandle(users: map<int, UserRow>, draws: seq<nat>): (r: Option<string>)
    ensures r.None? <==> forall i :: 0 <= i < |draws| ==> Held(users, Handle(draws[i]))
    ensures r.Some? ==> !Held(users, r.value)
    ensures r.Some? ==>
      exists k :: 0 <= k < |draws| && r.value == Handle(draws[k]) &&
                  forall j :: 0 <= j < k ==> Held(users, Handle(draws[j]))
  {
    var hs := Handles(draws);
    var k := FirstFree(users, hs, 0);
    if k < |draws| then Some(hs[k]) else None
  }

  /** The handle `get_or_create_anonymous_id` returns: the stored one, or a
      fresh one. */
  function HandleOf(users: map<int, UserRow>, telegramId: int, draws: seq<nat>): Option<string> {
    if telegramId in users then Some(users[telegramId].anonymousId) else FreshHandle(users, draws)
  }

  /** `generate_anonymous_id`: the handle of the first draw that nobody
      holds, or `None` once the draws run out. */
  method GenerateAnonymousId(db: Database, draws: seq<nat>) returns (r: Option<string>)
    requires forall i :: 0 <= i < |draws| ==> IsDraw(draws[i])
    ensures r == FreshHandle(db.users, draws)
  {
    ghost var hs := Handles(draws);
    var i := 0;
    while i < |draws|
      invariant 0 <= i <= |draws|
      invariant FirstFree(db.users, hs, i) == FirstFree(db.users, hs, 0)
    {
      var candidate := Handle(draws[i]);
      assert candidate == hs[i];
      if db.GetUserTelegramId(candidate).None? {
        return Some(candidate);
      }
      i := i + 1;
    }
    return None;
  }

  /** `get_or_create_anonymous_id`: the stored handle when there is one (the
      store is not touched); otherwise a freshly generated handle, which is
      stored and returned. The handle is returned even when storing it fails
      (`fault`). */
  method GetOrCreateAnonymousId(db: Database, telegramId: int, draws: seq<nat>, fault: bool) returns (r: Option<string>)
    requires db.Valid()
    requires forall i :: 0 <= i < |draws| ==> IsDraw(draws[i])
    modifies db
    ensures db.Valid()
    ensures telegramId in old(db.users) ==>
      r == Some(old(db.users[telegramId].anonymousId)) && db.Snapshot() == old(db.Snapshot())
    ensures telegramId !in old(db.users) && r.Some? ==> old(db.GetUserTelegramId(r.value)).None?
    ensures telegramId !in old(db.users) && r.Some? && !fault ==>
      db.Snapshot() == old(db.Snapshot()).(users := old(db.users)[telegramId := UserRow(r.value, false)])
    ensures telegramId !in old(db.users) && (r.None? || fault) ==> db.Snapshot() == old(db.Snapshot())
    ensures !fault && r.Some? ==> db.GetUserAnonymousId(telegramId) == r
    ensures r == old(HandleOf(db.users, telegramId, draws))
  {
    r := db.GetUserAnonymousId(telegramId);
    if r.None? {
      r := GenerateAnonymousId(db, draws);
      if r.Some? {
        var _ := db.CreateUser(telegramId, r.value, fault);
      }
    }
  }
}
