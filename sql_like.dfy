/**
 * SQLite's `LIKE` operator, which `get_counselors_by_category` uses as
 * `categories LIKE '%<category>%'` over the comma-joined category string of a
 * counselor (database.py:193-194). Without an ESCAPE clause, `_` in the
 * pattern matches any one character, `%` any run of characters, and letters
 * compare case-insensitively for ASCII only.
 *
 * The main result, `MatchesKeyList`, says that for the category strings the
 * administrator's validation lets into the table (joins of configured keys),
 * this substring test is exactly list membership.
 */
module SqlLike {
  import opened Text
  import Config

  /** ASCII lower-casing, the only case folding SQLite's built-in LIKE does. */
  function Fold(c: char): char {
    if 'A' <= c <= 'Z' then (c as int + 32) as char else c
  }

  /** One text character against one (non-`%`) pattern character. */
  predicate CharLike(t: char, p: char) {
    p == '_' || Fold(t) == Fold(p)
  }

  /** `t LIKE p`. */
  predicate Like(t: string, p: string)
    decreases |t| + |p|
  {
    if |p| == 0 then |t| == 0
    else if p[0] == '%' then Like(t, p[1..]) || (|t| > 0 && Like(t[1..], p))
    else |t| > 0 && CharLike(t[0], p[0]) && Like(t[1..], p[1..])
  }

  /** The pattern `f"%{c}%"` of database.py:194. */
  function ContainsPattern(c: string): string {
    "%" + c + "%"
  }

  /** `t` starts with a piece that matches `p` character by character. */
  predicate PrefixLike(t: string, p: string)
    decreases |p|
  {
    |p| == 0 || (|t| > 0 && CharLike(t[0], p[0]) && PrefixLike(t[1..], p[1..]))
  }

  /** Some piece of `t` matches `p` character by character. */
  predicate PrefixOccurs(t: string, p: string)
    decreases |t|
  {
    PrefixLike(t, p) || (|t| > 0 && PrefixOccurs(t[1..], p))
  }

  /** The same two predicates by position, which Dafny evaluates on literals. */
  predicate WindowAt(t: string, p: string, i: nat, j: nat)
    requires i + |p| <= |t|
    decreases |p| - j
  {
    j >= |p| || (CharLike(t[i + j], p[j]) && WindowAt(t, p, i, j + 1))
  }

  predicate OccursFrom(t: string, p: string, i: nat)
    decreases |t| - i
  {
    i + |p| <= |t| && (WindowAt(t, p, i, 0) || OccursFrom(t, p, i + 1))
  }

  // ------------------------------------------------ LIKE '%c%' is an occurrence

  lemma {:induction false} LikeAnything(t: string)
    ensures Like(t, "%")
    decreases |t|
  {
    if |t| > 0 {
      LikeAnything(t[1..]);
    }
  }

  lemma {:induction false} LikeTrailingPercent(t: string, p: string)
    requires '%' !in p
    ensures Like(t, p + "%") <==> PrefixLike(t, p)
    decreases |p|
  {
    if |p| == 0 {
      assert p + "%" == "%";
      LikeAnything(t);
    } else {
      assert (p + "%")[1..] == p[1..] + "%";
      if |t| > 0 {
        LikeTrailingPercent(t[1..], p[1..]);
      }
    }
  }

  /** `t LIKE '%c%'` holds exactly when some piece of `t` matches `c`. */
  lemma {:induction false} LikeContainsIsOccurrence(t: string, c: string)
    requires '%' !in c
    ensures Like(t, ContainsPattern(c)) <==> PrefixOccurs(t, c)
    decreases |t|
  {
    var q := c + "%";
    assert ContainsPattern(c) == "%" + q;
    assert ("%" + q)[1..] == q;
    LikeTrailingPercent(t, c);
    if |t| > 0 {
      LikeContainsIsOccurrence(t[1..], c);
    }
  }

  // ------------------------------------------------ positions and pieces

  lemma {:induction false} PrefixLikeIsWindow(t: string, p: string, i: nat, j: nat)
    requires i + |p| <= |t| && j <= |p|
    ensures WindowAt(t, p, i, j) <==> PrefixLike(t[i + j..], p[j..])
    decreases |p| - j
  {
    if j < |p| {
      PrefixLikeIsWindow(t, p, i, j + 1);
      assert t[i + j..][1..] == t[i + j + 1..];
      assert p[j..][1..] == p[j + 1..];
    }
  }

  lemma {:induction false} PrefixLikeFits(t: string, p: string)
    requires PrefixLike(t, p)
    ensures |p| <= |t|
    decreases |p|
  {
    if |p| > 0 {
      PrefixLikeFits(t[1..], p[1..]);
    }
  }

  lemma {:induction false} PrefixOccursIsOccursFrom(t: string, p: string, i: nat)
    requires i <= |t|
    ensures OccursFrom(t, p, i) <==> PrefixOccurs(t[i..], p)
    decreases |t| - i
  {
    if i + |p| <= |t| {
      PrefixLikeIsWindow(t, p, i, 0);
      if i < |t| {
        PrefixOccursIsOccursFrom(t, p, i + 1);
        assert t[i..][1..] == t[i + 1..];
      }
    } else {
      NoRoomNoOccurrence(t[i..], p);
    }
  }

  lemma {:induction false} NoRoomNoOccurrence(t: string, p: string)
    requires |p| > |t|
    ensures !PrefixOccurs(t, p)
    decreases |t|
  {
    if PrefixLike(t, p) {
      PrefixLikeFits(t, p);
    }
    if |t| > 0 {
      NoRoomNoOccurrence(t[1..], p);
    }
  }

  lemma {:induction false} PrefixLikeSelf(t: string, p: string)
    requires |p| <= |t| && t[..|p|] == p
    ensures PrefixLike(t, p)
    decreases |p|
  {
    if |p| > 0 {
      assert t[1..][..|p| - 1] == p[1..];
      PrefixLikeSelf(t[1..], p[1..]);
    }
  }

  lemma {:induction false} OccursAfter(a: string, b: string, p: string)
    requires PrefixOccurs(b, p)
    ensures PrefixOccurs(a + b, p)
    decreases |a|
  {
    if |a| > 0 {
      assert (a + b)[1..] == a[1..] + b;
      OccursAfter(a[1..], b, p);
    } else {
      assert a + b == b;
    }
  }

  lemma {:induction false} PrefixLikeShort(x: string, y: string, p: string)
    requires PrefixLike(x + y, p) && |p| <= |x|
    ensures PrefixLike(x, p)
    decreases |p|
  {
    if |p| > 0 {
      assert (x + y)[1..] == x[1..] + y;
      PrefixLikeShort(x[1..], y, p[1..]);
    }
  }

  lemma {:induction false} PrefixLikeLong(x: string, y: string, p: string)
    requires PrefixLike(x + y, p) && |p| > |x|
    ensures PrefixLike(x, p[..|x|]) && PrefixLike(y, p[|x|..])
    decreases |x|
  {
    if |x| > 0 {
      assert (x + y)[1..] == x[1..] + y;
      assert p[..|x|][1..] == p[1..][..|x| - 1];
      assert p[|x|..] == p[1..][|x| - 1..];
      PrefixLikeLong(x[1..], y, p[1..]);
    } else {
      assert x + y == y;
    }
  }

  lemma {:induction false} OccursInSuffix(a: string, i: nat, p: string)
    requires i <= |a| && PrefixLike(a[i..], p)
    ensures PrefixOccurs(a, p)
    decreases i
  {
    if i > 0 {
      assert a[1..][i - 1..] == a[i..];
      OccursInSuffix(a[1..], i - 1, p);
    }
  }

  // ------------------------------------------------ the configured keys

  predicate IsKey(k: string) {
    k in Config.CategoryKeys
  }

  /** No key is matched inside another key. */
  lemma KeysApart(a: string, k: string)
    requires IsKey(a) && IsKey(k) && a != k
    ensures !OccursFrom(a, k, 0)
  {
    if a == "mental_health" {
      NothingInMentalHealth(k);
    } else if a == "relationship" {
      NothingInRelationship(k);
    } else if a == "stress" {
      NothingInStress(k);
    } else if a == "academic" {
      NothingInAcademic(k);
    } else if a == "addiction" {
      NothingInAddiction(k);
    } else if a == "family" {
      NothingInFamily(k);
    } else {
      NothingInOther(k);
    }
  }

  lemma NothingInMentalHealth(k: string)
    requires IsKey(k) && k != "mental_health"
    ensures !OccursFrom("mental_health", k, 0)
  {
  }

  lemma NothingInRelationship(k: string)
    requires IsKey(k) && k != "relationship"
    ensures !OccursFrom("relationship", k, 0)
  {
  }

  lemma NothingInStress(k: string)
    requires IsKey(k) && k != "stress"
    ensures !OccursFrom("stress", k, 0)
  {
  }

  lemma NothingInAcademic(k: string)
    requires IsKey(k) && k != "academic"
    ensures !OccursFrom("academic", k, 0)
  {
  }

  lemma NothingInAddiction(k: string)
    requires IsKey(k) && k != "addiction"
    ensures !OccursFrom("addiction", k, 0)
  {
  }

  lemma NothingInFamily(k: string)
    requires IsKey(k) && k != "family"
    ensures !OccursFrom("family", k, 0)
  {
  }

  lemma NothingInOther(k: string)
    requires IsKey(k) && k != "other"
    ensures !OccursFrom("other", k, 0)
  {
  }

  /** Only `mental_health` holds a `_`, at position 6; no key holds `%` or `,`. */
  lemma KeyCharacters(k: string)
    requires IsKey(k)
    ensures '%' !in k && ',' !in k
    ensures forall j :: 0 <= j < |k| && k[j] == '_' ==> k == "mental_health" && j == 6
  {
  }

  /** No key ends with the six characters "mental". */
  lemma NoKeyEndsWithMental(a: string)
    requires IsKey(a) && |a| >= 6
    ensures !WindowAt(a, "mental", |a| - 6, 0)
  {
  }

  lemma KeyOccurrence(a: string, k: string)
    requires IsKey(a) && IsKey(k) && PrefixOccurs(a, k)
    ensures a == k
  {
    PrefixOccursIsOccursFrom(a, k, 0);
    assert a[0..] == a;
    if a != k {
      KeysApart(a, k);
    }
  }

  /** A comma in the text can only be matched by the `_` of `mental_health`. */
  lemma CommaMatch(k: string, j: nat)
    requires IsKey(k) && j < |k| && CharLike(',', k[j])
    ensures k == "mental_health" && j == 6
  {
    KeyCharacters(k);
  }

  /** An occurrence in `a[i..] + "," + b` starts at some position of
      `a[i..]` or lies in `b`. */
  lemma {:induction false} OccurrenceStart(a: string, i: nat, b: string, k: string)
    requires i <= |a|
    requires PrefixOccurs(a[i..] + [','] + b, k)
    ensures PrefixOccurs(b, k) || exists j :: i <= j <= |a| && PrefixLike(a[j..] + [','] + b, k)
    decreases |a| - i
  {
    var t := a[i..] + [','] + b;
    assert PrefixLike(t, k) || PrefixOccurs(t[1..], k);
    if !PrefixLike(t, k) {
      if i < |a| {
        assert t[1..] == a[i + 1..] + [','] + b;
        OccurrenceStart(a, i + 1, b, k);
      } else {
        assert t[1..] == b;
      }
    }
  }

  /** An occurrence of key `k` in `s + "," + b`, where `s` is a suffix of key
      `a`, either is `a` itself or lies in `b`. */
  lemma OccursAcrossComma(a: string, i: nat, b: string, k: string)
    requires IsKey(a) && IsKey(k) && i <= |a|
    requires PrefixOccurs(a[i..] + [','] + b, k)
    ensures k == a || PrefixOccurs(b, k)
  {
    OccurrenceStart(a, i, b, k);
    if !PrefixOccurs(b, k) {
      var j :| i <= j <= |a| && PrefixLike(a[j..] + [','] + b, k);
      StartingInKey(a, j, b, k);
    }
  }

  /** A match of key `k` that starts inside key `a` is `a` itself. */
  lemma StartingInKey(a: string, i: nat, b: string, k: string)
    requires IsKey(a) && IsKey(k) && i <= |a|
    requires PrefixLike(a[i..] + [','] + b, k)
    ensures k == a
  {
    var s := a[i..];
    assert s + [','] + b == s + ([','] + b);
    if |k| <= |s| {
      PrefixLikeShort(s, [','] + b, k);
      OccursInSuffix(a, i, k);
      KeyOccurrence(a, k);
    } else {
      PrefixLikeLong(s, [','] + b, k);
      assert CharLike(',', k[|s|]);
      NoMatchOverComma(a, i, k);
    }
  }

  /** A key cannot match across the end of key `a` and a following comma:
      that needs `mental_health`, whose `_` would have to meet the comma right
      after an `a` ending in "mental". */
  lemma NoMatchOverComma(a: string, i: nat, k: string)
    requires IsKey(a) && IsKey(k) && i <= |a| && |a| - i < |k|
    ensures !(PrefixLike(a[i..], k[..|a| - i]) && CharLike(',', k[|a| - i]))
  {
    if PrefixLike(a[i..], k[..|a| - i]) && CharLike(',', k[|a| - i]) {
      CommaMatch(k, |a| - i);
      assert k[..|a| - i] == "mental";
      PrefixLikeIsWindow(a, "mental", i, 0);
      assert a[i + 0..] == a[i..];
      NoKeyEndsWithMental(a);
    }
  }

  predicate AllKeys(xs: seq<string>) {
    forall i :: 0 <= i < |xs| ==> IsKey(xs[i])
  }

  /** For a non-empty list of configured keys stored joined with ",", the
      `LIKE '%k%'` test of a configured key `k` holds exactly when `k` is in
      the list. */
  lemma {:induction false} MatchesKeyList(xs: seq<string>, k: string)
    requires |xs| >= 1 && AllKeys(xs) && IsKey(k)
    ensures Like(Join(xs, ','), ContainsPattern(k)) <==> k in xs
    decreases |xs|
  {
    KeyCharacters(k);
    LikeContainsIsOccurrence(Join(xs, ','), k);
    OccursInJoinIffMember(xs, k);
  }

  lemma {:induction false} OccursInJoinIffMember(xs: seq<string>, k: string)
    requires |xs| >= 1 && AllKeys(xs) && IsKey(k)
    ensures PrefixOccurs(Join(xs, ','), k) <==> k in xs
    decreases |xs|
  {
    var t := Join(xs, ',');
    if |xs| == 1 {
      assert t == xs[0];
      if PrefixOccurs(t, k) {
        KeyOccurrence(xs[0], k);
      }
      if k == xs[0] {
        PrefixLikeSelf(t, k);
      }
    } else {
      var rest := Join(xs[1..], ',');
      assert t == xs[0] + [','] + rest;
      OccursInJoinIffMember(xs[1..], k);
      if PrefixOccurs(t, k) {
        assert xs[0][0..] == xs[0];
        OccursAcrossComma(xs[0], 0, rest, k);
        assert k == xs[0] || k in xs[1..];
      }
      if k == xs[0] {
        assert t[..|k|] == k;
        PrefixLikeSelf(t, k);
      } else if k in xs[1..] {
        assert t == (xs[0] + [',']) + rest;
        OccursAfter(xs[0] + [','], rest, k);
      }
    }
  }

  /** Whatever the text, a counselor whose category string literally contains
      the category is matched. */
  lemma SubstringMatches(a: string, c: string, b: string)
    requires '%' !in c
    ensures Like(a + c + b, ContainsPattern(c))
  {
    PrefixLikeSelf(c + b, c);
    assert a + c + b == a + (c + b);
    OccursAfter(a, c + b, c);
    LikeContainsIsOccurrence(a + c + b, c);
  }

  lemma {:induction false} PointwiseLike(t: string, p: string)
    requires |p| <= |t| && forall j :: 0 <= j < |p| ==> CharLike(t[j], p[j])
    ensures PrefixLike(t, p)
    decreases |p|
  {
    if |p| > 0 {
      assert forall j :: 0 <= j < |p| - 1 ==> t[1..][j] == t[j + 1] && p[1..][j] == p[j + 1];
      PointwiseLike(t[1..], p[1..]);
    }
  }

  /** A matched text need not contain the category literally: `_` is a
      wildcard and case is ignored. */
  lemma WildcardMatch(t: string, p: string)
    requires t == "Mental-Health" && p == "mental_health"
    ensures Like(t, ContainsPattern(p))
  {
    forall j | 0 <= j < |p| ensures CharLike(t[j], p[j]) {
    }
    PointwiseLike(t, p);
    assert t[0..] == t;
    OccursInSuffix(t, 0, p);
    LikeContainsIsOccurrence(t, p);
  }
}
