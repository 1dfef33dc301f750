/** The browser client's cookie handling (web_client/client/utilities/cookies.js):
    `CookieString`, a parser of the `document.cookie` text into a key/value table, and
    `AppCookies`, which keeps the authentication token and the list of recently opened
    repositories. Writing `document.cookie` and the wall clock are not part of this model. */
module Cookies {
  import opened Strings
  import opened JsValues

  /** An entry of the cookie table; `exp` is the optional expiry given to `set`. */
  datatype Cookie = Cookie(value: string, exp: Option<int>)

  /** How the constructor reads one `;`-separated segment: split it on `=`, skip it when
      there is no `=` or the text after the first `=` is empty, take the text before the
      first `=` as the key (minus one leading space) and the text up to the second `=` as
      the value. */
  function ParseSegment(c: string): (r: Option<(string, string)>)
    ensures r.Some? ==> '=' !in r.value.0 && '=' !in r.value.1 && r.value.1 != ""
  {
    var s := Split(c, '=');
    if |s| == 1 then None
    else if |s[1]| == 0 then None
    else
      var key := if |s[0]| > 0 && s[0][0] == ' ' then s[0][1..] else s[0];
      Some((key, s[1]))
  }

  /** The table the constructor builds from its segments: later segments overwrite earlier ones. */
  function Parsed(segments: seq<string>): map<string, Cookie> {
    if segments == [] then map[]
    else
      var m := Parsed(segments[..|segments| - 1]);
      match ParseSegment(segments[|segments| - 1])
      case None => m
      case Some(kv) => m[kv.0 := Cookie(kv.1, None)]
  }

  /** A key with no `=`, then `=`, then a non-empty value with no `=`, parses to that pair;
      so does the same text with one space in front, and with a further `=` and any text
      behind (which is dropped). */
  lemma ParseKeyValue(k: string, v: string, tail: string)
    requires '=' !in k && '=' !in v && v != ""
    requires k == "" || k[0] != ' '
    ensures ParseSegment(k + "=" + v) == Some((k, v))
    ensures ParseSegment(" " + k + "=" + v) == Some((k, v))
    ensures ParseSegment(k + "=" + v + "=" + tail) == Some((k, v))
  {
    SplitCons(k, '=', v);
    SplitNone(v, '=');
    assert k + "=" + v == k + ['='] + v;
    SplitCons(" " + k, '=', v);
    assert " " + k + "=" + v == (" " + k) + ['='] + v;
    assert (" " + k)[1..] == k;
    SplitCons(v, '=', tail);
    SplitCons(k, '=', v + "=" + tail);
    assert k + "=" + v + "=" + tail == k + ['='] + (v + ['='] + tail);
  }

  /** A segment without `=` is skipped. */
  lemma ParseNoEquals(c: string)
    requires '=' !in c
    ensures ParseSegment(c) == None
  {
    SplitNone(c, '=');
  }

  /** A key whose value is empty is skipped. */
  lemma ParseEmptyValue(k: string)
    requires '=' !in k
    ensures ParseSegment(k + "=") == None
  {
    SplitCons(k, '=', "");
    assert k + "=" == k + ['='] + "";
  }

  predicate WellFormedKey(k: string) {
    '=' !in k && ';' !in k && (k == "" || k[0] != ' ')
  }

  predicate WellFormedValue(v: string) {
    '=' !in v && ';' !in v && v != ""
  }

  /** The segments of a cookie text as browsers write it: `k1=v1; k2=v2; …`. */
  function Segments(pairs: seq<(string, string)>): (r: seq<string>)
    ensures |r| == |pairs|
  {
    seq(|pairs|, i requires 0 <= i < |pairs| => (if i == 0 then "" else " ") + pairs[i].0 + "=" + pairs[i].1)
  }

  function CookieText(pairs: seq<(string, string)>): string {
    Join(Segments(pairs), ';')
  }

  /** Parsing the text of well-formed pairs gives each key the value of its last pair, and
      no other key. */
  lemma ParseCookieText(pairs: seq<(string, string)>)
    requires forall i :: 0 <= i < |pairs| ==> WellFormedKey(pairs[i].0) && WellFormedValue(pairs[i].1)
    ensures var m := Parsed(Split(CookieText(pairs), ';'));
            && (forall i :: 0 <= i < |pairs| && (forall j :: i < j < |pairs| ==> pairs[j].0 != pairs[i].0) ==>
                  pairs[i].0 in m && m[pairs[i].0].value == pairs[i].1)
            && (forall k :: k in m ==> exists i :: 0 <= i < |pairs| && pairs[i].0 == k)
  {
    if |pairs| == 0 {
      assert Split(CookieText(pairs), ';') == [""];
      assert ParseSegment("") == None;
      assert Parsed([""]) == Parsed([]);
    } else {
      var segs := Segments(pairs);
      assert NoneContains(segs, ';') by {
        forall i | 0 <= i < |segs| ensures ';' !in segs[i] {
          assert segs[i] == (if i == 0 then "" else " ") + pairs[i].0 + "=" + pairs[i].1;
        }
      }
      SplitJoin(segs, ';');
      ParsedSegments(pairs);
    }
  }

  lemma ParsedSegments(pairs: seq<(string, string)>)
    requires forall i :: 0 <= i < |pairs| ==> WellFormedKey(pairs[i].0) && WellFormedValue(pairs[i].1)
    ensures var m := Parsed(Segments(pairs));
            && (forall i :: 0 <= i < |pairs| && (forall j :: i < j < |pairs| ==> pairs[j].0 != pairs[i].0) ==>
                  pairs[i].0 in m && m[pairs[i].0].value == pairs[i].1)
            && (forall k :: k in m ==> exists i :: 0 <= i < |pairs| && pairs[i].0 == k)
  {
    forall i | 0 <= i < |pairs| && (forall j :: i < j < |pairs| ==> pairs[j].0 != pairs[i].0)
      ensures pairs[i].0 in Parsed(Segments(pairs)) && Parsed(Segments(pairs))[pairs[i].0].value == pairs[i].1
    {
      ParsedLastWins(pairs, i);
    }
    forall k | k in Parsed(Segments(pairs)) ensures exists i :: 0 <= i < |pairs| && pairs[i].0 == k {
      ParsedKeys(pairs, k);
    }
  }

  /** The value of a key is the one of its last pair. */
  lemma {:induction false} ParsedLastWins(pairs: seq<(string, string)>, i: nat)
    requires forall i :: 0 <= i < |pairs| ==> WellFormedKey(pairs[i].0) && WellFormedValue(pairs[i].1)
    requires i < |pairs| && forall j :: i < j < |pairs| ==> pairs[j].0 != pairs[i].0
    ensures pairs[i].0 in Parsed(Segments(pairs)) && Parsed(Segments(pairs))[pairs[i].0].value == pairs[i].1
    decreases |pairs|
  {
    var n := |pairs| - 1;
    ParsedStep(pairs);
    if i < n {
      var init := pairs[..n];
      assert init[i] == pairs[i];
      forall j | i < j < |init| ensures init[j].0 != init[i].0 {
        assert init[j] == pairs[j];
      }
      ParsedLastWins(init, i);
    }
  }

  /** Every key of the table comes from some pair. */
  lemma {:induction false} ParsedKeys(pairs: seq<(string, string)>, k: string)
    requires forall i :: 0 <= i < |pairs| ==> WellFormedKey(pairs[i].0) && WellFormedValue(pairs[i].1)
    requires k in Parsed(Segments(pairs))
    ensures exists i :: 0 <= i < |pairs| && pairs[i].0 == k
    decreases |pairs|
  {
    var n := |pairs| - 1;
    ParsedStep(pairs);
    if pairs[n].0 != k {
      var init := pairs[..n];
      ParsedKeys(init, k);
      var i :| 0 <= i < |init| && init[i].0 == k;
      assert pairs[i] == init[i];
    }
  }

  /** The last pair's segment is applied on top of the table of the others. */
  lemma ParsedStep(pairs: seq<(string, string)>)
    requires |pairs| > 0
    requires forall i :: 0 <= i < |pairs| ==> WellFormedKey(pairs[i].0) && WellFormedValue(pairs[i].1)
    ensures var n := |pairs| - 1;
            Parsed(Segments(pairs)) == Parsed(Segments(pairs[..n]))[pairs[n].0 := Cookie(pairs[n].1, None)]
  {
    var n := |pairs| - 1;
    var segs := Segments(pairs);
    assert segs[..n] == Segments(pairs[..n]);
    var k, v := pairs[n].0, pairs[n].1;
    ParseKeyValue(k, v, "");
    if n == 0 {
      assert segs[n] == k + "=" + v;
    } else {
      assert segs[n] == " " + k + "=" + v;
    }
    assert segs != [] && segs[..|segs| - 1] == Segments(pairs[..n]);
  }

  class CookieString {
    /** `_cookies`. */
    var cookies: map<string, Cookie>

    /** Lines 8-22: an empty text gives an empty table; otherwise every segment that parses is `set`. */
    constructor (data: string)
      ensures cookies == Parsed(Split(data, ';'))
    {
      cookies := map[];
      new;
      if data == "" {
        assert Split(data, ';') == [""];
        assert ParseSegment("") == None;
        assert Parsed([""]) == Parsed([]);
      } else {
        var ca := Split(data, ';');
        for i := 0 to |ca|
          invariant cookies == Parsed(ca[..i])
        {
          assert ca[..i + 1][..i] == ca[..i];
          var kv := ParseSegment(ca[i]);
          if kv.Some? {
            Set(kv.value.0, kv.value.1, None);
          }
        }
        assert ca[..|ca|] == ca;
      }
    }

    /** Lines 24-28. The guard `(!value === null)` compares a boolean with `null` and is never
        true; the entry is always (re)written. */
    method Set(key: string, value: string, exp: Option<int>)
      modifies this
      ensures cookies == old(cookies)[key := Cookie(value, exp)]
    {
      cookies := cookies[key := Cookie(value, exp)];
    }

    /** Lines 30-33: the value last set for `key`, `None` for `null`. */
    function Read(key: string): (r: Option<string>)
      reads this
      ensures r.Some? <==> key in cookies
      ensures r.Some? ==> r.value == cookies[key].value
    {
      if key in cookies then Some(cookies[key].value) else None
    }
  }

  /** A value read back is the one of the last `set`, whatever was set before. */
  lemma ReadAfterSet(m: map<string, Cookie>, key: string, other: string, value: string, exp: Option<int>)
    requires other != key
    ensures var m' := m[key := Cookie(value, exp)];
            m'[key].value == value && (other in m' <==> other in m) && (other in m ==> m'[other] == m[other])
  {
  }

  /** `repos_list` with the oldest entry removed when it holds more than 10
      (`reverse`, `pop`, `reverse`, lines 82-86). */
  function DropOldest(l: seq<string>): (r: seq<string>)
    ensures |l| > 10 ==> |r| == |l| - 1
    ensures |l| <= 10 ==> r == l
  {
    if |l| > 10 then l[1..] else l
  }

  /** The entries of `l` that differ from `x`, in order (lines 87-90). */
  function Without(l: seq<string>, x: string): (r: seq<string>)
    ensures |r| <= |l|
    ensures forall i :: 0 <= i < |r| ==> r[i] != x && r[i] in l
  {
    if l == [] then []
    else
      var init := Without(l[..|l| - 1], x);
      if l[|l| - 1] != x then init + [l[|l| - 1]] else init
  }

  /** The list `push_last_repositories` writes back. */
  function PushedList(l: seq<string>, x: string): seq<string> {
    Without(DropOldest(l), x) + [x]
  }

  /** Each item followed by `.` (lines 93-95). */
  function Serialize(l: seq<string>): string {
    if l == [] then "" else l[0] + "." + Serialize(l[1..])
  }

  function Count(l: seq<string>, y: string): nat {
    if l == [] then 0 else (if l[0] == y then 1 else 0) + Count(l[1..], y)
  }

  lemma {:induction false} WithoutAppend(a: seq<string>, b: seq<string>, x: string)
    ensures Without(a + b, x) == Without(a, x) + Without(b, x)
    decreases |b|
  {
    if b == [] {
      assert a + b == a;
    } else {
      var n := |b| - 1;
      WithoutAppend(a, b[..n], x);
      assert (a + b)[..|a + b| - 1] == a + b[..n];
    }
  }

  lemma {:induction false} CountAppend(a: seq<string>, b: seq<string>, y: string)
    ensures Count(a + b, y) == Count(a, y) + Count(b, y)
    decreases |a|
  {
    if a == [] {
      assert a + b == b;
    } else {
      CountAppend(a[1..], b, y);
      assert (a + b)[1..] == a[1..] + b;
    }
  }

  /** Removing `x` removes all its occurrences and keeps every other entry as often as it was. */
  lemma {:induction false} WithoutCounts(l: seq<string>, x: string, y: string)
    ensures Count(Without(l, x), y) == if y == x then 0 else Count(l, y)
    decreases |l|
  {
    if l != [] {
      var n := |l| - 1;
      WithoutCounts(l[..n], x, y);
      assert l == l[..n] + [l[n]];
      CountAppend(l[..n], [l[n]], y);
      if l[n] != x {
        CountAppend(Without(l[..n], x), [l[n]], y);
      }
    }
  }

  /** After a push, `x` is the last entry and occurs once; every other entry of the kept part
      occurs as often as before, in the same relative order; and a list of at most 11 entries
      stays at most 11. */
  lemma PushedListProperties(l: seq<string>, x: string)
    ensures var r := PushedList(l, x);
            && |r| >= 1 && r[|r| - 1] == x && Count(r, x) == 1
            && (forall y :: y != x ==> Count(r, y) == Count(DropOldest(l), y))
            && (forall a, b :: DropOldest(l) == a + b ==> r == Without(a, x) + Without(b, x) + [x])
            && |r| <= (if |l| > 11 then |l| else 11)
  {
    var r := PushedList(l, x);
    var kept := Without(DropOldest(l), x);
    CountAppend(kept, [x], x);
    WithoutCounts(DropOldest(l), x, x);
    forall y | y != x ensures Count(r, y) == Count(DropOldest(l), y) {
      CountAppend(kept, [x], y);
      WithoutCounts(DropOldest(l), x, y);
    }
    forall a, b | DropOldest(l) == a + b ensures r == Without(a, x) + Without(b, x) + [x] {
      WithoutAppend(a, b, x);
    }
  }

  /** Reading back a serialized list of non-empty, `.`-free entries gives the list. */
  lemma {:induction false} SerializeRoundTrip(l: seq<string>)
    requires NoneEmpty(l) && NoneContains(l, '.')
    ensures Compact(Split(Serialize(l), '.')) == l
    decreases |l|
  {
    if l == [] {
      assert Split("", '.') == [""];
    } else {
      SerializeRoundTrip(l[1..]);
      SplitCons(l[0], '.', Serialize(l[1..]));
      assert l[0] + "." + Serialize(l[1..]) == l[0] + ['.'] + Serialize(l[1..]);
      CompactAppend([l[0]], Split(Serialize(l[1..]), '.'));
    }
  }

  lemma {:induction false} SerializeAppend(l: seq<string>, y: string)
    ensures Serialize(l + [y]) == Serialize(l) + y + "."
    decreases |l|
  {
    if l == [] {
      assert [] + [y] == [y];
    } else {
      SerializeAppend(l[1..], y);
      assert (l + [y])[1..] == l[1..] + [y];
    }
  }

  /** The list written back by a push of a `.`-free id reads back as itself. */
  lemma PushedReadBack(l: seq<string>, x: string)
    requires NoneEmpty(l) && NoneContains(l, '.')
    requires x != "" && '.' !in x
    ensures Compact(Split(Serialize(PushedList(l, x)), '.')) == PushedList(l, x)
  {
    var r := PushedList(l, x);
    forall i | 0 <= i < |r| ensures r[i] != "" && '.' !in r[i] {
      if i < |r| - 1 {
        assert r[i] in DropOldest(l);
      }
    }
    SerializeRoundTrip(r);
  }

  lemma WithoutPrefix(l: seq<string>, i: nat, x: string)
    requires i < |l|
    ensures Without(l[..i + 1], x) == Without(l[..i], x) + (if l[i] != x then [l[i]] else [])
  {
    assert l[..i + 1][..i] == l[..i];
  }

  lemma SerializePrefix(l: seq<string>, i: nat)
    requires i < |l|
    ensures Serialize(l[..i + 1]) == Serialize(l[..i]) + l[i] + "."
  {
    SerializeAppend(l[..i], l[i]);
    assert l[..i + 1] == l[..i] + [l[i]];
  }

  class AppCookies {
    /** `_authtoken`. */
    var authtoken: JsValue
    /** `_authtoken_exp`; `Undefined` while the property is not set. */
    var authtokenExp: JsValue
    /** `_last_repos`. */
    var lastRepos: string

    /** Lines 50-64, given the text of `document.cookie`. */
    constructor (documentCookie: string)
      ensures var m := Parsed(Split(documentCookie, ';'));
              && authtoken == (if "authtoken" in m then Str(m["authtoken"].value) else Null)
              && authtokenExp == (if !Truthy(authtoken) then Undefined
                                  else if "authtoken-exp" in m then Str(m["authtoken-exp"].value) else Null)
              && lastRepos == (if "last-repos" in m then m["last-repos"].value else "")
    {
      var cookies := new CookieString(documentCookie);
      var token := cookies.Read("authtoken");
      var tokenValue := if token.Some? then Str(token.value) else Null;
      authtoken := tokenValue;
      authtokenExp := Undefined;
      if Truthy(tokenValue) {
        var exp := cookies.Read("authtoken-exp");
        authtokenExp := if exp.Some? then Str(exp.value) else Null;
      }
      var repos := cookies.Read("last-repos");
      lastRepos := if repos.Some? then repos.value else "";
    }

    /** Lines 73-75: the `.`-separated entries, empty ones removed. */
    function LastRepositories(): (r: seq<string>)
      reads this
      ensures NoneEmpty(r) && NoneContains(r, '.')
    {
      Compact(Split(lastRepos, '.'))
    }

    /** Lines 80-97: drop the oldest entry of a list longer than 10, remove `id`, append it,
        and write the list back with a `.` after each entry. */
    method PushLastRepository(id: nat)
      modifies this
      ensures lastRepos == Serialize(PushedList(old(LastRepositories()), DecimalString(id)))
      ensures LastRepositories() == PushedList(old(LastRepositories()), DecimalString(id))
      ensures authtoken == old(authtoken) && authtokenExp == old(authtokenExp)
    {
      var reposList := LastRepositories();
      ghost var before := reposList;
      if |reposList| > 10 {
        reposList := reposList[1..];
      }
      var idText := DecimalString(id);
      var newList: seq<string> := [];
      for i := 0 to |reposList|
        invariant newList == Without(reposList[..i], idText)
        invariant unchanged(this)
      {
        WithoutPrefix(reposList, i, idText);
        if idText != reposList[i] {
          newList := newList + [reposList[i]];
        }
      }
      assert reposList[..|reposList|] == reposList;
      assert reposList == DropOldest(before);
      newList := newList + [idText];
      assert newList == PushedList(before, idText);
      lastRepos := "";
      for i := 0 to |newList|
        invariant lastRepos == Serialize(newList[..i])
        invariant authtoken == old(authtoken) && authtokenExp == old(authtokenExp)
      {
        SerializePrefix(newList, i);
        lastRepos := lastRepos + newList[i] + ".";
      }
      assert newList[..|newList|] == newList;
      assert '.' !in idText by {
        assert forall i :: 0 <= i < |idText| ==> IsDigit(idText[i]);
      }
      PushedReadBack(before, idText);
    }

    /** Lines 109-115: a truthy token replaces token and expiry; anything else changes nothing. */
    method Login(token: JsValue, expirationDate: JsValue)
      modifies this
      ensures Truthy(token) ==> authtoken == token && authtokenExp == expirationDate
      ensures !Truthy(token) ==> authtoken == old(authtoken) && authtokenExp == old(authtokenExp)
      ensures lastRepos == old(lastRepos)
    {
      if Truthy(token) {
        authtoken := token;
        authtokenExp := expirationDate;
      }
    }

    /** Lines 117-122: both properties are deleted. */
    method Logout()
      modifies this
      ensures authtoken == Undefined && authtokenExp == Undefined
      ensures lastRepos == old(lastRepos)
    {
      authtoken := Undefined;
      authtokenExp := Undefined;
    }
  }
}
