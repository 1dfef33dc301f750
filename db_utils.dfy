/** Sanitisers that the server applies to values before they reach the database
    (server/db_utils.js). A failing `assert` of node's `assert` module is `Err(AssertionError)`. */
module DbUtils {
  import opened Strings
  import opened JsValues

  datatype Failure = AssertionError

  predicate IsAsciiLetter(c: char) {
    'a' <= c <= 'z' || 'A' <= c <= 'Z'
  }

  predicate IsAlnum(c: char) {
    IsAsciiLetter(c) || IsDigit(c)
  }

  /** `[A-Za-z0-9$./_-]` */
  predicate IsHashKeyChar(c: char) {
    IsAlnum(c) || c == '$' || c == '.' || c == '/' || c == '_' || c == '-'
  }

  /** `[A-Za-z0-9-_.!~*'()%]`: what `encodeURIComponent` may produce. */
  predicate IsDataChar(c: char) {
    IsAlnum(c) || c == '-' || c == '_' || c == '.' || c == '!' || c == '~' || c == '*' ||
    c == '\'' || c == '(' || c == ')' || c == '%'
  }

  /** `[A-Za-z0-9-_]`: the characters of an enum value and of a repository url name. */
  predicate IsNameChar(c: char) {
    IsAlnum(c) || c == '-' || c == '_'
  }

  predicate AllHashKeyChars(s: string) { forall i :: 0 <= i < |s| ==> IsHashKeyChar(s[i]) }
  predicate AllDataChars(s: string) { forall i :: 0 <= i < |s| ==> IsDataChar(s[i]) }
  predicate AllNameChars(s: string) { forall i :: 0 <= i < |s| ==> IsNameChar(s[i]) }

  /** `as_hash_key`: the key itself when it is made of `[A-Za-z0-9$./_-]`, otherwise the assertion fails. */
  function AsHashKey(source: string): (r: Result<string, Failure>)
    ensures r.Ok? <==> AllHashKeyChars(source)
    ensures r.Ok? ==> r.value == source
  {
    if AllHashKeyChars(source) then Ok(source) else Err(AssertionError)
  }

  /** `as_id`: null for a falsy id, the number for a numeric one, an assertion failure otherwise. */
  function AsId(source: JsValue): (r: Result<Option<int>, Failure>)
    ensures r == Ok(None) <==> !Truthy(source)
    ensures r.Err? <==> Truthy(source) && NumberOf(source).None?
    ensures r.Ok? && r.value.Some? ==> Some(r.value.value) == NumberOf(source)
  {
    if !Truthy(source) then Ok(None)
    else if NumberOf(source).None? then Err(AssertionError)
    else Ok(Some(NumberOf(source).value))
  }

  /** The decimal text of any id reads back as that id. */
  lemma AsIdDecimal(n: nat)
    ensures AsId(Str(DecimalString(n))) == Ok(Some(n))
  {
    NumberOfDecimal(n);
  }

  /** `as_boolean`: `!!source`. */
  function AsBoolean(source: JsValue): (r: bool)
    ensures !r <==> source in {Undefined, Null, Bool(false), Num(0), Str("")}
  {
    Truthy(source)
  }

  /** `as_enum`: the lower-cased, trimmed input, after asserting that the input is `[A-Za-z0-9-_]*`. */
  function AsEnum(source: string): (r: Result<string, Failure>)
    ensures r.Ok? <==> AllNameChars(source)
  {
    var data := Trim(ToLower(source));
    if AllNameChars(source) then Ok(data) else Err(AssertionError)
  }

  /** An accepted enum value is the input lower-cased, character for character (the trim
      has nothing to remove). */
  lemma AsEnumLowercases(source: string)
    requires AsEnum(source).Ok?
    ensures AsEnum(source).value == ToLower(source)
    ensures forall i :: 0 <= i < |source| ==> !('A' <= ToLower(source)[i] <= 'Z')
  {
    var l := ToLower(source);
    LowerNameChars(source);
    NameCharsUntrimmed(l);
  }

  /** An accepted enum value is accepted again, unchanged. */
  lemma AsEnumIdempotent(source: string)
    requires AsEnum(source).Ok?
    ensures AsEnum(AsEnum(source).value) == AsEnum(source)
  {
    var l := ToLower(source);
    LowerNameChars(source);
    NameCharsUntrimmed(l);
    LowerIdempotent(source);
  }

  lemma LowerNameChars(s: string)
    requires AllNameChars(s)
    ensures AllNameChars(ToLower(s))
    ensures forall i :: 0 <= i < |s| ==> !('A' <= ToLower(s)[i] <= 'Z')
  {
  }

  lemma LowerIdempotent(s: string)
    ensures ToLower(ToLower(s)) == ToLower(s)
  {
    var l := ToLower(s);
    assert forall i :: 0 <= i < |l| ==> LowerChar(l[i]) == l[i];
  }

  lemma NameCharsUntrimmed(s: string)
    requires AllNameChars(s)
    ensures Trim(s) == s
  {
    if s != [] {
      assert IsNameChar(s[0]) && IsNameChar(s[|s| - 1]);
    }
    TrimUnchanged(s);
  }

  /** `as_path`: a leading `/` followed by the non-empty `/`-separated segments of the input. */
  function AsPath(inPath: string): (r: string)
    ensures |r| >= 1 && r[0] == '/'
  {
    "/" + Join(Compact(Split(inPath, '/')), '/')
  }

  /** The result of `as_path` starts with `/`, has no empty segment, and keeps the
      non-empty segments of the input in order. */
  lemma AsPathShape(inPath: string)
    ensures var r := AsPath(inPath);
            |r| >= 1 && r[0] == '/' &&
            (r == "/" <==> Compact(Split(inPath, '/')) == []) &&
            (r != "/" ==> Split(r[1..], '/') == Compact(Split(inPath, '/')))
  {
    var segs := Compact(Split(inPath, '/'));
    var r := AsPath(inPath);
    assert r[1..] == Join(segs, '/');
    if segs != [] {
      SplitJoin(segs, '/');
      assert Join(segs, '/') != "" by {
        if |segs| == 1 { assert segs[0] != ""; }
      }
    }
  }

  /** `as_path` is idempotent. */
  lemma AsPathIdempotent(inPath: string)
    ensures AsPath(AsPath(inPath)) == AsPath(inPath)
  {
    var r := AsPath(inPath);
    var segs := Compact(Split(inPath, '/'));
    AsPathShape(inPath);
    assert Split(r, '/') == [""] + Split(r[1..], '/') by {
      assert r == [r[0]] + r[1..];
    }
    CompactAppend([""], Split(r[1..], '/'));
    if r == "/" {
      assert Split(r[1..], '/') == [""];
    } else {
      CompactNoneEmpty(segs);
    }
  }

  /** The specification of `as_data_path`: nothing for a falsy input; an assertion failure
      when an encoded segment leaves `[A-Za-z0-9-_.!~*'()%]`; otherwise the non-empty encoded
      segments joined by `/` after a leading `/`, or nothing when there are none. */
  function DataPath(source: Option<string>, encode: string -> string): Result<string, Failure> {
    if source.None? || source.value == "" then Ok("")
    else
      var parts := Split(source.value, '/');
      var encoded := seq(|parts|, i requires 0 <= i < |parts| => encode(parts[i]));
      if exists i :: 0 <= i < |encoded| && !AllDataChars(encoded[i]) then Err(AssertionError)
      else if Compact(encoded) == [] then Ok("")
      else Ok("/" + Join(Compact(encoded), '/'))
  }

  /** `as_data_path`, which rewrites the split segments in place, one by one. */
  method AsDataPath(source: Option<string>, encode: string -> string) returns (r: Result<string, Failure>)
    ensures r == DataPath(source, encode)
  {
    if source.None? || source.value == "" {
      return Ok("");
    }
    var parts := Split(source.value, '/');
    var splitPath := new string[|parts|](i requires 0 <= i < |parts| => parts[i]);
    ghost var encoded := seq(|parts|, i requires 0 <= i < |parts| => encode(parts[i]));
    var i := 0;
    while i < splitPath.Length
      invariant 0 <= i <= splitPath.Length == |parts|
      invariant forall j :: 0 <= j < i ==> splitPath[j] == encoded[j] && AllDataChars(encoded[j])
      invariant forall j :: i <= j < splitPath.Length ==> splitPath[j] == parts[j]
    {
      splitPath[i] := encode(splitPath[i]);
      if !AllDataChars(splitPath[i]) {
        assert !AllDataChars(encoded[i]);
        return Err(AssertionError);
      }
      i := i + 1;
    }
    assert splitPath[..] == encoded;
    var generatedPath := Compact(splitPath[..]);
    if |generatedPath| == 0 {
      return Ok("");
    }
    return Ok("/" + Join(generatedPath, '/'));
  }

  /** A successful `as_data_path` is empty or a `/` followed by non-empty, encoded segments;
      it is empty exactly when the input is falsy or has only empty segments, as long as
      the encoder maps only the empty string to the empty string. */
  lemma DataPathShape(source: Option<string>, encode: string -> string)
    requires forall x :: encode(x) == "" <==> x == ""
    requires DataPath(source, encode).Ok?
    ensures var r := DataPath(source, encode).value;
            (r == "" <==> source.None? || Compact(Split(source.value, '/')) == []) &&
            (r != "" ==> r[0] == '/' && NoneEmpty(Split(r[1..], '/')) &&
                         forall k :: 0 <= k < |Split(r[1..], '/')| ==> AllDataChars(Split(r[1..], '/')[k]))
  {
    var r := DataPath(source, encode).value;
    if source.Some? && source.value != "" {
      var parts := Split(source.value, '/');
      var encoded := seq(|parts|, i requires 0 <= i < |parts| => encode(parts[i]));
      EncodedCompactEmpty(parts, encode);
      if Compact(encoded) != [] {
        SplitJoin(Compact(encoded), '/');
        assert r[1..] == Join(Compact(encoded), '/');
      }
    }
  }

  lemma {:induction false} EncodedCompactEmpty(parts: seq<string>, encode: string -> string)
    requires forall x :: encode(x) == "" <==> x == ""
    ensures var encoded := seq(|parts|, i requires 0 <= i < |parts| => encode(parts[i]));
            Compact(encoded) == [] <==> Compact(parts) == []
  {
    var encoded := seq(|parts|, i requires 0 <= i < |parts| => encode(parts[i]));
    if |parts| > 0 {
      EncodedCompactEmpty(parts[1..], encode);
      assert encoded[1..] == seq(|parts| - 1, i requires 0 <= i < |parts| - 1 => encode(parts[1..][i]));
    }
  }

  /** The single-character rewrite that the four `replaceAll` calls of `display_name_to_url` perform. */
  function UrlCharFor(c: char): char {
    if c == ' ' then '-' else if c == '.' || c == ',' || c == ';' then '_' else c
  }

  /** `s.replaceAll(from, to)` for one-character `from` and `to`. */
  function ReplaceAll(s: string, from: char, to: char): (r: string)
    ensures |r| == |s|
    ensures forall i :: 0 <= i < |s| ==> r[i] == if s[i] == from then to else s[i]
  {
    seq(|s|, i requires 0 <= i < |s| => if s[i] == from then to else s[i])
  }

  /** `display_name_to_url`; `stripAccents` stands for `normalize("NFD")` followed by the
      removal of combining marks U+0300..U+036F. */
  function DisplayNameToUrl(displayName: string, stripAccents: string -> string): (r: Option<string>)
    ensures r.Some? ==> r.value != "" && AllNameChars(r.value)
  {
    var s := ReplaceAll(ReplaceAll(ReplaceAll(ReplaceAll(displayName, ' ', '-'), '.', '_'), ',', '_'), ';', '_');
    var t := stripAccents(s);
    if |t| > 0 && AllNameChars(t) then Some(t) else None
  }

  /** The four `replaceAll` calls rewrite each character independently. */
  lemma ReplacementsPerChar(displayName: string)
    ensures var s := ReplaceAll(ReplaceAll(ReplaceAll(ReplaceAll(displayName, ' ', '-'), '.', '_'), ',', '_'), ';', '_');
            |s| == |displayName| && forall i :: 0 <= i < |s| ==> s[i] == UrlCharFor(displayName[i])
  {
  }

  predicate IsDisplayChar(c: char) {
    IsNameChar(c) || c == ' ' || c == '.' || c == ',' || c == ';'
  }

  /** A non-empty display name made of letters, digits, `-`, `_`, space, `.`, `,` and `;`
      always gets a url name: each space becomes `-` and each `.`, `,`, `;` becomes `_`
      (the accent stripping leaves such plain text alone). */
  lemma DisplayNameAccepted(displayName: string, stripAccents: string -> string)
    requires displayName != [] && forall i :: 0 <= i < |displayName| ==> IsDisplayChar(displayName[i])
    requires forall x :: AllNameChars(x) ==> stripAccents(x) == x
    ensures var r := DisplayNameToUrl(displayName, stripAccents);
            r.Some? && |r.value| == |displayName| &&
            forall i :: 0 <= i < |displayName| ==> r.value[i] == UrlCharFor(displayName[i])
  {
    ReplacementsPerChar(displayName);
  }

  /** A url name is its own url name. */
  lemma DisplayNameIdempotent(displayName: string, stripAccents: string -> string)
    requires forall x :: AllNameChars(x) ==> stripAccents(x) == x
    requires DisplayNameToUrl(displayName, stripAccents).Some?
    ensures var u := DisplayNameToUrl(displayName, stripAccents).value;
            DisplayNameToUrl(u, stripAccents) == Some(u)
  {
    var u := DisplayNameToUrl(displayName, stripAccents).value;
    ReplacementsPerChar(u);
    var s := ReplaceAll(ReplaceAll(ReplaceAll(ReplaceAll(u, ' ', '-'), '.', '_'), ',', '_'), ';', '_');
    assert s == u;
  }
}
