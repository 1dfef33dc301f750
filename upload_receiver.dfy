/** The `/send/...` route of server/routes-v2/user/repos/root.js: the chunk receiver and its
    process-wide table of transfers in progress (`upload_in_progress`), keyed by transfer token.

    One request is one chunk. It is modelled as the steps the handler runs in order:
    `Begin` (permission, token, session, empty temp file), one `OnData` per `data` event,
    and `OnEnd` at the `end` event; `Send` runs them together. The SHA-256 state is the
    sequence of bytes fed to it, the random token bytes are a sequence of draws, the
    temporary directory is a map from file name to contents, and `finalize_file_upload`
    (which is not part of this model) is represented by the outcome it returns. */
module UploadReceiver {
  import opened JsValues

  newtype Byte = x: int | 0 <= x < 256

  type Token = string

  type FileId = int

  /** A request header as `decode_header` returns it: `null` when absent or empty (line 189
      tests the raw header for truthiness), `undefined` when `decodeURIComponent` threw, or
      the decoded text. */
  datatype Header = Absent | Malformed | Present(text: string)

  function HeaderValue(h: Header): (r: JsValue)
    ensures h == Absent || h == Present("") ==> r == Null
    ensures h == Malformed ==> r == Undefined
    ensures h.Present? && h.text != "" ==> r == Str(h.text)
    ensures Truthy(r) <==> h.Present? && h.text != ""
  {
    match h
    case Absent => Null
    case Malformed => Undefined
    case Present(t) => if t == "" then Null else Str(t)
  }

  /** The headers the receiver reads: `content-token`, `content-name`, `content-size`,
      `content-timestamp`, `content-mimetype`, `content-path`, `content-description`. */
  datatype RequestHeaders = RequestHeaders(
    token: Header, name: Header, size: Header, timestamp: Header,
    mimetype: Header, path: Header, description: Header)

  /** The metadata of a transfer. `fileSize` is `Number(content-size)`; `None` is NaN. */
  datatype Metadata = Metadata(
    fileName: JsValue, fileSize: Option<int>, timestamp: JsValue, mimetype: JsValue,
    virtualPath: JsValue, description: JsValue, fileId: Token)

  /** An entry of `upload_in_progress`; `hashed` is everything fed to the SHA-256 state. */
  datatype Session = Session(receivedSize: nat, metadata: Metadata, hashed: seq<Byte>)

  /** The reply of the route. `NoResponse`: the handler threw before replying. */
  datatype Response =
    | Forbidden
    | Finished(fileId: FileId)
    | FinalizeFailed
    | Overflow
    | PartialInit(token: Token)
    | PartialContinue
    | NoResponse

  function Status(r: Response): Option<int> {
    match r
    case Forbidden => Some(403)
    case Finished(_) => Some(202)
    case FinalizeFailed => Some(400)
    case Overflow => Some(413)
    case PartialInit(_) => Some(201)
    case PartialContinue => Some(200)
    case NoResponse => None
  }

  /** What `finalize_file_upload` is given: the temp file's name and contents, the metadata,
      and the bytes whose SHA-256 digest is passed along. */
  datatype FinalizeCall = FinalizeCall(tempName: Token, contents: seq<Byte>, metadata: Metadata, digestInput: seq<Byte>)

  /** Who sends a request: a visitor who is not logged in (`req.connected_user` is unset,
      which the route lets through on a repository anyone may view), or a connected user
      together with the answer `can_user_upload_to_repos` gives for them. */
  datatype Caller = Anonymous | User(canUpload: bool)

  /** How the first part of the handler ended: refused, thrown, or ready to receive data. */
  datatype Start = Refused | Thrown | Ready(token: Token, generated: bool)

  const DefaultMimetype: string := "application/octet-stream"
  const DefaultVirtualPath: string := "/"

  /** `v || fallback`. */
  function OrDefault(v: JsValue, fallback: string): (r: JsValue)
    ensures Truthy(v) ==> r == v
    ensures !Truthy(v) ==> r == Str(fallback)
  {
    if Truthy(v) then v else Str(fallback)
  }

  /** The metadata a first chunk records (lines 207-215). */
  function NewMetadata(h: RequestHeaders, token: Token): (r: Metadata)
    ensures r.fileId == token
    ensures Truthy(r.mimetype) && Truthy(r.virtualPath)
    ensures h.size.Present? ==> r.fileSize == StringToNumber(h.size.text)
  {
    Metadata(
      HeaderValue(h.name),
      NumberOf(HeaderValue(h.size)),
      HeaderValue(h.timestamp),
      OrDefault(HeaderValue(h.mimetype), DefaultMimetype),
      OrDefault(HeaderValue(h.path), DefaultVirtualPath),
      HeaderValue(h.description),
      token)
  }

  /** A first chunk without `content-size` declares 0 bytes (`Number(null)`), one whose
      header cannot be decoded declares NaN (`Number(undefined)`); mimetype and path default.
      An empty header is recorded as `null`, like a missing one. */
  lemma NewMetadataDefaults(h: RequestHeaders, token: Token)
    ensures h.size == Absent || h.size == Present("") ==> NewMetadata(h, token).fileSize == Some(0)
    ensures h.name == Present("") ==> NewMetadata(h, token).fileName == Null
    ensures h.timestamp == Present("") ==> NewMetadata(h, token).timestamp == Null
    ensures h.description == Present("") ==> NewMetadata(h, token).description == Null
    ensures h.name.Present? && h.name.text != "" ==> NewMetadata(h, token).fileName == Str(h.name.text)
    ensures h.size == Malformed ==> NewMetadata(h, token).fileSize == None
    ensures h.mimetype.Present? && h.mimetype.text != "" ==> NewMetadata(h, token).mimetype == Str(h.mimetype.text)
    ensures !h.mimetype.Present? ==> NewMetadata(h, token).mimetype == Str(DefaultMimetype)
    ensures !h.path.Present? ==> NewMetadata(h, token).virtualPath == Str(DefaultVirtualPath)
  {
  }

  /** The `do … while (fs.existsSync(…))` loop of lines 201-203: draw random tokens until one
      does not name a file of the temporary directory. */
  method MintToken(draws: seq<Token>, tempNames: set<Token>) returns (token: Token, tries: nat)
    requires exists i :: 0 <= i < |draws| && draws[i] !in tempNames
    ensures 1 <= tries <= |draws| && token == draws[tries - 1]
    ensures token !in tempNames
    ensures forall j :: 0 <= j < tries - 1 ==> draws[j] in tempNames
  {
    token, tries := draws[0], 1;
    while token in tempNames
      invariant 1 <= tries <= |draws| && token == draws[tries - 1]
      invariant forall j :: 0 <= j < tries - 1 ==> draws[j] in tempNames
      invariant exists i :: tries - 1 <= i < |draws| && draws[i] !in tempNames
      decreases |draws| - tries
    {
      token, tries := draws[tries], tries + 1;
    }
  }

  /** The decision taken at the end of the body (lines 232-243): finalize when every
      declared byte arrived, overflow when more arrived, otherwise a partial reply, 201
      with the token when this request minted it. NaN compares false with everything. */
  function EndOfBody(received: nat, declared: Option<int>, generated: bool, token: Token, finalized: Option<FileId>): (r: Response)
    ensures r.Finished? || r.FinalizeFailed? <==> declared == Some(received)
    ensures r.Finished? <==> declared == Some(received) && finalized.Some?
    ensures r.Finished? ==> finalized == Some(r.fileId)
    ensures r.Overflow? <==> declared.Some? && received > declared.value
    ensures r.PartialInit? <==> generated && (declared.None? || received < declared.value)
    ensures r.PartialContinue? <==> !generated && (declared.None? || received < declared.value)
    ensures r.PartialInit? ==> r.token == token
    ensures Status(r).Some? && Status(r).value in {200, 201, 202, 400, 413}
  {
    if declared == Some(received) then
      if finalized.Some? then Finished(finalized.value) else FinalizeFailed
    else if declared.Some? && received > declared.value then Overflow
    else if generated then PartialInit(token)
    else PartialContinue
  }

  /** The concatenation of the data fragments of one request, in arrival order. */
  function Flatten(fragments: seq<seq<Byte>>): (r: seq<Byte>)
    ensures fragments == [] ==> r == []
  {
    if fragments == [] then [] else Flatten(fragments[..|fragments| - 1]) + fragments[|fragments| - 1]
  }

  /** The contents of a temporary file; a missing file reads as empty, which is also what
      `appendFileSync` starts from when it creates one. */
  function TempOf(tempFiles: map<Token, seq<Byte>>, name: Token): seq<Byte> {
    if name in tempFiles then tempFiles[name] else []
  }

  /** What holds of every session between requests: the received size counts the hashed
      bytes; the temp file holds exactly the hashed bytes, except once a transfer that
      declared 0 bytes has received some (each request on such a transfer truncates the file
      again, line 223); and the temp file exists once bytes arrived or 0 bytes were declared. */
  ghost predicate SessionConsistent(s: Session, name: Token, tempFiles: map<Token, seq<Byte>>) {
    && s.receivedSize == |s.hashed|
    && (s.metadata.fileSize != Some(0) || s.receivedSize == 0 ==> TempOf(tempFiles, name) == s.hashed)
    && (s.metadata.fileSize == Some(0) || s.receivedSize > 0 ==> name in tempFiles)
  }

  /** The table of transfers in progress together with the temporary directory. */
  datatype Table = Table(sessions: map<Token, Session>, tempFiles: map<Token, seq<Byte>>)

  ghost predicate Consistent(t: Table) {
    forall tok {:trigger SessionConsistent(t.sessions[tok], tok, t.tempFiles)} ::
      tok in t.sessions ==> SessionConsistent(t.sessions[tok], tok, t.tempFiles)
  }

  /** Storing one session keeps the table consistent when that session agrees with the new
      directory and no other file changed. */
  lemma ConsistentUpdate(t: Table, tok: Token, s: Session, files: map<Token, seq<Byte>>)
    requires Consistent(t) && SessionConsistent(s, tok, files)
    requires forall n :: n != tok ==> (n in files <==> n in t.tempFiles) && TempOf(files, n) == TempOf(t.tempFiles, n)
    ensures Consistent(Table(t.sessions[tok := s], files))
  {
    var sessions := t.sessions[tok := s];
    forall n | n in sessions
      ensures SessionConsistent(sessions[n], n, files)
    {
      if n != tok {
        assert SessionConsistent(t.sessions[n], n, t.tempFiles);
      }
    }
  }

  /** Deleting a session keeps the table consistent. */
  lemma ConsistentRemove(t: Table, tok: Token)
    requires Consistent(t)
    ensures Consistent(Table(t.sessions - {tok}, t.tempFiles))
  {
    var sessions := t.sessions - {tok};
    forall n | n in sessions
      ensures SessionConsistent(sessions[n], n, t.tempFiles)
    {
      assert SessionConsistent(t.sessions[n], n, t.tempFiles);
    }
  }

  /** The token a request works on: the one it carries, or `minted` when it carries none. */
  function RequestToken(headers: RequestHeaders, minted: Token): Token {
    if Truthy(HeaderValue(headers.token)) then headers.token.text else minted
  }

  /** The session a request works on once it is past the token check: a new one for a
      minted token, else the stored one. */
  function Opened(t: Table, headers: RequestHeaders, tok: Token): Session
    requires !Truthy(HeaderValue(headers.token)) || tok in t.sessions
  {
    if !Truthy(HeaderValue(headers.token)) then Session(0, NewMetadata(headers, tok), []) else t.sessions[tok]
  }

  /** A session after `data` arrived: counted and fed to the hash. */
  function Receive(s: Session, data: seq<Byte>): Session {
    s.(receivedSize := s.receivedSize + |data|, hashed := s.hashed + data)
  }

  /** The temporary directory after a request on `tok`: the file is truncated first when
      `truncate`, then each fragment is appended; either step creates it. */
  function Written(tempFiles: map<Token, seq<Byte>>, tok: Token, truncate: bool, fragments: seq<seq<Byte>>): map<Token, seq<Byte>> {
    if truncate || fragments != [] then
      tempFiles[tok := (if truncate then [] else TempOf(tempFiles, tok)) + Flatten(fragments)]
    else tempFiles
  }

  /** One request on the table, from the permission check to the reply: the new table, the
      reply and the finalizer call. `minted` is the token drawn when the request carries
      none. A 0-byte transfer truncates its temp file first; every data fragment is
      appended to the temp file and fed to the hash; a complete transfer leaves the table. */
  function Request(t: Table, caller: Caller, headers: RequestHeaders, minted: Token,
                   fragments: seq<seq<Byte>>, finalized: Option<FileId>): (r: (Table, Response, Option<FinalizeCall>))
    ensures caller != User(true) ==> r.0 == t && r.2.None?
    ensures caller.Anonymous? ==> r.1 == NoResponse
    ensures caller == User(false) ==> r.1 == Forbidden
    ensures r.2.Some? ==>
              var tok := RequestToken(headers, minted);
              && r.2.value.tempName == tok && tok !in r.0.sessions
              && r.0.sessions == t.sessions - {tok}
              && r.2.value.contents == TempOf(r.0.tempFiles, tok)
  {
    var generated := !Truthy(HeaderValue(headers.token));
    var tok := RequestToken(headers, minted);
    if caller.Anonymous? then (t, NoResponse, None)
    else if !caller.canUpload then (t, Forbidden, None)
    else if !generated && tok !in t.sessions then (t, NoResponse, None)
    else
      var s0 := Opened(t, headers, tok);
      var s1 := Receive(s0, Flatten(fragments));
      var files := Written(t.tempFiles, tok, s0.metadata.fileSize == Some(0), fragments);
      var response := EndOfBody(s1.receivedSize, s1.metadata.fileSize, generated, tok, finalized);
      if s1.metadata.fileSize == Some(s1.receivedSize) then
        (Table(t.sessions - {tok}, files), response, Some(FinalizeCall(tok, TempOf(files, tok), s1.metadata, s1.hashed)))
      else
        (Table(t.sessions[tok := s1], files), response, None)
  }

  /** The file of `tok` holds what was kept of it and then the fragments; it exists once it
      was truncated or written to; no other file changes. */
  lemma WrittenFacts(tempFiles: map<Token, seq<Byte>>, tok: Token, truncate: bool, fragments: seq<seq<Byte>>)
    ensures var files := Written(tempFiles, tok, truncate, fragments);
            && TempOf(files, tok) == (if truncate then [] else TempOf(tempFiles, tok)) + Flatten(fragments)
            && (tok in files <==> tok in tempFiles || truncate || fragments != [])
            && forall n :: n != tok ==> (n in files <==> n in tempFiles) && TempOf(files, n) == TempOf(tempFiles, n)
  {
    if !truncate && fragments == [] {
      assert TempOf(tempFiles, tok) + [] == TempOf(tempFiles, tok);
    }
  }

  /** One more fragment is one more append. */
  lemma WrittenStep(tempFiles: map<Token, seq<Byte>>, tok: Token, fragments: seq<seq<Byte>>, chunk: seq<Byte>)
    ensures var files := Written(tempFiles, tok, false, fragments);
            Written(tempFiles, tok, false, fragments + [chunk]) == files[tok := TempOf(files, tok) + chunk]
  {
    assert (fragments + [chunk])[..|fragments|] == fragments;
    assert Flatten(fragments + [chunk]) == Flatten(fragments) + chunk;
    var kept := TempOf(tempFiles, tok);
    assert kept + Flatten(fragments + [chunk]) == kept + Flatten(fragments) + chunk;
    if fragments == [] {
      assert kept + Flatten(fragments) == kept;
    } else {
      var files := tempFiles[tok := kept + Flatten(fragments)];
      assert files[tok := kept + Flatten(fragments) + chunk] == tempFiles[tok := kept + Flatten(fragments) + chunk];
    }
  }

  /** Truncating first and appending afterwards is one request's write. */
  lemma WrittenCompose(tempFiles: map<Token, seq<Byte>>, tok: Token, truncate: bool, fragments: seq<seq<Byte>>)
    ensures Written(Written(tempFiles, tok, truncate, []), tok, false, fragments) == Written(tempFiles, tok, truncate, fragments)
  {
    if truncate {
      assert [] + Flatten([]) == [];
      assert [] + Flatten(fragments) == Flatten(fragments);
    }
  }

  /** Receiving in two steps is receiving the concatenation. */
  lemma ReceiveTwice(s: Session, first: seq<Byte>, second: seq<Byte>)
    ensures Receive(Receive(s, first), second) == Receive(s, first + second)
  {
    assert s.hashed + first + second == s.hashed + (first + second);
  }

  /** Every request keeps the table consistent, provided a minted token names no temp file;
      the finalizer is then given a temp file holding exactly the hashed bytes, as many as
      were declared. */
  lemma RequestConsistent(t: Table, caller: Caller, headers: RequestHeaders, minted: Token,
                          fragments: seq<seq<Byte>>, finalized: Option<FileId>)
    requires Consistent(t)
    requires !Truthy(HeaderValue(headers.token)) ==> minted !in t.tempFiles
    ensures var (t', response, call) := Request(t, caller, headers, minted, fragments, finalized);
            && Consistent(t')
            && (call.Some? ==>
                  && call.value.contents == call.value.digestInput
                  && call.value.metadata.fileSize == Some(|call.value.contents|)
                  && call.value.tempName in t'.tempFiles && t'.tempFiles[call.value.tempName] == call.value.contents)
  {
    var tok := RequestToken(headers, minted);
    if caller == User(true) && (!Truthy(HeaderValue(headers.token)) || tok in t.sessions) {
      var s0 := Opened(t, headers, tok);
      if Truthy(HeaderValue(headers.token)) {
        assert SessionConsistent(t.sessions[tok], tok, t.tempFiles);
      }
      assert s0.receivedSize == |s0.hashed|;
      assert s0.metadata.fileSize != Some(0) || s0.receivedSize == 0 ==> TempOf(t.tempFiles, tok) == s0.hashed;
      assert s0.receivedSize > 0 ==> tok in t.tempFiles;
      var empty := s0.metadata.fileSize == Some(0);
      var files := Written(t.tempFiles, tok, empty, fragments);
      var s1 := Receive(s0, Flatten(fragments));
      WrittenFacts(t.tempFiles, tok, empty, fragments);
      assert SessionConsistent(s1, tok, files);
      ConsistentUpdate(t, tok, s1, files);
      ConsistentRemove(Table(t.sessions[tok := s1], files), tok);
      assert t.sessions[tok := s1] - {tok} == t.sessions - {tok};
    }
  }

  /** A request that gets past the token check, part by part: the directory it leaves, its
      reply, and whether it finalizes, with the sessions and the call in each case. */
  lemma RequestParts(t: Table, headers: RequestHeaders, tok: Token, fragments: seq<seq<Byte>>,
                     finalized: Option<FileId>)
    requires Truthy(HeaderValue(headers.token)) ==> tok == headers.token.text && tok in t.sessions
    ensures var s0 := Opened(t, headers, tok);
            var s1 := Receive(s0, Flatten(fragments));
            var files := Written(t.tempFiles, tok, s0.metadata.fileSize == Some(0), fragments);
            var r := Request(t, User(true), headers, tok, fragments, finalized);
            && r.0.tempFiles == files
            && r.1 == EndOfBody(s1.receivedSize, s1.metadata.fileSize, !Truthy(HeaderValue(headers.token)), tok, finalized)
            && (r.2.Some? <==> s1.metadata.fileSize == Some(s1.receivedSize))
            && (r.2.Some? ==> r.0.sessions == t.sessions - {tok} &&
                              r.2.value == FinalizeCall(tok, TempOf(files, tok), s1.metadata, s1.hashed))
            && (r.2.None? ==> r.0.sessions == t.sessions[tok := s1])
  {
    assert RequestToken(headers, tok) == tok;
  }

  /** What one request does, case by case: without permission, or with a token the table
      does not hold, nothing changes. Otherwise the transfer is finalized exactly when its
      received size reaches the declared one, and its session is then deleted; else the
      session counts and hashes the new bytes. 413 is answered exactly when more bytes than
      declared arrived. The temp file holds what was kept of it (nothing for a transfer
      that declared 0 bytes) followed by the new bytes, and no other file changes. */
  lemma RequestEffect(t: Table, caller: Caller, headers: RequestHeaders, minted: Token,
                      fragments: seq<seq<Byte>>, finalized: Option<FileId>)
    ensures var (t', response, call) := Request(t, caller, headers, minted, fragments, finalized);
            var tok := RequestToken(headers, minted);
            var data := Flatten(fragments);
            && (caller.Anonymous? ==> t' == t && response == NoResponse && call.None?)
            && (caller == User(false) ==> t' == t && response == Forbidden && call.None?)
            && (caller == User(true) && Truthy(HeaderValue(headers.token)) && tok !in t.sessions ==>
                  t' == t && response == NoResponse && call.None?)
            && (caller == User(true) && (!Truthy(HeaderValue(headers.token)) || tok in t.sessions) ==>
                  var s0 := Opened(t, headers, tok);
                  var declared := s0.metadata.fileSize;
                  && (call.Some? <==> declared == Some(s0.receivedSize + |data|))
                  && (call.Some? ==> call.value.tempName == tok && t'.sessions == t.sessions - {tok})
                  && (call.None? ==>
                        t'.sessions == t.sessions[tok := s0.(receivedSize := s0.receivedSize + |data|, hashed := s0.hashed + data)])
                  && (response == Overflow <==> declared.Some? && s0.receivedSize + |data| > declared.value)
                  && TempOf(t'.tempFiles, tok) == (if declared == Some(0) then [] else TempOf(t.tempFiles, tok)) + data
                  && forall n :: n != tok ==>
                       (n in t'.tempFiles <==> n in t.tempFiles) && TempOf(t'.tempFiles, n) == TempOf(t.tempFiles, n))
  {
    var tok := RequestToken(headers, minted);
    if caller == User(true) && (!Truthy(HeaderValue(headers.token)) || tok in t.sessions) {
      var s0 := Opened(t, headers, tok);
      WrittenFacts(t.tempFiles, tok, s0.metadata.fileSize == Some(0), fragments);
    }
  }

  /** One request and an overflowed transfer: a 413 leaves its transfer in the table,
      overflowed; and a request on a transfer that has already overflowed is answered 413
      and leaves it overflowed with the same metadata. */
  lemma OverflowStep(t: Table, caller: Caller, headers: RequestHeaders, minted: Token,
                     fragments: seq<seq<Byte>>, finalized: Option<FileId>)
    ensures var (t', response, call) := Request(t, caller, headers, minted, fragments, finalized);
            var tok := RequestToken(headers, minted);
            && (response == Overflow ==> call.None? && tok in t'.sessions && Overflowed(t'.sessions[tok]))
            && (caller == User(true) && tok != "" && headers.token == Present(tok) && tok in t.sessions && Overflowed(t.sessions[tok]) ==>
                  && response == Overflow && tok in t'.sessions && Overflowed(t'.sessions[tok])
                  && t'.sessions[tok].metadata == t.sessions[tok].metadata)
  {
    RequestEffect(t, caller, headers, minted, fragments, finalized);
  }

  /** A request that got past the token check has the effect `Request` describes: `mid` is
      the table of sessions after its data arrived, and the reply, the finalizer call and the
      sessions `after` it are those of the end-of-body decision on it. */
  lemma ReadyRequest(t: Table, headers: RequestHeaders, tok: Token, fragments: seq<seq<Byte>>,
                     finalized: Option<FileId>, mid: map<Token, Session>, after: map<Token, Session>,
                     files: map<Token, seq<Byte>>, response: Response, call: Option<FinalizeCall>)
    requires Consistent(t)
    requires !Truthy(HeaderValue(headers.token)) ==> tok !in t.tempFiles
    requires Truthy(HeaderValue(headers.token)) ==> tok == headers.token.text && tok in t.sessions
    requires mid == t.sessions[tok := Opened(t, headers, tok)][tok := Receive(Opened(t, headers, tok), Flatten(fragments))]
    requires files == Written(t.tempFiles, tok, Opened(t, headers, tok).metadata.fileSize == Some(0), fragments)
    requires response == EndOfBody(mid[tok].receivedSize, mid[tok].metadata.fileSize, !Truthy(HeaderValue(headers.token)), tok, finalized)
    requires call.Some? <==> mid[tok].metadata.fileSize == Some(mid[tok].receivedSize)
    requires call.Some? ==> after == mid - {tok} && call.value == FinalizeCall(tok, mid[tok].hashed, mid[tok].metadata, mid[tok].hashed)
    requires call.None? ==> after == mid
    ensures (Table(after, files), response, call) == Request(t, User(true), headers, tok, fragments, finalized)
  {
    var s0 := Opened(t, headers, tok);
    var s1 := Receive(s0, Flatten(fragments));
    UpdateTwice(t.sessions, tok, s0, s1);
    RemoveUpdated(t.sessions, tok, s1);
    RequestParts(t, headers, tok, fragments, finalized);
    if call.Some? {
      RequestConsistent(t, User(true), headers, tok, fragments, finalized);
    }
  }

  lemma UpdateTwice<K, V>(m: map<K, V>, k: K, a: V, b: V)
    ensures m[k := a][k := b] == m[k := b]
  {
  }

  lemma UpdateSame<K, V>(m: map<K, V>, k: K)
    requires k in m
    ensures m[k := m[k]] == m
  {
  }

  lemma RemoveUpdated<K, V>(m: map<K, V>, k: K, a: V)
    ensures m[k := a] - {k} == m - {k}
  {
  }

  /** A transfer that has received more bytes than it declared. */
  predicate Overflowed(s: Session) {
    s.metadata.fileSize.Some? && s.receivedSize > s.metadata.fileSize.value
  }

  /** A later request of an upload: its headers, the token that would be drawn if it
      carried none, its data fragments and what the finalizer would return. */
  datatype Chunk = Chunk(headers: RequestHeaders, minted: Token, fragments: seq<seq<Byte>>, finalized: Option<FileId>)

  /** The table and the replies after `chunks` are sent one after the other by a user who
      may upload. */
  function Replay(t: Table, chunks: seq<Chunk>): (Table, seq<Response>)
    decreases |chunks|
  {
    if chunks == [] then (t, [])
    else
      var (t1, response, _) := Request(t, User(true), chunks[0].headers, chunks[0].minted, chunks[0].fragments, chunks[0].finalized);
      var (t2, responses) := Replay(t1, chunks[1..]);
      (t2, [response] + responses)
  }

  /** An overflowed transfer stays in the table, overflowed and with the same metadata,
      through any number of requests carrying its token, and each of them gets 413. */
  lemma {:induction false} OverflowPersists(t: Table, tok: Token, chunks: seq<Chunk>)
    requires tok != "" && tok in t.sessions && Overflowed(t.sessions[tok])
    requires forall i :: 0 <= i < |chunks| ==> chunks[i].headers.token == Present(tok)
    ensures var (t', responses) := Replay(t, chunks);
            && |responses| == |chunks|
            && (forall i :: 0 <= i < |responses| ==> responses[i] == Overflow)
            && tok in t'.sessions && Overflowed(t'.sessions[tok])
            && t'.sessions[tok].metadata == t.sessions[tok].metadata
    decreases |chunks|
  {
    if chunks != [] {
      var c := chunks[0];
      var (t1, response, _) := Request(t, User(true), c.headers, c.minted, c.fragments, c.finalized);
      OverflowStep(t, User(true), c.headers, c.minted, c.fragments, c.finalized);
      OverflowPersists(t1, tok, chunks[1..]);
      forall i | 1 <= i < |chunks| ensures chunks[1..][i - 1] == chunks[i] {}
    }
  }

  /** A request answered with 413 leaves its transfer in the table, and every later request
      on that token is answered with 413 as well: the received size never goes down and the
      declared size never changes. */
  lemma OverflowIsFinal(t: Table, caller: Caller, headers: RequestHeaders, minted: Token,
                        fragments: seq<seq<Byte>>, finalized: Option<FileId>, later: seq<Chunk>)
    requires RequestToken(headers, minted) != ""
    requires forall i :: 0 <= i < |later| ==> later[i].headers.token == Present(RequestToken(headers, minted))
    ensures var (t1, response, call) := Request(t, caller, headers, minted, fragments, finalized);
            response == Overflow ==>
              && call.None?
              && (forall i :: 0 <= i < |Replay(t1, later).1| ==> Replay(t1, later).1[i] == Overflow)
              && |Replay(t1, later).1| == |later|
  {
    var (t1, response, call) := Request(t, caller, headers, minted, fragments, finalized);
    if response == Overflow {
      OverflowPersists(t1, RequestToken(headers, minted), later);
    }
  }

  /** A request on a known transfer that does not bring more bytes than declared: it is
      finalized exactly when it brings the last byte, with the previously hashed bytes
      followed by this request's data, and its session is then deleted; otherwise the
      session records the new bytes and the reply is 200. */
  lemma FinalizesOnLastByte(t: Table, tok: Token, headers: RequestHeaders, minted: Token,
                            fragments: seq<seq<Byte>>, finalized: Option<FileId>)
    requires Consistent(t) && tok != "" && headers.token == Present(tok) && tok in t.sessions
    requires var s := t.sessions[tok];
             s.metadata.fileSize.Some? && s.receivedSize + |Flatten(fragments)| <= s.metadata.fileSize.value
    ensures var s := t.sessions[tok];
            var data := Flatten(fragments);
            var (t', response, call) := Request(t, User(true), headers, minted, fragments, finalized);
            && (s.receivedSize + |data| == s.metadata.fileSize.value ==>
                  && call == Some(FinalizeCall(tok, s.hashed + data, s.metadata, s.hashed + data))
                  && tok !in t'.sessions
                  && response == if finalized.Some? then Finished(finalized.value) else FinalizeFailed)
            && (s.receivedSize + |data| < s.metadata.fileSize.value ==>
                  && call.None? && response == PartialContinue
                  && t'.sessions == t.sessions[tok := s.(receivedSize := s.receivedSize + |data|, hashed := s.hashed + data)])
  {
    RequestConsistent(t, User(true), headers, minted, fragments, finalized);
  }

  /** A file of `n` bytes sent in two requests: the first carries no token, declares `n` and
      brings fewer than `n` bytes, and gets 201 with the minted token; the second carries that
      token. If it brings the rest, the finalizer gets both requests' bytes in order and the
      transfer leaves the table; if it brings less, it gets 200 and the transfer stays. */
  lemma UploadInTwoRequests(t: Table, n: nat, headers1: RequestHeaders, tok: Token, first: seq<seq<Byte>>,
                            headers2: RequestHeaders, second: seq<seq<Byte>>, fin1: Option<FileId>, fin2: Option<FileId>)
    requires Consistent(t) && tok != "" && tok !in t.tempFiles
    requires !Truthy(HeaderValue(headers1.token)) && headers1.size == Present(DecimalString(n))
    requires headers2.token == Present(tok)
    requires |Flatten(first)| < n && |Flatten(first)| + |Flatten(second)| <= n
    ensures var (t1, r1, c1) := Request(t, User(true), headers1, tok, first, fin1);
            var (t2, r2, c2) := Request(t1, User(true), headers2, tok, second, fin2);
            && r1 == PartialInit(tok) && c1.None?
            && tok in t1.sessions && t1.sessions[tok].receivedSize == |Flatten(first)|
            && (|Flatten(first)| + |Flatten(second)| == n ==>
                  && c2.Some? && c2.value.contents == Flatten(first) + Flatten(second)
                  && c2.value.digestInput == c2.value.contents
                  && tok !in t2.sessions && (r2.Finished? || r2.FinalizeFailed?))
            && (|Flatten(first)| + |Flatten(second)| < n ==>
                  c2.None? && r2 == PartialContinue && tok in t2.sessions)
  {
    NumberOfDecimal(n);
    RequestConsistent(t, User(true), headers1, tok, first, fin1);
    var (t1, r1, c1) := Request(t, User(true), headers1, tok, first, fin1);
    assert t1.sessions[tok].hashed == Flatten(first);
    FinalizesOnLastByte(t1, tok, headers2, tok, second, fin2);
  }

  class TransferTable {
    /** `upload_in_progress`. */
    var sessions: map<Token, Session>
    /** The files of the temporary directory, by name. */
    var tempFiles: map<Token, seq<Byte>>

    ghost predicate Valid()
      reads this
    {
      Consistent(Table(sessions, tempFiles))
    }

    constructor (tempFiles: map<Token, seq<Byte>>)
      ensures Valid() && sessions == map[] && this.tempFiles == tempFiles
    {
      sessions := map[];
      this.tempFiles := tempFiles;
    }

    /** Lines 183-223: the permission check, then either minting a token and recording a new
        session or looking the sent token up, then the empty temp file for a 0-byte transfer. */
    method Begin(caller: Caller, headers: RequestHeaders, draws: seq<Token>) returns (start: Start)
      requires Valid()
      requires !Truthy(HeaderValue(headers.token)) ==> exists i :: 0 <= i < |draws| && draws[i] !in tempFiles
      modifies this
      ensures Valid()
      ensures caller.Anonymous? ==> start == Thrown && unchanged(this)
      ensures caller == User(false) ==> start == Refused && unchanged(this)
      ensures caller == User(true) && Truthy(HeaderValue(headers.token)) ==>
                var t := headers.token.text;
                if t in old(sessions) then
                  && start == Ready(t, false) && sessions == old(sessions)
                  && tempFiles == if sessions[t].metadata.fileSize == Some(0) then old(tempFiles)[t := []] else old(tempFiles)
                else start == Thrown && unchanged(this)
      ensures caller == User(true) && !Truthy(HeaderValue(headers.token)) ==>
                && start.Ready? && start.generated
                && start.token in draws && start.token !in old(tempFiles)
                && (exists k :: 0 <= k < |draws| && start.token == draws[k] && forall j :: 0 <= j < k ==> draws[j] in old(tempFiles))
                && sessions == old(sessions)[start.token := Session(0, NewMetadata(headers, start.token), [])]
                && tempFiles == if NewMetadata(headers, start.token).fileSize == Some(0) then old(tempFiles)[start.token := []] else old(tempFiles)
    {
      if caller.Anonymous? {
        // reading `req.connected_user.id` throws a TypeError
        return Thrown;
      }
      if !caller.canUpload {
        return Refused;
      }
      ghost var t0 := Table(sessions, tempFiles);
      var tokenValue := HeaderValue(headers.token);
      var token: Token;
      var generated := false;
      if !Truthy(tokenValue) {
        var tries;
        token, tries := MintToken(draws, tempFiles.Keys);
        generated := true;
        sessions := sessions[token := Session(0, NewMetadata(headers, token), [])];
      } else {
        token := headers.token.text;
        if token !in sessions {
          // `upload_in_progress[transfer_token].metadata` throws a TypeError
          return Thrown;
        }
      }
      if sessions[token].metadata.fileSize == Some(0) {
        tempFiles := tempFiles[token := []];
      }
      if !generated {
        assert SessionConsistent(t0.sessions[token], token, t0.tempFiles);
        UpdateSame(t0.sessions, token);
      }
      ConsistentUpdate(t0, token, sessions[token], tempFiles);
      return Ready(token, generated);
    }

    /** Lines 225-229: a data fragment raises the received size by its length, is fed to the
        hash and is appended to the temp file. */
    method OnData(token: Token, chunk: seq<Byte>)
      requires Valid() && token in sessions
      modifies this
      ensures Valid()
      ensures sessions == old(sessions)[token := old(sessions[token]).(
                receivedSize := old(sessions[token].receivedSize) + |chunk|,
                hashed := old(sessions[token].hashed) + chunk)]
      ensures tempFiles == old(tempFiles)[token := TempOf(old(tempFiles), token) + chunk]
    {
      ghost var t0 := Table(sessions, tempFiles);
      var s := sessions[token];
      sessions := sessions[token := s.(receivedSize := s.receivedSize + |chunk|)];
      sessions := sessions[token := sessions[token].(hashed := sessions[token].hashed + chunk)];
      tempFiles := tempFiles[token := TempOf(tempFiles, token) + chunk];
      assert SessionConsistent(s, token, t0.tempFiles);
      UpdateTwice(t0.sessions, token, s.(receivedSize := s.receivedSize + |chunk|), sessions[token]);
      ConsistentUpdate(t0, token, sessions[token], tempFiles);
    }

    /** The `data` events of one request, in arrival order. */
    method ReceiveBody(token: Token, fragments: seq<seq<Byte>>)
      requires Valid() && token in sessions
      modifies this
      ensures Valid()
      ensures sessions == old(sessions)[token := Receive(old(sessions[token]), Flatten(fragments))]
      ensures tempFiles == Written(old(tempFiles), token, false, fragments)
    {
      ghost var s0, sB, tB := sessions[token], sessions, tempFiles;
      assert s0.hashed + [] == s0.hashed;
      UpdateSame(sB, token);
      var i := 0;
      while i < |fragments|
        invariant 0 <= i <= |fragments|
        invariant Valid()
        invariant sessions == sB[token := Receive(s0, Flatten(fragments[..i]))]
        invariant tempFiles == Written(tB, token, false, fragments[..i])
      {
        OnData(token, fragments[i]);
        assert fragments[..i + 1] == fragments[..i] + [fragments[i]];
        WrittenStep(tB, token, fragments[..i], fragments[i]);
        assert Flatten(fragments[..i + 1]) == Flatten(fragments[..i]) + fragments[i];
        ReceiveTwice(s0, Flatten(fragments[..i]), fragments[i]);
        UpdateTwice(sB, token, Receive(s0, Flatten(fragments[..i])), Receive(s0, Flatten(fragments[..i + 1])));
        i := i + 1;
      }
      assert fragments[..i] == fragments;
    }

    /** Lines 231-244: the end-of-body decision; a complete transfer is handed to the
        finalizer and its session deleted whatever the finalizer returns. */
    method OnEnd(token: Token, generated: bool, finalized: Option<FileId>) returns (response: Response, call: Option<FinalizeCall>)
      requires Valid() && token in sessions
      modifies this
      ensures Valid()
      ensures response == EndOfBody(old(sessions[token].receivedSize), old(sessions[token].metadata.fileSize), generated, token, finalized)
      ensures tempFiles == old(tempFiles)
      ensures call.Some? <==> old(sessions[token].metadata.fileSize) == Some(old(sessions[token].receivedSize))
      ensures call.Some? ==>
                && sessions == old(sessions) - {token}
                && call.value == FinalizeCall(token, old(sessions[token].hashed), old(sessions[token].metadata), old(sessions[token].hashed))
                && token in tempFiles && tempFiles[token] == call.value.contents
                && |call.value.contents| == old(sessions[token].receivedSize)
      ensures call.None? ==> sessions == old(sessions)
    {
      var s := sessions[token];
      assert SessionConsistent(s, token, tempFiles);
      response := EndOfBody(s.receivedSize, s.metadata.fileSize, generated, token, finalized);
      if s.metadata.fileSize == Some(s.receivedSize) {
        call := Some(FinalizeCall(token, TempOf(tempFiles, token), s.metadata, s.hashed));
        ConsistentRemove(Table(sessions, tempFiles), token);
        sessions := sessions - {token};
      } else {
        call := None;
      }
    }

    /** Lines 225-244: the `data` events of a request on `token`, then its `end` event.
        `t` is the table before the request, whose first part opened `token`'s session. */
    method Transfer(ghost t: Table, headers: RequestHeaders, token: Token, generated: bool,
                    fragments: seq<seq<Byte>>, finalized: Option<FileId>)
      returns (response: Response, call: Option<FinalizeCall>)
      requires Valid() && Consistent(t)
      requires generated == !Truthy(HeaderValue(headers.token))
      requires generated ==> token !in t.tempFiles
      requires !generated ==> token == headers.token.text && token in t.sessions
      requires sessions == t.sessions[token := Opened(t, headers, token)]
      requires tempFiles == Written(t.tempFiles, token, Opened(t, headers, token).metadata.fileSize == Some(0), [])
      modifies this
      ensures Valid()
      ensures (Table(sessions, tempFiles), response, call) == Request(t, User(true), headers, token, fragments, finalized)
    {
      ghost var s0 := Opened(t, headers, token);
      ReceiveBody(token, fragments);
      ghost var mid := sessions;
      response, call := OnEnd(token, generated, finalized);
      WrittenCompose(t.tempFiles, token, s0.metadata.fileSize == Some(0), fragments);
      ReadyRequest(t, headers, token, fragments, finalized, mid, sessions, tempFiles, response, call);
    }

    /** The whole `/send/...` handler for one request: the data fragments arrive in order
        between `Begin` and `OnEnd`. `token` is the transfer token the request worked on
        when it minted one. The new table, the reply and the finalizer call are those of
        `Request`. */
    method Send(caller: Caller, headers: RequestHeaders, draws: seq<Token>, fragments: seq<seq<Byte>>, finalized: Option<FileId>)
      returns (token: Token, response: Response, call: Option<FinalizeCall>)
      requires Valid()
      requires !Truthy(HeaderValue(headers.token)) ==> exists i :: 0 <= i < |draws| && draws[i] !in tempFiles
      modifies this
      ensures Valid()
      ensures caller == User(true) && !Truthy(HeaderValue(headers.token)) ==>
                && token !in old(tempFiles)
                && exists k :: 0 <= k < |draws| && token == draws[k] && forall j :: 0 <= j < k ==> draws[j] in old(tempFiles)
      ensures (Table(sessions, tempFiles), response, call) ==
              Request(Table(old(sessions), old(tempFiles)), caller, headers, token, fragments, finalized)
      ensures call.Some? ==>
                && call.value.contents == call.value.digestInput
                && call.value.metadata.fileSize == Some(|call.value.contents|)
                && call.value.tempName == token && token !in sessions
                && token in tempFiles && tempFiles[token] == call.value.contents
      ensures response == Overflow ==> call.None? && token in sessions && Overflowed(sessions[token])
      ensures caller == User(true) && headers.token.Present? && headers.token.text != "" &&
              headers.token.text in old(sessions) && Overflowed(old(sessions)[headers.token.text]) ==>
                && response == Overflow && token == headers.token.text
                && token in sessions && Overflowed(sessions[token])
                && sessions[token].metadata == old(sessions)[token].metadata
    {
      ghost var t0 := Table(sessions, tempFiles);
      var start := Begin(caller, headers, draws);
      if !start.Ready? {
        token, call := "", None;
        response := if start == Refused then Forbidden else NoResponse;
        return;
      }
      token := start.token;
      assert sessions[token] == Opened(t0, headers, token);
      assert tempFiles == Written(t0.tempFiles, token, sessions[token].metadata.fileSize == Some(0), []);
      if !start.generated {
        UpdateSame(t0.sessions, token);
      }
      response, call := Transfer(t0, headers, token, start.generated, fragments, finalized);
      RequestConsistent(t0, User(true), headers, token, fragments, finalized);
      RequestEffect(t0, User(true), headers, token, fragments, finalized);
      OverflowStep(t0, User(true), headers, token, fragments, finalized);
    }
  }
}
