/** The browser's upload driver (public/scripts/fileshare/upload/batch_upload.js): a file is
    sent in windows of at most 200 MiB, one request per window, until the server answers
    202, an error, or a 200/201 that arrives when nothing is left to send. The server's
    replies are a parameter: one per request, in order. */
module BatchUpload {
  import opened JsValues

  const BlockSize: nat := 200 * 1024 * 1024

  function Min(a: int, b: int): int {
    if a <= b then a else b
  }

  /** The browser `File` the driver reads. */
  datatype FileInfo = FileInfo(name: JsValue, size: nat, mimetype: JsValue, virtualPath: JsValue, description: JsValue)

  /** The `metadata` object of lines 13-20; `fileId` is replaced by a 201 reply's body. */
  datatype Metadata = Metadata(
    fileName: JsValue, fileSize: JsValue, mimetype: JsValue,
    virtualPath: JsValue, fileDescription: JsValue, fileId: JsValue)

  /** One request: the window `[start, end)` of the file and the metadata at send time. */
  datatype Request = Request(start: nat, end: nat, metadata: Metadata)

  /** The part of the reply the driver reads: `status` and `response`. */
  datatype Reply = Reply(status: int, body: JsValue)

  datatype Outcome =
    | Completed            // 202
    | Failed(status: int)  // any status but 200, 201, 202
    | WrongResult          // 200/201 although nothing was left to send
    | AwaitingReply        // the replies given ran out

  /** The requests sent, in order, and how the loop ended. */
  datatype Trace = Trace(requests: seq<Request>, outcome: Outcome)

  function InitialMetadata(file: FileInfo): Metadata {
    Metadata(file.name, Num(file.size), file.mimetype, file.virtualPath, file.description, Null)
  }

  /** The entries of `metadata` in declaration order, under the names the driver sends. */
  function Entries(m: Metadata): seq<(string, JsValue)> {
    [("file_name", m.fileName), ("file_size", m.fileSize), ("mimetype", m.mimetype),
     ("virtual_path", m.virtualPath), ("file_description", m.fileDescription), ("file_id", m.fileId)]
  }

  function TruthyEntries(es: seq<(string, JsValue)>): (r: seq<(string, JsValue)>)
    ensures forall e :: e in r <==> e in es && Truthy(e.1)
  {
    if es == [] then []
    else if Truthy(es[0].1) then [es[0]] + TruthyEntries(es[1..])
    else TruthyEntries(es[1..])
  }

  /** The headers `try_send_chunk` sets (lines 63-67): the truthy metadata entries, in order. */
  function Headers(m: Metadata): (r: seq<(string, JsValue)>)
    ensures |r| <= |Entries(m)|
    ensures forall k :: 0 <= k < |r| ==> r[k] in Entries(m) && Truthy(r[k].1)
  {
    TruthyLength(Entries(m));
    TruthyEntries(Entries(m))
  }

  /** Only truthy values become headers; a 0-byte size and a missing file id are not sent. */
  lemma HeadersTruthy(m: Metadata, key: string, v: JsValue)
    ensures (key, v) in Headers(m) <==> (key, v) in Entries(m) && Truthy(v)
    ensures |Headers(m)| <= 6
    ensures ("file_id", m.fileId) in Headers(m) <==> Truthy(m.fileId)
    ensures m.fileSize == Num(0) ==> ("file_size", m.fileSize) !in Headers(m)
  {
    assert |Entries(m)| == 6;
    TruthyLength(Entries(m));
  }

  lemma {:induction false} TruthyLength(es: seq<(string, JsValue)>)
    ensures |TruthyEntries(es)| <= |es|
  {
    if es != [] {
      TruthyLength(es[1..]);
    }
  }

  /** The loop of lines 23-45 from window `[start, end)` on, given the remaining replies. */
  function Run(size: nat, m: Metadata, start: nat, end: nat, replies: seq<Reply>): (t: Trace)
    ensures |t.requests| >= 1 && t.requests[0] == Request(start, end, m)
    ensures |t.requests| <= |replies| + 1
    ensures t.outcome == AwaitingReply <==> |t.requests| == |replies| + 1
    decreases |replies|
  {
    var request := Request(start, end, m);
    if replies == [] then Trace([request], AwaitingReply)
    else
      var reply := replies[0];
      var m' := if reply.status == 201 then m.(fileId := reply.body) else m;
      if reply.status == 200 || reply.status == 201 then
        if start >= size then Trace([request], WrongResult)
        else
          var rest := Run(size, m', end, Min(end + BlockSize, size), replies[1..]);
          Trace([request] + rest.requests, rest.outcome)
      else if reply.status == 202 then Trace([request], Completed)
      else Trace([request], Failed(reply.status))
  }

  /** One step of `Run` after the requests already sent: the next reply either ends the
      trace or moves to the next window with the metadata it implies. */
  lemma RunStep(sent: seq<Request>, size: nat, m: Metadata, start: nat, end: nat, replies: seq<Reply>)
    requires replies != []
    ensures var here := Run(size, m, start, end, replies);
            var reply := replies[0];
            var m' := if reply.status == 201 then m.(fileId := reply.body) else m;
            var next := Run(size, m', end, Min(end + BlockSize, size), replies[1..]);
            var whole := Trace(sent + here.requests, here.outcome);
            && ((reply.status == 200 || reply.status == 201) && start < size ==>
                  whole == Trace((sent + [Request(start, end, m)]) + next.requests, next.outcome))
            && ((reply.status == 200 || reply.status == 201) && start >= size ==>
                  whole == Trace(sent + [Request(start, end, m)], WrongResult))
            && (reply.status == 202 ==> whole == Trace(sent + [Request(start, end, m)], Completed))
            && (reply.status != 200 && reply.status != 201 && reply.status != 202 ==>
                  whole == Trace(sent + [Request(start, end, m)], Failed(reply.status)))
  {
    var reply := replies[0];
    if (reply.status == 200 || reply.status == 201) && start < size {
      var m' := if reply.status == 201 then m.(fileId := reply.body) else m;
      var next := Run(size, m', end, Min(end + BlockSize, size), replies[1..]);
      assert sent + ([Request(start, end, m)] + next.requests) == (sent + [Request(start, end, m)]) + next.requests;
    }
  }

  /** The whole upload of one file. */
  function Upload(file: FileInfo, replies: seq<Reply>): Trace {
    Run(file.size, InitialMetadata(file), 0, Min(file.size, BlockSize), replies)
  }

  /** The `j`-th window: `[min(j·B, size), min((j+1)·B, size))`. */
  function Window(j: nat, size: nat): (nat, nat) {
    (Min(j * BlockSize, size), Min((j + 1) * BlockSize, size))
  }

  /** The number of non-empty windows: `ceil(size / B)`. */
  function NumBlocks(size: nat): nat {
    (size + BlockSize - 1) / BlockSize
  }

  /** Windows lie inside the file, are at most `B` long, and each starts where the previous ended. */
  lemma WindowFacts(j: nat, size: nat)
    ensures Window(j, size).0 <= Window(j, size).1 <= size
    ensures Window(j, size).1 - Window(j, size).0 <= BlockSize
    ensures Window(j + 1, size).0 == Window(j, size).1
    ensures Window(j + 1, size).1 == Min(Window(j, size).1 + BlockSize, size)
  {
    assert (j + 1) * BlockSize == j * BlockSize + BlockSize;
    assert (j + 2) * BlockSize == (j + 1) * BlockSize + BlockSize;
  }

  /** Started at window `j`, the `i`-th request sends window `j + i`. */
  lemma {:induction false} RunWindows(size: nat, m: Metadata, j: nat, replies: seq<Reply>)
    ensures var t := Run(size, m, Window(j, size).0, Window(j, size).1, replies);
            forall i :: 0 <= i < |t.requests| ==>
              (t.requests[i].start, t.requests[i].end) == Window(j + i, size)
    decreases |replies|
  {
    var start, end := Window(j, size).0, Window(j, size).1;
    var t := Run(size, m, start, end, replies);
    if replies != [] {
      var reply := replies[0];
      if (reply.status == 200 || reply.status == 201) && start < size {
        var m' := if reply.status == 201 then m.(fileId := reply.body) else m;
        WindowFacts(j, size);
        RunWindows(size, m', j + 1, replies[1..]);
        var rest := Run(size, m', Window(j + 1, size).0, Window(j + 1, size).1, replies[1..]);
        assert rest == Run(size, m', end, Min(end + BlockSize, size), replies[1..]);
        assert t.requests == [Request(start, end, m)] + rest.requests;
        forall i | 0 < i < |t.requests|
          ensures (t.requests[i].start, t.requests[i].end) == Window(j + i, size)
        {
          assert t.requests[i] == rest.requests[i - 1];
          assert j + 1 + (i - 1) == j + i;
        }
      }
    }
  }

  /** The requests of an upload send the windows in order: each starts where the previous
      one ended, none is longer than 200 MiB, all lie inside the file, and the first is
      `[0, min(size, 200 MiB))`. */
  lemma UploadWindows(file: FileInfo, replies: seq<Reply>)
    ensures var t := Upload(file, replies);
            && t.requests[0].start == 0 && t.requests[0].end == Min(file.size, BlockSize)
            && (forall i :: 0 <= i < |t.requests| ==>
                  (t.requests[i].start, t.requests[i].end) == Window(i, file.size)
                  && t.requests[i].start <= t.requests[i].end <= file.size
                  && t.requests[i].end - t.requests[i].start <= BlockSize)
            && (forall i :: 0 <= i < |t.requests| - 1 ==> t.requests[i + 1].start == t.requests[i].end)
  {
    assert Window(0, file.size) == (0, Min(file.size, BlockSize));
    RunWindows(file.size, InitialMetadata(file), 0, replies);
    var t := Upload(file, replies);
    assert t == Run(file.size, InitialMetadata(file), Window(0, file.size).0, Window(0, file.size).1, replies);
    forall i | 0 <= i < |t.requests|
      ensures (t.requests[i].start, t.requests[i].end) == Window(i, file.size)
      ensures t.requests[i].start <= t.requests[i].end <= file.size
      ensures t.requests[i].end - t.requests[i].start <= BlockSize
      ensures i + 1 < |t.requests| ==> t.requests[i + 1].start == t.requests[i].end
    {
      assert (t.requests[i].start, t.requests[i].end) == Window(0 + i, file.size);
      WindowFacts(i, file.size);
      if i + 1 < |t.requests| {
        assert (t.requests[i + 1].start, t.requests[i + 1].end) == Window(0 + (i + 1), file.size);
      }
    }
  }

  /** The windows `0 .. n-1` together cover `[0, min(n·B, size))`. */
  lemma {:induction false} WindowsCover(n: nat, size: nat)
    ensures SumOfWindows(n, size) == Min(n * BlockSize, size)
  {
    if n > 0 {
      WindowsCover(n - 1, size);
    }
  }

  function SumOfWindows(n: nat, size: nat): int {
    if n == 0 then 0 else SumOfWindows(n - 1, size) + (Window(n - 1, size).1 - Window(n - 1, size).0)
  }

  /** A file of size `S` is cut into `ceil(S / B)` non-empty windows whose lengths add up
      to `S`; every later window is empty. */
  lemma BlocksPartitionFile(size: nat)
    ensures SumOfWindows(NumBlocks(size), size) == size
    ensures forall j: nat :: j < NumBlocks(size) ==> Window(j, size).0 < Window(j, size).1
    ensures forall j: nat :: j >= NumBlocks(size) ==> Window(j, size) == (size, size)
  {
    var n := NumBlocks(size);
    WindowsCover(n, size);
    assert n * BlockSize >= size;
    forall j: nat | j < n ensures Window(j, size).0 < Window(j, size).1 {
      assert j * BlockSize < size by {
        assert j <= n - 1;
        assert (n - 1) * BlockSize < size;
      }
    }
    forall j: nat | j >= n ensures Window(j, size) == (size, size) {
      assert j * BlockSize >= n * BlockSize;
    }
  }

  /** A request is only followed by another when it had something left to send. */
  lemma {:induction false} RunContinuesOnlyBeforeEnd(size: nat, m: Metadata, j: nat, replies: seq<Reply>)
    ensures var t := Run(size, m, Window(j, size).0, Window(j, size).1, replies);
            |t.requests| >= 2 ==> (j + |t.requests| - 2) * BlockSize < size
    decreases |replies|
  {
    var (start, end) := Window(j, size);
    if replies != [] {
      var reply := replies[0];
      if (reply.status == 200 || reply.status == 201) && start < size {
        var m' := if reply.status == 201 then m.(fileId := reply.body) else m;
        WindowFacts(j, size);
        RunContinuesOnlyBeforeEnd(size, m', j + 1, replies[1..]);
      }
    }
  }

  /** The loop ends after at most `ceil(S / B) + 1` requests whatever the server answers:
      the wrong-result check stops a server that never sends 202. */
  lemma UploadTerminates(file: FileInfo, replies: seq<Reply>)
    ensures |Upload(file, replies).requests| <= NumBlocks(file.size) + 1
  {
    var t := Upload(file, replies);
    assert Window(0, file.size) == (0, Min(file.size, BlockSize));
    RunContinuesOnlyBeforeEnd(file.size, InitialMetadata(file), 0, replies);
    assert t == Run(file.size, InitialMetadata(file), Window(0, file.size).0, Window(0, file.size).1, replies);
    var k := |t.requests|;
    if k >= 2 {
      assert (k - 2) * BlockSize < file.size;
      assert (k - 1) * BlockSize <= file.size + BlockSize - 1;
    }
  }

  /** After a 201, the next request carries the reply's body as its file id; other replies
      leave the file id as it was. */
  lemma {:induction false} FileIdForwarded(size: nat, m: Metadata, start: nat, end: nat, replies: seq<Reply>, i: nat)
    requires i + 1 < |Run(size, m, start, end, replies).requests|
    ensures var t := Run(size, m, start, end, replies);
            t.requests[i + 1].metadata.fileId ==
              if replies[i].status == 201 then replies[i].body else t.requests[i].metadata.fileId
    ensures var t := Run(size, m, start, end, replies);
            t.requests[i + 1].metadata == t.requests[i].metadata.(fileId := t.requests[i + 1].metadata.fileId)
    decreases |replies|
  {
    var reply := replies[0];
    var m' := if reply.status == 201 then m.(fileId := reply.body) else m;
    var rest := Run(size, m', end, Min(end + BlockSize, size), replies[1..]);
    if i > 0 {
      FileIdForwarded(size, m', end, Min(end + BlockSize, size), replies[1..], i - 1);
    }
  }

  /** How an upload ended says which reply ended it: 202 for `Completed`, the failing status
      for `Failed`, and every earlier reply was a 200 or 201. */
  lemma {:induction false} RunOutcome(size: nat, m: Metadata, start: nat, end: nat, replies: seq<Reply>)
    ensures var t := Run(size, m, start, end, replies);
            var last := |t.requests| - 1;
            && (forall i :: 0 <= i < last ==> replies[i].status in {200, 201})
            && (t.outcome == Completed ==> replies[last].status == 202)
            && (t.outcome.Failed? ==> replies[last].status == t.outcome.status && replies[last].status !in {200, 201, 202})
            && (t.outcome == WrongResult ==> replies[last].status in {200, 201} && t.requests[last].start >= size)
    decreases |replies|
  {
    if replies != [] {
      var reply := replies[0];
      if (reply.status == 200 || reply.status == 201) && start < size {
        var m' := if reply.status == 201 then m.(fileId := reply.body) else m;
        var rest := Run(size, m', end, Min(end + BlockSize, size), replies[1..]);
        RunOutcome(size, m', end, Min(end + BlockSize, size), replies[1..]);
        var t := Run(size, m, start, end, replies);
        assert t.requests == [Request(start, end, m)] + rest.requests;
        forall i | 0 < i < |t.requests| - 1 ensures replies[i].status in {200, 201} {
          assert replies[i] == replies[1..][i - 1];
        }
      }
    }
  }

  /** Progress reported to the caller during request `i`, after `sent` bytes of its window. */
  function Progress(r: Request, sent: nat): nat {
    r.start + sent
  }

  /** Progress never exceeds the file size, in the last request as in every other, and
      never goes back from one request to the next. */
  lemma ProgressBounds(file: FileInfo, replies: seq<Reply>, i: nat, sent: nat, sent': nat)
    requires i < |Upload(file, replies).requests|
    requires var r := Upload(file, replies).requests[i]; sent <= r.end - r.start
    ensures Progress(Upload(file, replies).requests[i], sent) <= file.size
    ensures i + 1 < |Upload(file, replies).requests| ==>
              Progress(Upload(file, replies).requests[i], sent) <= Progress(Upload(file, replies).requests[i + 1], sent')
  {
    UploadWindows(file, replies);
  }

  /** A 450 MiB file answered 201, 200, 202 is sent in three requests: 0-200 MiB, then
      200-400 MiB with the token, then 400-450 MiB. */
  lemma FourHundredFiftyMiB(name: JsValue, token: JsValue, body: JsValue, fileId: JsValue)
    ensures var file := FileInfo(name, 450 * 1024 * 1024, Str("application/octet-stream"), Str("/"), Null);
            var m := InitialMetadata(file);
            Upload(file, [Reply(201, token), Reply(200, body), Reply(202, fileId)]) ==
              Trace([Request(0, BlockSize, m),
                     Request(BlockSize, 2 * BlockSize, m.(fileId := token)),
                     Request(2 * BlockSize, 450 * 1024 * 1024, m.(fileId := token))],
                    Completed)
  {
    var file := FileInfo(name, 450 * 1024 * 1024, Str("application/octet-stream"), Str("/"), Null);
    var m := InitialMetadata(file);
    var replies := [Reply(201, token), Reply(200, body), Reply(202, fileId)];
    assert replies[1..] == [Reply(200, body), Reply(202, fileId)];
    assert replies[1..][1..] == [Reply(202, fileId)];
    var t2 := Run(file.size, m.(fileId := token), 2 * BlockSize, 450 * 1024 * 1024, [Reply(202, fileId)]);
    assert t2 == Trace([Request(2 * BlockSize, 450 * 1024 * 1024, m.(fileId := token))], Completed);
    var t1 := Run(file.size, m.(fileId := token), BlockSize, 2 * BlockSize, [Reply(200, body), Reply(202, fileId)]);
    assert Min(2 * BlockSize + BlockSize, file.size) == 450 * 1024 * 1024;
    assert t1 == Trace([Request(BlockSize, 2 * BlockSize, m.(fileId := token))] + t2.requests, Completed);
    assert Min(file.size, BlockSize) == BlockSize;
  }

  /** `send_file_by_chunks`: the do/while loop over windows. `replies[k]` answers the `k`-th
      request; when the replies run out the loop is still waiting. */
  method SendFileByChunks(file: FileInfo, replies: seq<Reply>) returns (requests: seq<Request>, outcome: Outcome)
    ensures Trace(requests, outcome) == Upload(file, replies)
  {
    var start: nat := 0;
    var end: nat := Min(file.size, BlockSize);
    var metadata := InitialMetadata(file);
    var finished := false;
    var k := 0;
    requests := [];
    outcome := AwaitingReply;
    while !finished
      invariant 0 <= k <= |replies|
      invariant !finished ==> start <= end <= file.size && |requests| == k
      invariant !finished ==>
        Upload(file, replies) ==
          var rest := Run(file.size, metadata, start, end, replies[k..]);
          Trace(requests + rest.requests, rest.outcome)
      invariant finished ==> Upload(file, replies) == Trace(requests, outcome)
      decreases file.size - start, if finished then 0 else 1, |replies| - k
    {
      requests := requests + [Request(start, end, metadata)];
      if k == |replies| {
        outcome := AwaitingReply;
        finished := true;
      } else {
        var res := replies[k];
        assert replies[k..][0] == res && replies[k..][1..] == replies[k + 1..];
        RunStep(requests[..k], file.size, metadata, start, end, replies[k..]);
        assert requests[..k] + [Request(start, end, metadata)] == requests;
        k := k + 1;
        if res.status == 201 {
          metadata := metadata.(fileId := res.body);
        }
        if res.status == 200 || res.status == 201 {
          if start >= file.size {
            outcome := WrongResult;
            finished := true;
          } else {
            start, end := end, Min(end + BlockSize, file.size);
          }
        } else if res.status == 202 {
          outcome := Completed;
          finished := true;
        } else {
          outcome := Failed(res.status);
          finished := true;
        }
      }
    }
  }

  /** `upload_batch`: the files one after another, in batch order. A file whose upload is
      still waiting for a reply holds back the files after it. */
  method UploadBatch(batch: seq<FileInfo>, replies: seq<seq<Reply>>) returns (traces: seq<Trace>)
    requires |replies| == |batch|
    ensures |traces| <= |batch|
    ensures forall i :: 0 <= i < |traces| ==> traces[i] == Upload(batch[i], replies[i])
    ensures forall i :: 0 <= i < |traces| - 1 ==> traces[i].outcome != AwaitingReply
    ensures |traces| < |batch| ==> |traces| > 0 && traces[|traces| - 1].outcome == AwaitingReply
  {
    traces := [];
    var i := 0;
    while i < |batch|
      invariant 0 <= i <= |batch| && |traces| == i
      invariant forall j :: 0 <= j < i ==> traces[j] == Upload(batch[j], replies[j])
      invariant forall j :: 0 <= j < i ==> traces[j].outcome != AwaitingReply
    {
      var requests, outcome := SendFileByChunks(batch[i], replies[i]);
      traces := traces + [Trace(requests, outcome)];
      if outcome == AwaitingReply {
        return;
      }
      i := i + 1;
    }
  }
}
