/** What the server's exchanges guarantee, stated over the reference
    definitions both server variants are proved against. */
module ServerFacts {
  import opened FileSystem
  import opened Messages
  import opened Exchange
  import Names

  /** The replies a store exchange sends, by how it ended. */
  function StoreReplies(outcome: Outcome): (replies: seq<Item>)
  {
    match outcome
    case Failed(OpenFailed(e)) => [Frame(Resp(Response(false, OsErrorText(e))))]
    case Failed(ChecksumMismatch) => [ReadyFrame(), MismatchFrame()]
    case Done => [ReadyFrame(), StoredFrame()]
    case _ => [ReadyFrame()]
  }

  /** A store exchange touches no file but `name`. An existing `name`, or one
      that cannot be created, is left as it is; a new file survives, holding
      exactly the payload bytes read, only when the exchange succeeds or the
      handler panics; every other outcome removes it again. */
  lemma StoreFileEffect(c: Conn, digest: Bytes -> Bytes, name: string, size: uint64)
    requires c.fs.Valid()
    ensures var r := Store(c, digest, name, size);
      var payload := ReadRaw(c.inbox, CopyCount(size)).bytes;
      && r.after.fs == (if r.outcome == Done || r.outcome == Panicked
                        then c.fs.(files := c.fs.files[name := payload]) else c.fs)
      && (r.outcome == Done || r.outcome == Panicked ==> name !in c.fs.files)
  {
    if CreateExcl(c.fs, name).Ok? {
      var copy := ReadRaw(c.inbox, CopyCount(size));
      var created := CreateExcl(c.fs, name).value;
      var written := created.(files := created.files[name := copy.bytes]);
      assert created.files[name := copy.bytes] == c.fs.files[name := copy.bytes];
      RemoveFresh(c.fs, name, copy.bytes);
    }
  }

  /** A store exchange only appends to the trace; it reads a prefix of the
      inbound stream; it sends the replies its outcome calls for; and, unless
      the create fails, its first act is to send "Ready for data", before any
      payload byte is read. A failed create reads nothing. */
  lemma StoreTrace(c: Conn, digest: Bytes -> Bytes, name: string, size: uint64)
    requires c.fs.Valid()
    ensures var r := Store(c, digest, name, size);
      && c.trace <= r.after.trace
      && Received(r.after.trace) + r.after.inbox == Received(c.trace) + c.inbox
      && Sent(r.after.trace) == Sent(c.trace) + StoreReplies(r.outcome)
      && (CreateExcl(c.fs, name).Err? ==> r.after.inbox == c.inbox && Received(r.after.trace) == Received(c.trace))
      && (CreateExcl(c.fs, name).Ok? ==> |r.after.trace| > |c.trace| && r.after.trace[|c.trace|] == Out(ReadyFrame()))
  {
    match CreateExcl(c.fs, name)
    case Err(e) =>
      TraceAfterOut(c.trace, Frame(Resp(Response(false, OsErrorText(e)))));
    case Ok(created) =>
      AcceptedTrace(c, created, digest, name, CopyCount(size));
  }

  /** A store whose create worked: "Ready for data" goes out first, then the
      payload part runs, so the replies are "Ready for data" and the payload's. */
  lemma AcceptedTrace(c: Conn, created: Fs, digest: Bytes -> Bytes, name: string, n: nat)
    requires created.Valid() && name != "" && n <= MaxFileSize
    ensures var r := StorePayload(created, c.inbox, c.trace + [Out(ReadyFrame())], digest, name, n);
      && c.trace <= r.after.trace
      && Received(r.after.trace) + r.after.inbox == Received(c.trace) + c.inbox
      && Sent(r.after.trace) == Sent(c.trace) + StoreReplies(r.outcome)
      && |r.after.trace| > |c.trace| && r.after.trace[|c.trace|] == Out(ReadyFrame())
  {
    var t1 := c.trace + [Out(ReadyFrame())];
    TraceAfterOut(c.trace, ReadyFrame());
    PayloadTrace(created, c.inbox, t1, digest, name, n);
    var r := StorePayload(created, c.inbox, t1, digest, name, n);
    var replies := StoreReplies(r.outcome);
    assert replies == [ReadyFrame()] + replies[1..];
    assert Sent(r.after.trace) == Sent(c.trace) + [ReadyFrame()] + replies[1..];
    assert Sent(c.trace) + [ReadyFrame()] + replies[1..] == Sent(c.trace) + replies;
    assert c.trace <= t1;
  }

  /** The payload part of a store, after "Ready for data": it appends to the
      trace, reads a prefix of the stream, and sends the rest of its replies. */
  lemma PayloadTrace(created: Fs, inbox: seq<Item>, trace: seq<Event>, digest: Bytes -> Bytes, name: string, n: nat)
    requires created.Valid() && name != "" && n <= MaxFileSize
    ensures var r := StorePayload(created, inbox, trace, digest, name, n);
      && trace <= r.after.trace
      && Received(r.after.trace) + r.after.inbox == Received(trace) + inbox
      && !(r.outcome.Failed? && r.outcome.failure.OpenFailed?)
      && Sent(r.after.trace) == Sent(trace) + StoreReplies(r.outcome)[1..]
  {
    var copy := ReadRaw(inbox, n);
    var t2 := trace + Ins(Raws(copy.bytes));
    TraceAfterIns(trace, Raws(copy.bytes));
    assert Received(trace) + inbox == Received(t2) + copy.rest;
    if copy.complete {
      WriteKeepsValid(created, name, copy.bytes);
      VerdictTrace(Conn(created.(files := created.files[name := copy.bytes]), copy.rest, t2), name, digest(copy.bytes));
    }
    assert trace <= t2;
  }

  /** The checksum part of a store: it reads at most the one item, and sends
      the success or the mismatch reply, or nothing. */
  lemma VerdictTrace(c: Conn, name: string, sum: Bytes)
    requires c.fs.Valid()
    ensures var r := StoreVerdict(c, name, sum);
      && c.trace + Consumed(c.inbox) <= r.after.trace
      && Received(r.after.trace) + r.after.inbox == Received(c.trace) + c.inbox
      && !(r.outcome.Failed? && r.outcome.failure.OpenFailed?)
      && Sent(r.after.trace) == Sent(c.trace) + StoreReplies(r.outcome)[1..]
  {
    var t3 := c.trace + Consumed(c.inbox);
    TraceAfterConsumed(c.trace, c.inbox);
    var check := ReceiveFrom(c.inbox);
    if check.Got? && check.env.Checksum? {
      var reply := if sum == check.env.checksum then StoredFrame() else MismatchFrame();
      TraceAfterOut(t3, reply);
      assert t3 <= t3 + [Out(reply)];
    }
    assert c.trace <= t3;
  }

  /** How a store exchange ends, in terms of its inputs: the create decides
      OpenFailed; then the number of raw bytes that arrive decides ShortRead;
      then the item right after the payload decides the rest. */
  lemma StoreOutcome(c: Conn, digest: Bytes -> Bytes, name: string, size: uint64)
    requires c.fs.Valid()
    ensures var r := Store(c, digest, name, size);
      var payload := ReadRaw(c.inbox, CopyCount(size)).bytes;
      var n := |payload|;
      && (r.outcome.Failed? && r.outcome.failure.OpenFailed? <==> CreateExcl(c.fs, name).Err?)
      && (r.outcome == Failed(ShortRead) <==> CreateExcl(c.fs, name).Ok? && n < CopyCount(size))
      && (r.outcome == Failed(ChecksumNotReceived) <==>
            CreateExcl(c.fs, name).Ok? && n == CopyCount(size) && (n == |c.inbox| || !c.inbox[n].Frame?))
      && (r.outcome == Panicked <==>
            CreateExcl(c.fs, name).Ok? && n == CopyCount(size) && n < |c.inbox| && c.inbox[n].Frame?
            && !c.inbox[n].env.Checksum?)
      && (r.outcome == Failed(ChecksumMismatch) <==>
            CreateExcl(c.fs, name).Ok? && n == CopyCount(size) && n < |c.inbox| && c.inbox[n].Frame?
            && c.inbox[n].env.Checksum? && c.inbox[n].env.checksum != digest(payload))
      && (r.outcome == Done <==>
            CreateExcl(c.fs, name).Ok? && n == CopyCount(size) && n < |c.inbox|
            && c.inbox[n] == Frame(Checksum(digest(payload))))
  {
    var copy := ReadRaw(c.inbox, CopyCount(size));
    var n := |copy.bytes|;
    assert c.inbox == Raws(copy.bytes) + copy.rest;
    assert |Raws(copy.bytes)| == n;
    if copy.rest != [] {
      assert c.inbox[n] == copy.rest[0];
    }
  }

  /** Exactly what a store leaves of the inbound stream: all of it when the
      create fails; otherwise what follows the raw bytes the copy took, less
      the one item the checksum receive takes when the copy was complete. */
  lemma StoreConsumes(c: Conn, digest: Bytes -> Bytes, name: string, size: uint64)
    requires c.fs.Valid()
    ensures var copy := ReadRaw(c.inbox, CopyCount(size));
      Store(c, digest, name, size).after.inbox ==
        if CreateExcl(c.fs, name).Err? then c.inbox
        else if copy.complete then ReceiveFrom(copy.rest).rest
        else copy.rest
  {
  }

  /** A retrieval changes neither the file system nor the inbound stream and
      reads nothing. It succeeds exactly when the file exists and may be
      opened, and then sends the size, the content and the content's digest;
      otherwise it sends one rejection with size 0 and no payload. */
  lemma RetrieveReplies(c: Conn, digest: Bytes -> Bytes, name: string)
    requires c.fs.Valid()
    ensures var r := Retrieve(c, digest, name);
      && r.after.fs == c.fs && r.after.inbox == c.inbox
      && c.trace <= r.after.trace && Received(r.after.trace) == Received(c.trace)
      && (r.outcome == Done <==> name in c.fs.files && name !in c.fs.denied)
      && (r.outcome == Done ==> Sent(r.after.trace) == Sent(c.trace) + Download(digest, c.fs.files[name]))
      && (r.outcome != Done ==>
            var e := if name in c.fs.files then PermissionDenied else NotFound;
            Sent(r.after.trace) == Sent(c.trace) + [Frame(RetrievalResp(RetrievalResponse(false, OsErrorText(e), 0)))])
  {
    var r := Retrieve(c, digest, name);
    if name in c.fs.files && name !in c.fs.denied {
      var content := c.fs.files[name];
      var ready := Frame(RetrievalResp(RetrievalResponse(true, Fixed(ReadyToSend), |content| as uint64)));
      var t1 := c.trace + [Out(ready)];
      var t2 := t1 + Outs(Raws(content));
      TraceAfterOut(c.trace, ready);
      TraceAfterOuts(t1, Raws(content));
      TraceAfterOut(t2, Frame(Checksum(digest(content))));
      assert c.trace <= t1 <= t2;
    } else {
      var e := if name in c.fs.files then PermissionDenied else NotFound;
      TraceAfterOut(c.trace, Frame(RetrievalResp(RetrievalResponse(false, OsErrorText(e), 0))));
    }
  }

  /** One turn of the dispatch loop stops it only on a failed receive, an
      empty envelope, or a store handler that panics. Failed stores, all
      retrievals and envelopes of any other type go on to the next turn. */
  lemma StepStops(c: Conn, digest: Bytes -> Bytes, strip: bool)
    requires c.fs.Valid()
    ensures var s := Step(c, digest, strip);
      var got := ReceiveFrom(c.inbox);
      && (got.NoMessage? <==> s.Stop? && s.reason.ReceiveFailed?)
      && (got.Got? && got.env.Empty? <==> s.Stop? && s.reason == EmptyEnvelope)
      && (got.Got? && got.env.RetrievalReq? ==> s.Continue?)
      && (got.Got? && !got.env.StorageReq? && !got.env.RetrievalReq? && !got.env.Empty? ==> s.Continue?)
      && (got.Got? && got.env.StorageReq? ==>
            var r := Store(Conn(c.fs, got.rest, c.trace + [In(Frame(got.env))]), digest,
                           StoreName(got.env.storageReq.fileName, strip), got.env.storageReq.size);
            (s.Stop? <==> r.outcome == Panicked) && (s.Stop? ==> s.reason == HandlerPanicked))
  {
  }

  /** One turn of the dispatch loop, as the trace sees it: it only appends,
      and it reads a prefix of the inbound stream. */
  lemma StepTrace(c: Conn, digest: Bytes -> Bytes, strip: bool)
    requires c.fs.Valid()
    ensures var s := Step(c, digest, strip);
      var last := if s.Continue? then s.next else s.last;
      && c.trace <= last.trace
      && Received(last.trace) + last.inbox == Received(c.trace) + c.inbox
  {
    var got := ReceiveFrom(c.inbox);
    TraceAfterConsumed(c.trace, c.inbox);
    if got.Got? {
      var mid := Conn(c.fs, got.rest, c.trace + [In(Frame(got.env))]);
      assert mid.trace == c.trace + Consumed(c.inbox);
      match got.env
      case StorageReq(req) => StoreTrace(mid, digest, StoreName(req.fileName, strip), req.size);
      case RetrievalReq(req) => RetrieveReplies(mid, digest, req.fileName);
      case _ =>
    }
  }

  /** One turn of the dispatch loop changes no file that already exists, and
      adds at most the one file its store request names. */
  lemma StepFileEffect(c: Conn, digest: Bytes -> Bytes, strip: bool)
    requires c.fs.Valid()
    ensures var s := Step(c, digest, strip);
      var last := if s.Continue? then s.next else s.last;
      && (forall n :: n in c.fs.files ==> n in last.fs.files && last.fs.files[n] == c.fs.files[n])
      && (forall n :: n in last.fs.files && n !in c.fs.files ==>
            var got := ReceiveFrom(c.inbox);
            got.Got? && got.env.StorageReq? && n == StoreName(got.env.storageReq.fileName, strip))
  {
    var got := ReceiveFrom(c.inbox);
    if got.Got? && got.env.StorageReq? {
      var req := got.env.storageReq;
      StoreFileEffect(Conn(c.fs, got.rest, c.trace + [In(Frame(got.env))]), digest, StoreName(req.fileName, strip), req.size);
    }
  }

  /** Over a whole connection the server never changes a file that existed
      when it started: every store either writes a new file or fails. */
  lemma {:induction false} ServeKeepsExistingFiles(c: Conn, digest: Bytes -> Bytes, strip: bool)
    requires c.fs.Valid()
    ensures var s := Serve(c, digest, strip);
      forall n :: n in c.fs.files ==> n in s.final.fs.files && s.final.fs.files[n] == c.fs.files[n]
    decreases |c.inbox|
  {
    StepFileEffect(c, digest, strip);
    match Step(c, digest, strip)
    case Stop(_, _) =>
    case Continue(next) =>
      ServeKeepsExistingFiles(next, digest, strip);
  }

  /** Over a whole connection the trace only grows, and the server reads a
      prefix of the inbound stream: nothing is skipped and nothing invented. */
  lemma {:induction false} ServeTrace(c: Conn, digest: Bytes -> Bytes, strip: bool)
    requires c.fs.Valid()
    ensures var s := Serve(c, digest, strip);
      && c.trace <= s.final.trace
      && Received(s.final.trace) + s.final.inbox == Received(c.trace) + c.inbox
    decreases |c.inbox|
  {
    StepTrace(c, digest, strip);
    match Step(c, digest, strip)
    case Stop(_, _) =>
    case Continue(next) =>
      ServeTrace(next, digest, strip);
  }

  /** The second variant, which stores under basenames, never creates a file
      whose name contains '/'. */
  lemma {:induction false} ServeStripsNames(c: Conn, digest: Bytes -> Bytes)
    requires c.fs.Valid()
    ensures var s := Serve(c, digest, true);
      forall n :: n in s.final.fs.files ==> n in c.fs.files || '/' !in n
    decreases |c.inbox|
  {
    StepFileEffect(c, digest, true);
    var got := ReceiveFrom(c.inbox);
    if got.Got? && got.env.StorageReq? {
      var _ := Names.BasenameIsLastComponent(got.env.storageReq.fileName);
    }
    match Step(c, digest, true)
    case Stop(_, _) =>
    case Continue(next) =>
      ServeStripsNames(next, digest);
  }

  /** Every store request in the stream names a file without '/'. */
  predicate PlainStoreNames(inbox: seq<Item>)
  {
    forall i :: 0 <= i < |inbox| && inbox[i].Frame? && inbox[i].env.StorageReq? ==>
      '/' !in inbox[i].env.storageReq.fileName
  }

  /** What is left of a stream after reading a prefix keeps its store names plain. */
  lemma PlainStoreNamesSuffix(inbox: seq<Item>, read: seq<Item>, rest: seq<Item>)
    requires inbox == read + rest && PlainStoreNames(inbox)
    ensures PlainStoreNames(rest)
  {
    assert forall i :: 0 <= i < |rest| ==> rest[i] == inbox[|read| + i];
  }

  /** The two variants take the same turn when the envelope read is not a
      store request naming a directory. */
  lemma StepVariantsAgree(c: Conn, digest: Bytes -> Bytes)
    requires c.fs.Valid() && PlainStoreNames(c.inbox)
    ensures Step(c, digest, true) == Step(c, digest, false)
  {
    var got := ReceiveFrom(c.inbox);
    if got.Got? && got.env.StorageReq? {
      assert c.inbox[0].Frame?;
      var fileName := got.env.storageReq.fileName;
      Names.BasenameOfPlainName(fileName);
      assert StoreName(fileName, true) == StoreName(fileName, false);
    }
  }

  /** The two server variants behave identically on a connection whose store
      requests name no directories. */
  lemma {:induction false} ServeVariantsAgree(c: Conn, digest: Bytes -> Bytes)
    requires c.fs.Valid() && PlainStoreNames(c.inbox)
    ensures Serve(c, digest, true) == Serve(c, digest, false)
    decreases |c.inbox|
  {
    StepVariantsAgree(c, digest);
    match Step(c, digest, false)
    case Stop(_, _) =>
    case Continue(next) =>
      StepTrace(c, digest, false);
      ConservedSuffix(c.trace, c.inbox, next.trace, next.inbox);
      PlainStoreNamesSuffix(c.inbox, Received(next.trace[|c.trace|..]), next.inbox);
      ServeVariantsAgree(next, digest);
  }
}
