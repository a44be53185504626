/** The server side of the transfer engine as pure reference definitions: what
    one store exchange, one retrieve exchange and one turn of the per-connection
    dispatch loop do to the file system, the inbound stream and the trace.
    Both server variants share them; they differ only in the name a store uses
    (`strip` selects the basename). */
module Exchange {
  import opened FileSystem
  import opened Messages
  import Names

  const ReadyForData := "Ready for data"
  const StoredSuccessfully := "File stored successfully"
  const MismatchMessage := "Checksum mismatch"
  const ReadyToSend := "Ready to send"

  function ReadyFrame(): (x: Item) { Frame(Resp(Response(true, Fixed(ReadyForData)))) }
  function StoredFrame(): (x: Item) { Frame(Resp(Response(true, Fixed(StoredSuccessfully)))) }
  function MismatchFrame(): (x: Item) { Frame(Resp(Response(false, Fixed(MismatchMessage)))) }

  /** One endpoint of a connection: its file system, the inbound items not yet
      read, and its trace so far. */
  datatype Conn = Conn(fs: Fs, inbox: seq<Item>, trace: seq<Event>)

  /** The endpoint after an exchange, and the exchange's result. */
  datatype ExchangeResult = ExchangeResult(after: Conn, outcome: Outcome)

  /** handleStorage for a file called `name` of declared size `size`. */
  function Store(c: Conn, digest: Bytes -> Bytes, name: string, size: uint64): (r: ExchangeResult)
    requires c.fs.Valid()
    ensures r.after.fs.Valid() && r.after.fs.denied == c.fs.denied
    ensures |r.after.inbox| <= |c.inbox|
  {
    match CreateExcl(c.fs, name)
    case Err(e) =>
      ExchangeResult(c.(trace := c.trace + [Out(Frame(Resp(Response(false, OsErrorText(e)))))]), Failed(OpenFailed(e)))
    case Ok(created) =>
      WriteKeepsValid(c.fs, name, []);
      StorePayload(created, c.inbox, c.trace + [Out(ReadyFrame())], digest, name, CopyCount(size))
  }

  /** The middle of handleStorage, once the empty file `name` exists in
      `created` and "Ready for data" is sent: the payload read of n bytes. */
  function StorePayload(created: Fs, inbox: seq<Item>, trace: seq<Event>, digest: Bytes -> Bytes, name: string, n: nat)
    : (r: ExchangeResult)
    requires created.Valid() && name != "" && n <= MaxFileSize
    ensures r.after.fs.Valid() && r.after.fs.denied == created.denied
    ensures |r.after.inbox| <= |inbox|
  {
    var copy := ReadRaw(inbox, n);
    var written := created.(files := created.files[name := copy.bytes]);
    WriteKeepsValid(created, name, copy.bytes);
    RemoveKeepsValid(written, name);
    var copied := Conn(written, copy.rest, trace + Ins(Raws(copy.bytes)));
    if !copy.complete then
      ExchangeResult(copied.(fs := RemoveFile(written, name)), Failed(ShortRead))
    else
      StoreVerdict(copied, name, digest(copy.bytes))
  }

  /** The end of handleStorage: receive the trailing checksum and compare it
      with the digest `sum` of what was written to `name`. */
  function StoreVerdict(c: Conn, name: string, sum: Bytes): (r: ExchangeResult)
    requires c.fs.Valid()
    ensures r.after.fs.Valid() && r.after.fs.denied == c.fs.denied
    ensures r.after.inbox == ReceiveFrom(c.inbox).rest && |r.after.inbox| + 1 >= |c.inbox|
  {
    var check := ReceiveFrom(c.inbox);
    var received := Conn(c.fs, check.rest, c.trace + Consumed(c.inbox));
    var removed := RemoveFile(c.fs, name);
    RemoveKeepsValid(c.fs, name);
    if check.NoMessage? then
      ExchangeResult(received.(fs := removed), Failed(ChecksumNotReceived))
    else if !check.env.Checksum? then
      ExchangeResult(received, Panicked)
    else if sum == check.env.checksum then
      ExchangeResult(received.(trace := received.trace + [Out(StoredFrame())]), Done)
    else
      ExchangeResult(Conn(removed, received.inbox, received.trace + [Out(MismatchFrame())]), Failed(ChecksumMismatch))
  }

  /** The reply a successful retrieval streams for `content`. */
  function Download(digest: Bytes -> Bytes, content: Bytes): (items: seq<Item>)
    requires |content| <= MaxFileSize
  {
    [Frame(RetrievalResp(RetrievalResponse(true, Fixed(ReadyToSend), |content| as uint64)))]
    + Raws(content) + [Frame(Checksum(digest(content)))]
  }

  /** handleRetrieval for the file called `name`: only the trace changes. */
  function Retrieve(c: Conn, digest: Bytes -> Bytes, name: string): (r: ExchangeResult)
    requires c.fs.Valid()
    ensures r.after.fs == c.fs && r.after.inbox == c.inbox
  {
    match StatFile(c.fs, name)
    case Err(e) =>
      ExchangeResult(c.(trace := c.trace + [Out(Frame(RetrievalResp(RetrievalResponse(false, OsErrorText(e), 0))))]),
                     Failed(StatFailed(e)))
    case Ok(size) =>
      match ReadFile(c.fs, name)
      case Err(e) =>
        ExchangeResult(c.(trace := c.trace + [Out(Frame(RetrievalResp(RetrievalResponse(false, OsErrorText(e), 0))))]),
                       Failed(OpenFailed(e)))
      case Ok(content) =>
        var ready := Out(Frame(RetrievalResp(RetrievalResponse(true, Fixed(ReadyToSend), size as uint64))));
        ExchangeResult(c.(trace := c.trace + [ready] + Outs(Raws(content)) + [Out(Frame(Checksum(digest(content))))]), Done)
  }

  /** Why the dispatch loop returned. */
  datatype StopReason = ReceiveFailed(err: RecvError) | EmptyEnvelope | HandlerPanicked

  datatype StepResult = Continue(next: Conn) | Stop(reason: StopReason, last: Conn)

  /** The name a store request writes to. */
  function StoreName(fileName: string, strip: bool): (name: string)
  {
    if strip then Names.Basename(fileName) else fileName
  }

  /** One turn of handleClient's loop: receive an envelope and dispatch it. */
  function Step(c: Conn, digest: Bytes -> Bytes, strip: bool): (r: StepResult)
    requires c.fs.Valid()
    ensures r.Continue? ==> r.next.fs.Valid() && |r.next.inbox| < |c.inbox|
  {
    match ReceiveFrom(c.inbox)
    case NoMessage(err, rest) =>
      Stop(ReceiveFailed(err), Conn(c.fs, rest, c.trace + Consumed(c.inbox)))
    case Got(env, rest) =>
      var received := c.trace + [In(Frame(env))];
      match env
      case StorageReq(req) =>
        var r := Store(Conn(c.fs, rest, received), digest, StoreName(req.fileName, strip), req.size);
        if r.outcome.Panicked? then Stop(HandlerPanicked, r.after) else Continue(r.after)
      case RetrievalReq(req) =>
        Continue(Retrieve(Conn(c.fs, rest, received), digest, req.fileName).after)
      case Empty =>
        Stop(EmptyEnvelope, Conn(c.fs, rest, received))
      case _ =>
        Continue(Conn(c.fs, rest, received))
  }

  datatype Session = Session(final: Conn, stop: StopReason)

  /** handleClient: turns of the loop until one stops it. */
  function Serve(c: Conn, digest: Bytes -> Bytes, strip: bool): (s: Session)
    requires c.fs.Valid()
    ensures s.final.fs.Valid() && s.final.fs.denied == c.fs.denied
    ensures |s.final.inbox| <= |c.inbox|
    decreases |c.inbox|
  {
    match Step(c, digest, strip)
    case Stop(reason, last) => Session(last, reason)
    case Continue(next) => Serve(next, digest, strip)
  }
}
