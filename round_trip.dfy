/** The client and server sides wired together: what one side sends is what
    the other reads. An upload by put stores exactly the client's file; a
    download by get reproduces exactly the server's file. */
module RoundTrip {
  import opened FileSystem
  import opened Messages
  import opened Exchange
  import ServerFacts
  import opened ClientSaloni
  import ClientFacts

  /** What put sends once the server has accepted: the content and its digest. */
  function Upload(digest: Bytes -> Bytes, content: Bytes): (items: seq<Item>)
  {
    Raws(content) + [Frame(Checksum(digest(content)))]
  }

  /** A store of `name` whose stream carries `content` and its digest, with the
      size announced for it, succeeds, writes exactly `content`, and reads
      exactly the upload. */
  lemma StoreOfUpload(c: Conn, digest: Bytes -> Bytes, name: string, content: Bytes, rest: seq<Item>)
    requires c.fs.Valid() && CreateExcl(c.fs, name).Ok? && |content| <= MaxFileSize
    ensures var r := Store(c.(inbox := Upload(digest, content) + rest), digest, name, |content| as uint64);
      && r.outcome == Done
      && r.after.fs == c.fs.(files := c.fs.files[name := content])
      && r.after.inbox == rest
  {
    var tail := [Frame(Checksum(digest(content)))] + rest;
    assert Upload(digest, content) + rest == Raws(content) + tail;
    ReadRawExact(content, tail, |content|);
    ServerFacts.StoreFileEffect(c.(inbox := Upload(digest, content) + rest), digest, name, |content| as uint64);
  }

  /** A get of `name` whose stream carries what a successful retrieval sends
      for `content` succeeds, leaves exactly `content` in the new local file,
      and reads exactly the download. */
  lemma GetOfDownload(c: Conn, digest: Bytes -> Bytes, name: string, content: Bytes, rest: seq<Item>)
    requires c.fs.Valid() && CreateExcl(c.fs, name).Ok? && |content| <= MaxFileSize
    ensures var r := Get(c.(inbox := Download(digest, content) + rest), digest, name);
      && r.outcome == Done
      && r.after.fs == c.fs.(files := c.fs.files[name := content])
      && r.after.inbox == rest
  {
    var inbox := Download(digest, content) + rest;
    var head := Frame(RetrievalResp(RetrievalResponse(true, Fixed(ReadyToSend), |content| as uint64)));
    var tail := [Frame(Checksum(digest(content)))] + rest;
    assert inbox == [head] + (Raws(content) + tail);
    assert ReceiveFrom(inbox).rest == Raws(content) + tail;
    ReadRawExact(content, tail, |content|);
    ClientFacts.GetFileEffect(c.(inbox := inbox), digest, name);
  }

  /** One put against one turn of a server's dispatch loop, each reading what
      the other sends: put sends its request, the content and the digest; the
      server stores the client's file under the name its variant uses, and
      replies exactly "Ready for data" and "File stored successfully", which
      is what put needs to succeed. */
  lemma UploadAgreement(client: Conn, server: Conn, digest: Bytes -> Bytes, strip: bool, name: string,
                        clientRest: seq<Item>, serverRest: seq<Item>)
    requires client.fs.Valid() && server.fs.Valid()
    requires name in client.fs.files && name !in client.fs.denied
    requires CreateExcl(server.fs, StoreName(name, strip)).Ok?
    ensures var content := client.fs.files[name];
      var uploaded := [Frame(StorageReq(StorageRequest(name, |content| as uint64)))] + Upload(digest, content);
      var up := Put(client.(inbox := [ReadyFrame(), StoredFrame()] + clientRest), digest, name);
      var turn := Step(server.(inbox := uploaded + serverRest), digest, strip);
      && up.outcome == Done && up.after.inbox == clientRest
      && Sent(up.after.trace) == Sent(client.trace) + uploaded
      && turn.Continue?
      && turn.next.fs == server.fs.(files := server.fs.files[StoreName(name, strip) := content])
      && turn.next.inbox == serverRest
      && Sent(turn.next.trace) == Sent(server.trace) + [ReadyFrame(), StoredFrame()]
  {
    var content := client.fs.files[name];
    var c := client.(inbox := [ReadyFrame(), StoredFrame()] + clientRest);
    ClientFacts.PutOutcome(c, digest, name);
    ClientFacts.PutTrace(c, digest, name);
    var request := Frame(StorageReq(StorageRequest(name, |content| as uint64)));
    assert [request] + Raws(content) + [Frame(Checksum(digest(content)))] == [request] + Upload(digest, content);
    assert ([request] + Upload(digest, content)) + serverRest == [request] + (Upload(digest, content) + serverRest);
    var mid := Conn(server.fs, Upload(digest, content) + serverRest, server.trace + [In(request)]);
    StoreOfUpload(mid, digest, StoreName(name, strip), content, serverRest);
    ServerFacts.StoreTrace(mid, digest, StoreName(name, strip), |content| as uint64);
    TraceAfterIns(server.trace, [request]);
    assert Ins([request]) == [In(request)];
  }

  /** One get against one turn of a server's dispatch loop: get sends only its
      request; a server holding the file sends the size, the content and its
      digest and changes nothing; get then succeeds with a local copy equal
      to the server's file. */
  lemma DownloadAgreement(client: Conn, server: Conn, digest: Bytes -> Bytes, strip: bool, name: string,
                          clientRest: seq<Item>, serverRest: seq<Item>)
    requires client.fs.Valid() && server.fs.Valid()
    requires name in server.fs.files && name !in server.fs.denied
    requires CreateExcl(client.fs, name).Ok?
    ensures var request := Frame(RetrievalReq(RetrievalRequest(name)));
      var served := Download(digest, server.fs.files[name]);
      var turn := Step(server.(inbox := [request] + serverRest), digest, strip);
      var down := Get(client.(inbox := served + clientRest), digest, name);
      && turn.Continue?
      && turn.next.fs == server.fs && turn.next.inbox == serverRest
      && Sent(turn.next.trace) == Sent(server.trace) + served
      && down.outcome == Done
      && down.after.fs == client.fs.(files := client.fs.files[name := server.fs.files[name]])
      && down.after.inbox == clientRest
      && Sent(down.after.trace) == Sent(client.trace) + [request]
  {
    var request := Frame(RetrievalReq(RetrievalRequest(name)));
    var mid := Conn(server.fs, serverRest, server.trace + [In(request)]);
    ServerFacts.RetrieveReplies(mid, digest, name);
    TraceAfterIns(server.trace, [request]);
    assert Ins([request]) == [In(request)];
    var turn := Step(server.(inbox := [request] + serverRest), digest, strip);
    assert turn.next == Retrieve(mid, digest, name).after;
    var content := server.fs.files[name];
    GetOfDownload(client, digest, name, content, clientRest);
    ClientFacts.GetTrace(client.(inbox := Download(digest, content) + clientRest), digest, name);
  }

  /** After a successful store, a retrieval of the same name serves exactly the
      payload that was stored. */
  lemma StoreThenRetrieve(c: Conn, digest: Bytes -> Bytes, name: string, size: uint64)
    requires c.fs.Valid() && Store(c, digest, name, size).outcome == Done
    ensures var r := Store(c, digest, name, size);
      var payload := ReadRaw(c.inbox, CopyCount(size)).bytes;
      var back := Retrieve(r.after, digest, name);
      back.outcome == Done && Sent(back.after.trace) == Sent(r.after.trace) + Download(digest, payload)
  {
    ServerFacts.StoreFileEffect(c, digest, name, size);
    ServerFacts.StoreOutcome(c, digest, name, size);
    ServerFacts.RetrieveReplies(Store(c, digest, name, size).after, digest, name);
  }

  /** A second store of a name that was stored successfully is rejected as
      already existing, reads nothing and leaves the stored file as it is. */
  lemma StoreTwiceRejected(c: Conn, digest: Bytes -> Bytes, name: string, size: uint64, size2: uint64)
    requires c.fs.Valid() && Store(c, digest, name, size).outcome == Done
    ensures var r := Store(c, digest, name, size);
      var again := Store(r.after, digest, name, size2);
      && again.outcome == Failed(OpenFailed(AlreadyExists))
      && again.after.fs == r.after.fs && again.after.inbox == r.after.inbox
  {
    ServerFacts.StoreFileEffect(c, digest, name, size);
    ServerFacts.StoreOutcome(c, digest, name, size);
  }

  /** An upload whose digest does not match the content leaves the server's
      file system as it was and draws the mismatch reply. */
  lemma CorruptUploadDiscarded(c: Conn, digest: Bytes -> Bytes, name: string, content: Bytes, sum: Bytes, rest: seq<Item>)
    requires c.fs.Valid() && CreateExcl(c.fs, name).Ok? && |content| <= MaxFileSize && sum != digest(content)
    ensures var r := Store(c.(inbox := Raws(content) + [Frame(Checksum(sum))] + rest), digest, name, |content| as uint64);
      && r.outcome == Failed(ChecksumMismatch)
      && r.after.fs == c.fs && r.after.inbox == rest
      && Sent(r.after.trace) == Sent(c.trace) + [ReadyFrame(), MismatchFrame()]
  {
    var tail := [Frame(Checksum(sum))] + rest;
    assert Raws(content) + [Frame(Checksum(sum))] + rest == Raws(content) + tail;
    ReadRawExact(content, tail, |content|);
    var d := c.(inbox := Raws(content) + tail);
    assert CopyCount(|content| as uint64) == |content|;
    var copied := Conn(CreateExcl(c.fs, name).value.(files := c.fs.files[name := content]), tail,
                       c.trace + [Out(ReadyFrame())] + Ins(Raws(content)));
    assert Store(d, digest, name, |content| as uint64) == StoreVerdict(copied, name, digest(content));
    ServerFacts.StoreFileEffect(d, digest, name, |content| as uint64);
    ServerFacts.StoreTrace(d, digest, name, |content| as uint64);
  }
}
