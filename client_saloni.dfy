/** client/client_saloni.go: the client's put and get exchanges, first as
    reference definitions over one endpoint, then as the methods that carry
    them out step by step on the local disk and the connection. */
module ClientSaloni {
  import opened FileSystem
  import opened Messages
  import opened Exchange

  /** put(fileName): stat, the storage request, the server's go-ahead, the
      content and its digest, and the server's verdict. The local disk is only
      read. */
  function Put(c: Conn, digest: Bytes -> Bytes, name: string): (r: ExchangeResult)
    requires c.fs.Valid()
    ensures r.after.fs == c.fs && |r.after.inbox| <= |c.inbox|
  {
    match StatFile(c.fs, name)
    case Err(e) => ExchangeResult(c, Failed(StatFailed(e)))
    case Ok(size) =>
      var answer := ReceiveFrom(c.inbox);
      var granted := c.(inbox := answer.rest,
                        trace := c.trace + [Out(Frame(StorageReq(StorageRequest(name, size as uint64))))] + Consumed(c.inbox));
      if !ResponseOk(answer) then ExchangeResult(granted, Failed(ServerRejected))
      else
        match ReadFile(c.fs, name)
        case Err(e) => ExchangeResult(granted, Failed(OpenFailed(e)))
        case Ok(content) =>
          var verdict := ReceiveFrom(granted.inbox);
          var after := granted.(inbox := verdict.rest,
                                trace := granted.trace + Outs(Raws(content)) + [Out(Frame(Checksum(digest(content))))]
                                         + Consumed(granted.inbox));
          ExchangeResult(after, if ResponseOk(verdict) then Done else Failed(VerificationFailed))
  }

  /** get(fileName): exclusive local create, the retrieval request, the
      server's answer with the size, the payload and the server's digest. */
  function Get(c: Conn, digest: Bytes -> Bytes, name: string): (r: ExchangeResult)
    requires c.fs.Valid()
    ensures r.after.fs.Valid() && r.after.fs.denied == c.fs.denied && |r.after.inbox| <= |c.inbox|
  {
    match CreateExcl(c.fs, name)
    case Err(e) => ExchangeResult(c, Failed(OpenFailed(e)))
    case Ok(created) =>
      WriteKeepsValid(c.fs, name, []);
      var answer := ReceiveFrom(c.inbox);
      var answered := Conn(created, answer.rest, c.trace + [Out(Frame(RetrievalReq(RetrievalRequest(name))))] + Consumed(c.inbox));
      if !RetrievalOk(answer) then ExchangeResult(answered, Failed(ServerRejected))
      else GetPayload(answered, digest, name, CopyCount(answer.env.retrievalResp.size))
  }

  /** The middle of get, once the empty local file exists and the server
      accepted: the payload read of n bytes into it. */
  function GetPayload(c: Conn, digest: Bytes -> Bytes, name: string, n: nat): (r: ExchangeResult)
    requires c.fs.Valid() && name != "" && n <= MaxFileSize
    ensures r.after.fs.Valid() && r.after.fs.denied == c.fs.denied && |r.after.inbox| <= |c.inbox|
  {
    var copy := ReadRaw(c.inbox, n);
    WriteKeepsValid(c.fs, name, copy.bytes);
    var copied := Conn(c.fs.(files := c.fs.files[name := copy.bytes]), copy.rest, c.trace + Ins(Raws(copy.bytes)));
    if !copy.complete then ExchangeResult(copied, Failed(ShortRead))
    else GetVerdict(copied, name, digest(copy.bytes))
  }

  /** The end of get: the server's checksum against the digest `sum` of what
      was written. A receive error is not checked, so it fails like any other
      envelope that is not a checksum. */
  function GetVerdict(c: Conn, name: string, sum: Bytes): (r: ExchangeResult)
    requires c.fs.Valid()
    ensures r.after.fs.Valid() && r.after.fs.denied == c.fs.denied
    ensures r.after.inbox == ReceiveFrom(c.inbox).rest && |r.after.inbox| + 1 >= |c.inbox|
  {
    var check := ReceiveFrom(c.inbox);
    var received := c.(inbox := check.rest, trace := c.trace + Consumed(c.inbox));
    RemoveKeepsValid(c.fs, name);
    if check.NoMessage? || !check.env.Checksum? then ExchangeResult(received, Panicked)
    else if check.env.checksum == sum then ExchangeResult(received, Done)
    else ExchangeResult(received.(fs := RemoveFile(c.fs, name)), Failed(ChecksumMismatch))
  }

  /** put */
  method PutFile(h: MessageHandler, disk: Disk, digest: Bytes -> Bytes, fileName: string) returns (outcome: Outcome)
    requires disk.fs.Valid()
    modifies h
    ensures var r := Put(Conn(disk.fs, old(h.inbox), old(h.trace)), digest, fileName);
      h.inbox == r.after.inbox && h.trace == r.after.trace && outcome == r.outcome
  {
    var info := disk.Stat(fileName);
    if info.Err? {
      return Failed(StatFailed(info.error));
    }
    h.SendStorageRequest(fileName, info.value as uint64);
    var ok := h.ReceiveResponse();
    if !ok {
      return Failed(ServerRejected);
    }
    var file := disk.Open(fileName);
    if file.Err? {
      return Failed(OpenFailed(file.error));
    }
    StreamOut(h, file.value);
    h.SendChecksumVerification(digest(file.value));
    ok := h.ReceiveResponse();
    if !ok {
      return Failed(VerificationFailed);
    }
    return Done;
  }

  /** get */
  method GetFile(h: MessageHandler, disk: Disk, digest: Bytes -> Bytes, fileName: string) returns (outcome: Outcome)
    requires disk.fs.Valid()
    modifies h, disk
    ensures var r := Get(Conn(old(disk.fs), old(h.inbox), old(h.trace)), digest, fileName);
      Conn(disk.fs, h.inbox, h.trace) == r.after && outcome == r.outcome
  {
    ghost var fs0 := disk.fs;
    var created, err := disk.OpenExclusive(fileName);
    if !created {
      return Failed(OpenFailed(err));
    }
    WriteKeepsValid(fs0, fileName, []);
    h.SendRetrievalRequest(fileName);
    var ok, size := h.ReceiveRetrievalResponse();
    if !ok {
      return Failed(ServerRejected);
    }
    outcome := DownloadPayload(h, disk, digest, fileName, CopyCount(size));
  }

  /** The payload part of get: copy n bytes into the empty local file, then
      check the server's digest; only a mismatch removes the file. */
  method DownloadPayload(h: MessageHandler, disk: Disk, digest: Bytes -> Bytes, fileName: string, n: nat)
    returns (outcome: Outcome)
    requires disk.fs.Valid() && fileName in disk.fs.files && disk.fs.files[fileName] == [] && n <= MaxFileSize
    modifies h, disk
    ensures var r := GetPayload(Conn(old(disk.fs), old(h.inbox), old(h.trace)), digest, fileName, n);
      Conn(disk.fs, h.inbox, h.trace) == r.after && outcome == r.outcome
  {
    ghost var fs0 := disk.fs;
    var complete, hashed := CopyToFile(h, disk, fileName, n);
    assert [] + hashed == hashed;
    WriteKeepsValid(fs0, fileName, hashed);
    if !complete {
      return Failed(ShortRead);
    }
    var checkMsg := h.Receive();
    if checkMsg.NoMessage? || !checkMsg.env.Checksum? {
      // the receive error is discarded; GetChecksum() is then nil and reading its field panics
      return Panicked;
    }
    if checkMsg.env.checksum == digest(hashed) {
      return Done;
    }
    disk.Remove(fileName);
    return Failed(ChecksumMismatch);
  }
}
