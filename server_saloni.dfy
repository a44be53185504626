/** server/server_saloni.go: the server's store and retrieve handlers and its
    per-connection dispatch loop, storing files under the requested name. */
module ServerSaloni {
  import opened FileSystem
  import opened Messages
  import opened Exchange

  /** handleStorage: exclusive create, "Ready for data", exactly the declared
      number of payload bytes, the trailing checksum, and the final reply. */
  method HandleStorage(h: MessageHandler, disk: Disk, digest: Bytes -> Bytes, request: StorageRequest)
    returns (outcome: Outcome)
    requires disk.fs.Valid()
    modifies h, disk
    ensures var r := Store(Conn(old(disk.fs), old(h.inbox), old(h.trace)), digest, request.fileName, request.size);
      Conn(disk.fs, h.inbox, h.trace) == r.after && outcome == r.outcome
  {
    var fileName := request.fileName;
    ghost var fs0 := disk.fs;
    var created, err := disk.OpenExclusive(fileName);
    if !created {
      h.SendResponse(false, OsErrorText(err));
      return Failed(OpenFailed(err));
    }
    WriteKeepsValid(fs0, fileName, []);
    h.SendResponse(true, Fixed(ReadyForData));
    outcome := ReceivePayload(h, disk, digest, fileName, CopyCount(request.size));
  }

  /** The payload part of handleStorage, once the empty file exists: copy n
      bytes into it, remove it if the stream ends early, else check the digest. */
  method ReceivePayload(h: MessageHandler, disk: Disk, digest: Bytes -> Bytes, fileName: string, n: nat)
    returns (outcome: Outcome)
    requires disk.fs.Valid() && fileName in disk.fs.files && disk.fs.files[fileName] == [] && n <= MaxFileSize
    modifies h, disk
    ensures var r := StorePayload(old(disk.fs), old(h.inbox), old(h.trace), digest, fileName, n);
      Conn(disk.fs, h.inbox, h.trace) == r.after && outcome == r.outcome
  {
    ghost var fs0 := disk.fs;
    var complete, hashed := CopyToFile(h, disk, fileName, n);
    assert [] + hashed == hashed;
    WriteKeepsValid(fs0, fileName, hashed);
    if !complete {
      disk.Remove(fileName);
      return Failed(ShortRead);
    }
    outcome := FinishStorage(h, disk, digest, fileName, hashed);
  }

  /** The end of handleStorage: receive the trailing checksum, compare it with
      the digest of the bytes written, remove the file unless they agree, and
      reply. */
  method FinishStorage(h: MessageHandler, disk: Disk, digest: Bytes -> Bytes, fileName: string, hashed: Bytes)
    returns (outcome: Outcome)
    requires disk.fs.Valid()
    modifies h, disk
    ensures var r := StoreVerdict(Conn(old(disk.fs), old(h.inbox), old(h.trace)), fileName, digest(hashed));
      Conn(disk.fs, h.inbox, h.trace) == r.after && outcome == r.outcome
  {
    var clientCheckMsg := h.Receive();
    if clientCheckMsg.NoMessage? {
      disk.Remove(fileName);
      return Failed(ChecksumNotReceived);
    }
    if !clientCheckMsg.env.Checksum? {
      // GetChecksum() is nil for any other envelope: reading its field panics
      return Panicked;
    }
    if digest(hashed) != clientCheckMsg.env.checksum {
      disk.Remove(fileName);
      h.SendResponse(false, Fixed(MismatchMessage));
      return Failed(ChecksumMismatch);
    }
    h.SendResponse(true, Fixed(StoredSuccessfully));
    return Done;
  }

  /** handleRetrieval: stat, open, "Ready to send" with the size, the content,
      then its digest. */
  method HandleRetrieval(h: MessageHandler, disk: Disk, digest: Bytes -> Bytes, request: RetrievalRequest)
    returns (outcome: Outcome)
    requires disk.fs.Valid()
    modifies h
    ensures var r := Retrieve(Conn(disk.fs, old(h.inbox), old(h.trace)), digest, request.fileName);
      h.inbox == r.after.inbox && h.trace == r.after.trace && outcome == r.outcome
  {
    var info := disk.Stat(request.fileName);
    if info.Err? {
      h.SendRetrievalResponse(false, OsErrorText(info.error), 0);
      return Failed(StatFailed(info.error));
    }
    var file := disk.Open(request.fileName);
    if file.Err? {
      h.SendRetrievalResponse(false, OsErrorText(file.error), 0);
      return Failed(OpenFailed(file.error));
    }
    h.SendRetrievalResponse(true, Fixed(ReadyToSend), info.value as uint64);
    StreamOut(h, file.value);
    h.SendChecksumVerification(digest(file.value));
    return Done;
  }

  /** handleClient: receive and dispatch envelopes until a receive fails or an
      empty envelope arrives; failed exchanges and unexpected envelopes do not
      end the loop. */
  method HandleClient(h: MessageHandler, disk: Disk, digest: Bytes -> Bytes) returns (stop: StopReason)
    requires disk.fs.Valid()
    modifies h, disk
    ensures var s := Serve(Conn(old(disk.fs), old(h.inbox), old(h.trace)), digest, false);
      disk.fs == s.final.fs && h.inbox == s.final.inbox && h.trace == s.final.trace && stop == s.stop
  {
    ghost var start := Conn(disk.fs, h.inbox, h.trace);
    while true
      invariant disk.fs.Valid()
      invariant Serve(Conn(disk.fs, h.inbox, h.trace), digest, false) == Serve(start, digest, false)
      decreases |h.inbox|
    {
      ghost var c := Conn(disk.fs, h.inbox, h.trace);
      var wrapper := h.Receive();
      if wrapper.NoMessage? {
        return ReceiveFailed(wrapper.err);
      }
      match wrapper.env
      case StorageReq(req) =>
        var outcome := HandleStorage(h, disk, digest, req);
        if outcome.Panicked? {
          return HandlerPanicked;
        }
      case RetrievalReq(req) =>
        var _ := HandleRetrieval(h, disk, digest, req);
      case Empty =>
        return EmptyEnvelope;
      case _ =>
        assert Step(c, digest, false).Continue? && Step(c, digest, false).next == Conn(disk.fs, h.inbox, h.trace);
    }
  }
}
