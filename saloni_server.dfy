/** server/saloni_server.go: the second server variant. Its store handler keeps
    only the last '/'-separated component of the requested name; from there
    on, and in retrieval, it does what the first variant does. */
module SaloniServer {
  import opened FileSystem
  import opened Messages
  import opened Exchange
  import Names
  import ServerSaloni

  /** handleStorage on the basename of the requested name. */
  method HandleStorage(h: MessageHandler, disk: Disk, digest: Bytes -> Bytes, request: StorageRequest)
    returns (outcome: Outcome)
    requires disk.fs.Valid()
    modifies h, disk
    ensures var r := Store(Conn(old(disk.fs), old(h.inbox), old(h.trace)), digest, Names.Basename(request.fileName), request.size);
      Conn(disk.fs, h.inbox, h.trace) == r.after && outcome == r.outcome
  {
    var splitList := Names.Split(request.fileName, '/');
    var fileName := splitList[|splitList| - 1];
    outcome := ServerSaloni.HandleStorage(h, disk, digest, StorageRequest(fileName, request.size));
  }

  /** handleRetrieval, unchanged from the first variant. */
  method HandleRetrieval(h: MessageHandler, disk: Disk, digest: Bytes -> Bytes, request: RetrievalRequest)
    returns (outcome: Outcome)
    requires disk.fs.Valid()
    modifies h
    ensures var r := Retrieve(Conn(disk.fs, old(h.inbox), old(h.trace)), digest, request.fileName);
      h.inbox == r.after.inbox && h.trace == r.after.trace && outcome == r.outcome
  {
    outcome := ServerSaloni.HandleRetrieval(h, disk, digest, request);
  }

  /** handleClient: the dispatch loop of the first variant, storing under
      basenames. */
  method HandleClient(h: MessageHandler, disk: Disk, digest: Bytes -> Bytes) returns (stop: StopReason)
    requires disk.fs.Valid()
    modifies h, disk
    ensures var s := Serve(Conn(old(disk.fs), old(h.inbox), old(h.trace)), digest, true);
      disk.fs == s.final.fs && h.inbox == s.final.inbox && h.trace == s.final.trace && stop == s.stop
  {
    ghost var start := Conn(disk.fs, h.inbox, h.trace);
    while true
      invariant disk.fs.Valid()
      invariant Serve(Conn(disk.fs, h.inbox, h.trace), digest, true) == Serve(start, digest, true)
      decreases |h.inbox|
    {
      ghost var c := Conn(disk.fs, h.inbox, h.trace);
      var wrapper := h.Receive();
      if wrapper.NoMessage? {
        return ReceiveFailed(wrapper.err);
      }
      match wrapper.env
      case StorageReq(req) =>
        var outcome := HandleStorage(h, disk, digest, req);
        if outcome.Panicked? {
          return HandlerPanicked;
        }
      case RetrievalReq(req) =>
        var _ := HandleRetrieval(h, disk, digest, req);
      case Empty =>
        return EmptyEnvelope;
      case _ =>
        assert Step(c, digest, true).Continue? && Step(c, digest, true).next == Conn(disk.fs, h.inbox, h.trace);
    }
  }
}
