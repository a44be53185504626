/** What the client's put and get guarantee, stated over their reference
    definitions. */
module ClientFacts {
  import opened FileSystem
  import opened Messages
  import opened Exchange
  import opened ClientSaloni

  /** put only appends to the trace and reads a prefix of the stream. A failed
      stat sends and reads nothing. Otherwise it sends the storage request
      with the file's size, and the content followed by its digest only once
      the server has accepted and the file could be opened. */
  lemma PutTrace(c: Conn, digest: Bytes -> Bytes, name: string)
    requires c.fs.Valid()
    ensures var r := Put(c, digest, name);
      && c.trace <= r.after.trace
      && Received(r.after.trace) + r.after.inbox == Received(c.trace) + c.inbox
      && (name !in c.fs.files ==> r.after == c && r.outcome == Failed(StatFailed(NotFound)))
      && (name in c.fs.files ==>
            var content := c.fs.files[name];
            var request := Frame(StorageReq(StorageRequest(name, |content| as uint64)));
            Sent(r.after.trace) == Sent(c.trace) +
              (if r.outcome == Done || r.outcome == Failed(VerificationFailed)
               then [request] + Raws(content) + [Frame(Checksum(digest(content)))]
               else [request]))
  {
    if name in c.fs.files {
      var content := c.fs.files[name];
      var request := Frame(StorageReq(StorageRequest(name, |content| as uint64)));
      var t1 := c.trace + [Out(request)];
      var t2 := t1 + Consumed(c.inbox);
      TraceAfterOut(c.trace, request);
      TraceAfterConsumed(t1, c.inbox);
      assert c.trace <= t1 <= t2;
      var rest := ReceiveFrom(c.inbox).rest;
      if ResponseOk(ReceiveFrom(c.inbox)) && name !in c.fs.denied {
        var t3 := t2 + Outs(Raws(content));
        var t4 := t3 + [Out(Frame(Checksum(digest(content))))];
        TraceAfterOuts(t2, Raws(content));
        TraceAfterOut(t3, Frame(Checksum(digest(content))));
        TraceAfterConsumed(t4, rest);
        assert t2 <= t3 <= t4 <= t4 + Consumed(rest);
        var upload := [request] + Raws(content) + [Frame(Checksum(digest(content)))];
        assert Sent(c.trace) + [request] + Raws(content) + [Frame(Checksum(digest(content)))] == Sent(c.trace) + upload;
        assert Sent(t4 + Consumed(rest)) == Sent(c.trace) + upload;
      } else {
        assert Put(c, digest, name).after.trace == t2;
      }
    }
  }

  /** Once the file exists, put's first two acts are sending the storage
      request and reading the server's answer; the content and the digest
      can only come after that answer. */
  lemma PutOrder(c: Conn, digest: Bytes -> Bytes, name: string)
    requires c.fs.Valid() && name in c.fs.files && c.inbox != []
    ensures var r := Put(c, digest, name);
      var request := Frame(StorageReq(StorageRequest(name, |c.fs.files[name]| as uint64)));
      |r.after.trace| >= |c.trace| + 2 && r.after.trace[..|c.trace| + 2] == c.trace + [Out(request), In(c.inbox[0])]
  {
    var request := Frame(StorageReq(StorageRequest(name, |c.fs.files[name]| as uint64)));
    var t2 := c.trace + [Out(request)] + Consumed(c.inbox);
    assert t2 == c.trace + [Out(request), In(c.inbox[0])];
    var r := Put(c, digest, name);
    if ResponseOk(ReceiveFrom(c.inbox)) && name !in c.fs.denied {
      var content := c.fs.files[name];
      var rest := ReceiveFrom(c.inbox).rest;
      assert r.after.trace == t2 + (Outs(Raws(content)) + [Out(Frame(Checksum(digest(content))))] + Consumed(rest));
    } else {
      assert r.after.trace == t2;
    }
  }

  /** How put ends, in terms of its inputs: the stat, the first reply, the open
      and the second reply decide it in that order. */
  lemma PutOutcome(c: Conn, digest: Bytes -> Bytes, name: string)
    requires c.fs.Valid()
    ensures var r := Put(c, digest, name);
      var accepted := ResponseOk(ReceiveFrom(c.inbox));
      var verified := accepted && ResponseOk(ReceiveFrom(ReceiveFrom(c.inbox).rest));
      && (r.outcome == Failed(StatFailed(NotFound)) <==> name !in c.fs.files)
      && (r.outcome == Failed(ServerRejected) <==> name in c.fs.files && !accepted)
      && (r.outcome == Failed(OpenFailed(PermissionDenied)) <==> name in c.fs.files && accepted && name in c.fs.denied)
      && (r.outcome == Failed(VerificationFailed) <==>
            name in c.fs.files && accepted && name !in c.fs.denied && !verified)
      && (r.outcome == Done <==>
            name in c.fs.files && name !in c.fs.denied && verified)
  {
    if |c.inbox| >= 1 && c.inbox[0].Frame? {
      assert ReceiveFrom(c.inbox).rest == c.inbox[1..];
      if |c.inbox| >= 2 {
        assert c.inbox[1..][0] == c.inbox[1];
      }
    }
  }

  /** get's effect on the local disk. A failed create changes nothing and
      sends nothing. Otherwise the new file stays behind empty when the
      server rejects; it holds the bytes read after a short read, a panic or
      success; and only a checksum mismatch removes it. */
  lemma GetFileEffect(c: Conn, digest: Bytes -> Bytes, name: string)
    requires c.fs.Valid()
    ensures var r := Get(c, digest, name);
      && (r.outcome.Failed? && r.outcome.failure.OpenFailed? <==> CreateExcl(c.fs, name).Err?)
      && (CreateExcl(c.fs, name).Err? ==> r.after == c)
      && (r.outcome == Failed(ServerRejected) ==>
            name !in c.fs.files && r.after.fs == c.fs.(files := c.fs.files[name := []]))
      && (r.outcome == Failed(ChecksumMismatch) ==> name !in c.fs.files && r.after.fs == c.fs)
      && (r.outcome == Done || r.outcome == Failed(ShortRead) || r.outcome == Panicked ==>
            && name !in c.fs.files && RetrievalOk(ReceiveFrom(c.inbox))
            && var payload := ReadRaw(c.inbox[1..], CopyCount(c.inbox[0].env.retrievalResp.size)).bytes;
               r.after.fs == c.fs.(files := c.fs.files[name := payload]))
  {
    if CreateExcl(c.fs, name).Ok? && RetrievalOk(ReceiveFrom(c.inbox)) {
      var n := CopyCount(c.inbox[0].env.retrievalResp.size);
      var copy := ReadRaw(c.inbox[1..], n);
      var created := CreateExcl(c.fs, name).value;
      assert created.files[name := copy.bytes] == c.fs.files[name := copy.bytes];
      RemoveFresh(c.fs, name, copy.bytes);
    }
  }

  /** get only appends to the trace and reads a prefix of the stream; unless
      the create fails, it sends exactly the retrieval request. */
  lemma GetTrace(c: Conn, digest: Bytes -> Bytes, name: string)
    requires c.fs.Valid()
    ensures var r := Get(c, digest, name);
      && c.trace <= r.after.trace
      && Received(r.after.trace) + r.after.inbox == Received(c.trace) + c.inbox
      && Sent(r.after.trace) == Sent(c.trace) +
           (if CreateExcl(c.fs, name).Err? then [] else [Frame(RetrievalReq(RetrievalRequest(name)))])
  {
    if CreateExcl(c.fs, name).Ok? {
      var request := Frame(RetrievalReq(RetrievalRequest(name)));
      var t1 := c.trace + [Out(request)];
      var t2 := t1 + Consumed(c.inbox);
      TraceAfterOut(c.trace, request);
      TraceAfterConsumed(t1, c.inbox);
      assert c.trace <= t1 <= t2;
      var answer := ReceiveFrom(c.inbox);
      if RetrievalOk(answer) {
        WriteKeepsValid(c.fs, name, []);
        var created := CreateExcl(c.fs, name).value;
        DownloadTrace(Conn(created, answer.rest, t2), digest, name, CopyCount(answer.env.retrievalResp.size));
      }
    }
  }

  /** Exactly what get leaves of the inbound stream: all of it when the
      create fails; what follows the server's answer when that is not an ok
      retrieval response; otherwise what follows the announced raw bytes,
      less the one item the checksum receive takes when they all arrived. */
  lemma GetConsumes(c: Conn, digest: Bytes -> Bytes, name: string)
    requires c.fs.Valid()
    ensures var answer := ReceiveFrom(c.inbox);
      Get(c, digest, name).after.inbox ==
        if CreateExcl(c.fs, name).Err? then c.inbox
        else if !RetrievalOk(answer) then answer.rest
        else
          var copy := ReadRaw(answer.rest, CopyCount(answer.env.retrievalResp.size));
          if copy.complete then ReceiveFrom(copy.rest).rest else copy.rest
  {
  }

  /** The payload part of get reads a prefix of the stream and sends nothing. */
  lemma DownloadTrace(c: Conn, digest: Bytes -> Bytes, name: string, n: nat)
    requires c.fs.Valid() && name != "" && n <= MaxFileSize
    ensures var r := GetPayload(c, digest, name, n);
      && c.trace <= r.after.trace
      && Received(r.after.trace) + r.after.inbox == Received(c.trace) + c.inbox
      && Sent(r.after.trace) == Sent(c.trace)
  {
    var copy := ReadRaw(c.inbox, n);
    var t2 := c.trace + Ins(Raws(copy.bytes));
    TraceAfterIns(c.trace, Raws(copy.bytes));
    assert Received(c.trace) + c.inbox == Received(t2) + copy.rest;
    TraceAfterConsumed(t2, copy.rest);
    assert c.trace <= t2 <= t2 + Consumed(copy.rest);
  }

  /** How the payload part of get ends: the number of raw bytes that arrive
      decides ShortRead, then the item right after them decides between a
      panic, a mismatch and success. */
  lemma PayloadOutcome(c: Conn, digest: Bytes -> Bytes, name: string, n: nat)
    requires c.fs.Valid() && name != "" && n <= MaxFileSize
    ensures var r := GetPayload(c, digest, name, n);
      var payload := ReadRaw(c.inbox, n).bytes;
      && (r.outcome == Failed(ShortRead) <==> |payload| < n)
      && (r.outcome == Panicked <==>
            |payload| == n && (n == |c.inbox| || !c.inbox[n].Frame? || !c.inbox[n].env.Checksum?))
      && (r.outcome == Failed(ChecksumMismatch) <==>
            |payload| == n && n < |c.inbox| && c.inbox[n].Frame? && c.inbox[n].env.Checksum?
            && c.inbox[n].env.checksum != digest(payload))
      && (r.outcome == Done <==> |payload| == n && n < |c.inbox| && c.inbox[n] == Frame(Checksum(digest(payload))))
      && (r.outcome == Done || r.outcome == Panicked || r.outcome == Failed(ShortRead) || r.outcome == Failed(ChecksumMismatch))
  {
    var copy := ReadRaw(c.inbox, n);
    assert c.inbox == Raws(copy.bytes) + copy.rest;
    if copy.rest != [] {
      assert c.inbox[|copy.bytes|] == copy.rest[0];
    }
  }

  /** How get ends, in terms of its inputs: the local create decides
      OpenFailed; then the server's answer decides ServerRejected; then the
      number of raw bytes that arrive decides ShortRead; then the item right
      after the payload decides between a panic, a mismatch and success. No
      other outcome is possible. */
  lemma GetOutcome(c: Conn, digest: Bytes -> Bytes, name: string)
    requires c.fs.Valid()
    ensures var r := Get(c, digest, name);
      var created := CreateExcl(c.fs, name).Ok?;
      var accepted := RetrievalOk(ReceiveFrom(c.inbox));
      && (r.outcome.Failed? && r.outcome.failure.OpenFailed? <==> !created)
      && (r.outcome == Failed(ServerRejected) <==> created && !accepted)
      && (created && accepted ==>
            var n := CopyCount(c.inbox[0].env.retrievalResp.size);
            var payload := ReadRaw(c.inbox[1..], n).bytes;
            && (r.outcome == Failed(ShortRead) <==> |payload| < n)
            && (r.outcome == Panicked <==>
                  |payload| == n && (n + 1 == |c.inbox| || !c.inbox[n + 1].Frame? || !c.inbox[n + 1].env.Checksum?))
            && (r.outcome == Failed(ChecksumMismatch) <==>
                  |payload| == n && n + 1 < |c.inbox| && c.inbox[n + 1].Frame? && c.inbox[n + 1].env.Checksum?
                  && c.inbox[n + 1].env.checksum != digest(payload))
            && (r.outcome == Done <==>
                  |payload| == n && n + 1 < |c.inbox| && c.inbox[n + 1] == Frame(Checksum(digest(payload)))))
      && (r.outcome == Done || r.outcome == Panicked || r.outcome.failure.OpenFailed?
          || r.outcome.failure == ServerRejected || r.outcome.failure == ShortRead
          || r.outcome.failure == ChecksumMismatch)
  {
    if CreateExcl(c.fs, name).Ok? && RetrievalOk(ReceiveFrom(c.inbox)) {
      var n := CopyCount(c.inbox[0].env.retrievalResp.size);
      WriteKeepsValid(c.fs, name, []);
      var created := CreateExcl(c.fs, name).value;
      var answered := Conn(created, c.inbox[1..], c.trace + [Out(Frame(RetrievalReq(RetrievalRequest(name))))] + Consumed(c.inbox));
      assert Get(c, digest, name) == GetPayload(answered, digest, name, n);
      PayloadOutcome(answered, digest, name, n);
      assert forall k :: 0 <= k < |c.inbox| - 1 ==> c.inbox[1..][k] == c.inbox[k + 1];
    }
  }
}
