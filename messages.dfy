/** The protocol's messages and the channel that carries them.

    A connection is seen from one endpoint as an inbound sequence of items
    (raw payload bytes and framed envelopes) still to be read, and a trace of
    events: every item read (In) and every item sent (Out), in the order the
    endpoint performed them. The length-prefixed framing and the protobuf
    encoding are abstracted away: a framed envelope is one item. */
module Messages {
  import opened FileSystem

  newtype uint64 = x: int | 0 <= x < 0x1_0000_0000_0000_0000

  /** A message text: one of the fixed literals, or the text of an OS error. */
  datatype Text = Fixed(s: string) | OsErrorText(e: FsError)

  datatype StorageRequest = StorageRequest(fileName: string, size: uint64)
  datatype RetrievalRequest = RetrievalRequest(fileName: string)
  datatype Response = Response(ok: bool, message: Text)
  datatype RetrievalResponse = RetrievalResponse(ok: bool, message: Text, size: uint64)

  /** The wrapper: exactly one variant, or none at all. */
  datatype Envelope =
    | StorageReq(storageReq: StorageRequest)
    | RetrievalReq(retrievalReq: RetrievalRequest)
    | Resp(response: Response)
    | RetrievalResp(retrievalResp: RetrievalResponse)
    | Checksum(checksum: Bytes)
    | Empty

  /** Garbled: a frame that cannot be decoded into any envelope. */
  datatype Item = Raw(b: byte) | Frame(env: Envelope) | Garbled

  datatype Event = In(item: Item) | Out(item: Item)

  function Raws(s: Bytes): (items: seq<Item>)
  {
    seq(|s|, i requires 0 <= i < |s| => Raw(s[i]))
  }

  function Ins(items: seq<Item>): (events: seq<Event>)
  {
    seq(|items|, i requires 0 <= i < |items| => In(items[i]))
  }

  function Outs(items: seq<Item>): (events: seq<Event>)
  {
    seq(|items|, i requires 0 <= i < |items| => Out(items[i]))
  }

  /** The items an endpoint sent, in order. */
  function Sent(trace: seq<Event>): (items: seq<Item>)
  {
    if trace == [] then []
    else (if trace[0].Out? then [trace[0].item] else []) + Sent(trace[1..])
  }

  /** The items an endpoint read, in order. */
  function Received(trace: seq<Event>): (items: seq<Item>)
  {
    if trace == [] then []
    else (if trace[0].In? then [trace[0].item] else []) + Received(trace[1..])
  }

  lemma {:induction false} SentAppend(a: seq<Event>, b: seq<Event>)
    ensures Sent(a + b) == Sent(a) + Sent(b)
  {
    if a == [] {
      assert a + b == b;
    } else {
      assert (a + b)[0] == a[0];
      assert (a + b)[1..] == a[1..] + b;
      SentAppend(a[1..], b);
      var head := if a[0].Out? then [a[0].item] else [];
      assert Sent(a + b) == head + Sent(a[1..] + b);
      assert Sent(a) == head + Sent(a[1..]);
    }
  }

  lemma {:induction false} ReceivedAppend(a: seq<Event>, b: seq<Event>)
    ensures Received(a + b) == Received(a) + Received(b)
  {
    if a == [] {
      assert a + b == b;
    } else {
      assert (a + b)[0] == a[0];
      assert (a + b)[1..] == a[1..] + b;
      ReceivedAppend(a[1..], b);
      var head := if a[0].In? then [a[0].item] else [];
      assert Received(a + b) == head + Received(a[1..] + b);
      assert Received(a) == head + Received(a[1..]);
    }
  }

  lemma {:induction false} SentOfIns(items: seq<Item>)
    ensures Sent(Ins(items)) == [] && Received(Ins(items)) == items
  {
    if items != [] {
      assert Ins(items)[1..] == Ins(items[1..]);
      SentOfIns(items[1..]);
    }
  }

  lemma {:induction false} SentOfOuts(items: seq<Item>)
    ensures Sent(Outs(items)) == items && Received(Outs(items)) == []
  {
    if items != [] {
      assert Outs(items)[1..] == Outs(items[1..]);
      SentOfOuts(items[1..]);
    }
  }

  lemma RawsAppend(a: Bytes, b: Bytes)
    ensures Raws(a + b) == Raws(a) + Raws(b)
  {
  }

  lemma InsOutsAppend(a: seq<Item>, b: seq<Item>)
    ensures Ins(a + b) == Ins(a) + Ins(b) && Outs(a + b) == Outs(a) + Outs(b)
  {
  }

  /** Sending one item adds it to what was sent and to nothing else. */
  lemma TraceAfterOut(t: seq<Event>, x: Item)
    ensures Sent(t + [Out(x)]) == Sent(t) + [x] && Received(t + [Out(x)]) == Received(t)
  {
    SentAppend(t, [Out(x)]);
    ReceivedAppend(t, [Out(x)]);
  }

  /** Sending items adds them to what was sent and to nothing else. */
  lemma TraceAfterOuts(t: seq<Event>, items: seq<Item>)
    ensures Sent(t + Outs(items)) == Sent(t) + items && Received(t + Outs(items)) == Received(t)
  {
    SentAppend(t, Outs(items));
    ReceivedAppend(t, Outs(items));
    SentOfOuts(items);
  }

  /** Reading items adds them to what was received and to nothing else. */
  lemma TraceAfterIns(t: seq<Event>, items: seq<Item>)
    ensures Sent(t + Ins(items)) == Sent(t) && Received(t + Ins(items)) == Received(t) + items
  {
    SentAppend(t, Ins(items));
    ReceivedAppend(t, Ins(items));
    SentOfIns(items);
  }

  /** If an endpoint's trace only grew, and what it received followed by what is
      left is unchanged, then the inbound stream it started from is exactly
      what it read since, followed by what is left. */
  lemma ConservedSuffix(t0: seq<Event>, i0: seq<Item>, t1: seq<Event>, i1: seq<Item>)
    requires t0 <= t1 && Received(t1) + i1 == Received(t0) + i0
    ensures i0 == Received(t1[|t0|..]) + i1
  {
    assert t1 == t0 + t1[|t0|..];
    ReceivedAppend(t0, t1[|t0|..]);
    var x := Received(t0);
    assert x + (Received(t1[|t0|..]) + i1) == x + i0;
    assert (x + (Received(t1[|t0|..]) + i1))[|x|..] == Received(t1[|t0|..]) + i1;
    assert (x + i0)[|x|..] == i0;
  }

  datatype RecvError = EndOfStream | MalformedFrame

  /** What one receive call yields, and the inbound items left after it. */
  datatype Reception = Got(env: Envelope, rest: seq<Item>) | NoMessage(err: RecvError, rest: seq<Item>)

  /** Receive one framed envelope. A closed stream is EndOfStream; an item that
      is not a decodable frame is MalformedFrame and is discarded. */
  function ReceiveFrom(inbox: seq<Item>): (r: Reception)
  {
    if inbox == [] then NoMessage(EndOfStream, [])
    else if inbox[0].Frame? then Got(inbox[0].env, inbox[1..])
    else NoMessage(MalformedFrame, inbox[1..])
  }

  /** The trace events of one receive call: the item read, if there was one. */
  function Consumed(inbox: seq<Item>): (events: seq<Event>)
  {
    if inbox == [] then [] else [In(inbox[0])]
  }

  /** One receive call moves the item it reads from the inbound stream to what
      was received, and sends nothing. */
  lemma TraceAfterConsumed(t: seq<Event>, inbox: seq<Item>)
    ensures Sent(t + Consumed(inbox)) == Sent(t)
    ensures Received(t + Consumed(inbox)) + ReceiveFrom(inbox).rest == Received(t) + inbox
  {
    if inbox == [] {
      assert t + Consumed(inbox) == t;
    } else {
      TraceAfterIns(t, [inbox[0]]);
      assert Consumed(inbox) == Ins([inbox[0]]);
      assert inbox == [inbox[0]] + inbox[1..];
      assert Received(t) + [inbox[0]] + inbox[1..] == Received(t) + inbox;
    }
  }

  /** ReceiveResponse: ok only for a Response frame whose ok flag is set. */
  predicate ResponseOk(r: Reception)
  {
    r.Got? && r.env.Resp? && r.env.response.ok
  }

  /** ReceiveRetrievalResponse: ok only for a RetrievalResponse frame whose ok flag is set. */
  predicate RetrievalOk(r: Reception)
  {
    r.Got? && r.env.RetrievalResp? && r.env.retrievalResp.ok
  }

  /** bytes: what a raw read delivered; rest: the items left;
      complete: whether all the requested bytes arrived. */
  datatype RawRead = RawRead(bytes: Bytes, rest: seq<Item>, complete: bool)

  /** The reading done by io.CopyN(dst, channel, n): take up to n raw bytes; the
      stream ending, or a framed item where raw data was expected, cuts the read short. */
  function ReadRaw(inbox: seq<Item>, n: nat): (r: RawRead)
    ensures inbox == Raws(r.bytes) + r.rest
    ensures |r.bytes| <= n
    ensures r.complete <==> |r.bytes| == n
    ensures !r.complete ==> r.rest == [] || !r.rest[0].Raw?
    decreases n
  {
    if n == 0 then RawRead([], inbox, true)
    else if inbox == [] || !inbox[0].Raw? then RawRead([], inbox, false)
    else
      var tail := ReadRaw(inbox[1..], n - 1);
      assert Raws([inbox[0].b] + tail.bytes) == [inbox[0]] + Raws(tail.bytes);
      RawRead([inbox[0].b] + tail.bytes, tail.rest, tail.complete)
  }

  /** A raw read of n bytes over a stream that starts with `bytes` and then
      cannot go on (or has delivered n already) yields exactly those bytes. */
  lemma {:induction false} ReadRawExact(bytes: Bytes, rest: seq<Item>, n: nat)
    requires |bytes| <= n
    requires |bytes| == n || rest == [] || !rest[0].Raw?
    ensures ReadRaw(Raws(bytes) + rest, n) == RawRead(bytes, rest, |bytes| == n)
  {
    if bytes != [] {
      assert (Raws(bytes) + rest)[1..] == Raws(bytes[1..]) + rest;
      ReadRawExact(bytes[1..], rest, n - 1);
      assert [bytes[0]] + bytes[1..] == bytes;
    }
  }

  /** int64(size) as passed to io.CopyN: a size of 2^63 or more turns negative,
      and io.CopyN with a negative count copies nothing and reports no error. */
  function CopyCount(size: uint64): (n: nat)
    ensures n <= MaxFileSize
    ensures size as int <= MaxFileSize ==> n == size as int
    ensures size as int > MaxFileSize ==> n == 0
  {
    if size as int <= MaxFileSize then size as int else 0
  }

  /** Why an exchange failed, one kind per error return of the handlers. */
  datatype Failure =
    | OpenFailed(e: FsError)     // exclusive create or open refused
    | StatFailed(e: FsError)     // stat refused
    | ShortRead                  // the stream ended before the declared size
    | ChecksumNotReceived        // no trailing checksum frame could be read
    | ChecksumMismatch           // digest and received checksum differ
    | ServerRejected             // the peer's acknowledgement was not ok
    | VerificationFailed         // the peer's final response was not ok

  /** Panicked: the handler dereferenced the checksum of an envelope that is not a
      checksum (a nil pointer in the generated getter) and the process stops. */
  datatype Outcome = Done | Failed(failure: Failure) | Panicked

  /** The message handler of one connection endpoint. */
  class MessageHandler {
    var inbox: seq<Item>
    var trace: seq<Event>

    constructor (inbox: seq<Item>)
      ensures this.inbox == inbox && trace == []
    {
      this.inbox := inbox;
      trace := [];
    }

    method Receive() returns (r: Reception)
      modifies this
      ensures r == ReceiveFrom(old(inbox))
      ensures inbox == r.rest && trace == old(trace) + Consumed(old(inbox))
    {
      r := ReceiveFrom(inbox);
      trace := trace + Consumed(inbox);
      inbox := r.rest;
    }

    /** Send one framed envelope. */
    method Send(env: Envelope)
      modifies this
      ensures inbox == old(inbox) && trace == old(trace) + [Out(Frame(env))]
    {
      trace := trace + [Out(Frame(env))];
    }

    method SendResponse(ok: bool, message: Text)
      modifies this
      ensures inbox == old(inbox) && trace == old(trace) + [Out(Frame(Resp(Response(ok, message))))]
    {
      Send(Resp(Response(ok, message)));
    }

    method SendRetrievalResponse(ok: bool, message: Text, size: uint64)
      modifies this
      ensures inbox == old(inbox)
      ensures trace == old(trace) + [Out(Frame(RetrievalResp(RetrievalResponse(ok, message, size))))]
    {
      Send(RetrievalResp(RetrievalResponse(ok, message, size)));
    }

    method SendChecksumVerification(sum: Bytes)
      modifies this
      ensures inbox == old(inbox) && trace == old(trace) + [Out(Frame(Checksum(sum)))]
    {
      Send(Checksum(sum));
    }

    method SendStorageRequest(fileName: string, size: uint64)
      modifies this
      ensures inbox == old(inbox)
      ensures trace == old(trace) + [Out(Frame(StorageReq(StorageRequest(fileName, size))))]
    {
      Send(StorageReq(StorageRequest(fileName, size)));
    }

    method SendRetrievalRequest(fileName: string)
      modifies this
      ensures inbox == old(inbox)
      ensures trace == old(trace) + [Out(Frame(RetrievalReq(RetrievalRequest(fileName))))]
    {
      Send(RetrievalReq(RetrievalRequest(fileName)));
    }

    method ReceiveResponse() returns (ok: bool)
      modifies this
      ensures ok == ResponseOk(ReceiveFrom(old(inbox)))
      ensures inbox == ReceiveFrom(old(inbox)).rest && trace == old(trace) + Consumed(old(inbox))
    {
      var r := Receive();
      ok := ResponseOk(r);
    }

    method ReceiveRetrievalResponse() returns (ok: bool, size: uint64)
      modifies this
      ensures ok == RetrievalOk(ReceiveFrom(old(inbox)))
      ensures ok ==> size == ReceiveFrom(old(inbox)).env.retrievalResp.size
      ensures inbox == ReceiveFrom(old(inbox)).rest && trace == old(trace) + Consumed(old(inbox))
    {
      var r := Receive();
      ok := RetrievalOk(r);
      size := if ok then r.env.retrievalResp.size else 0;
    }

    /** One raw payload byte written to the stream. */
    method WriteByte(b: byte)
      modifies this
      ensures inbox == old(inbox) && trace == old(trace) + [Out(Raw(b))]
    {
      trace := trace + [Out(Raw(b))];
    }

    /** One raw payload byte read from the stream, if the stream has one next. */
    method ReadByte() returns (ok: bool, b: byte)
      modifies this
      ensures ok == (old(inbox) != [] && old(inbox)[0].Raw?)
      ensures ok ==> b == old(inbox)[0].b && inbox == old(inbox)[1..] && trace == old(trace) + [In(Raw(b))]
      ensures !ok ==> inbox == old(inbox) && trace == old(trace)
    {
      ok := inbox != [] && inbox[0].Raw?;
      b := 0;
      if ok {
        b := inbox[0].b;
        trace := trace + [In(inbox[0])];
        inbox := inbox[1..];
      }
    }
  }

  /** Copying n payload bytes from the connection into the open file `name`
      while feeding them to the running digest: every raw byte read is
      appended to the file; the read stops after n bytes or
      when the stream cannot supply another one. `hashed` is what the running
      digest was fed: the same bytes. */
  method CopyToFile(h: MessageHandler, disk: Disk, name: string, n: nat) returns (complete: bool, hashed: Bytes)
    requires name in disk.fs.files
    modifies h, disk
    ensures var copy := ReadRaw(old(h.inbox), n);
      && complete == copy.complete && hashed == copy.bytes
      && disk.fs == old(disk.fs).(files := old(disk.fs).files[name := old(disk.fs).files[name] + copy.bytes])
      && h.inbox == copy.rest
      && h.trace == old(h.trace) + Ins(Raws(copy.bytes))
  {
    ghost var inbox0, trace0, fs0 := h.inbox, h.trace, disk.fs;
    var written: Bytes := [];
    var copied, more := 0, true;
    assert fs0.files[name] + written == fs0.files[name];
    assert fs0.files[name := fs0.files[name]] == fs0.files;
    while more && copied < n
      invariant copied == |written| <= n
      invariant inbox0 == Raws(written) + h.inbox
      invariant h.trace == trace0 + Ins(Raws(written))
      invariant disk.fs == fs0.(files := fs0.files[name := fs0.files[name] + written])
      invariant !more ==> h.inbox == [] || !h.inbox[0].Raw?
      decreases n - copied, more
    {
      var ok, b := h.ReadByte();
      if ok {
        disk.Write(name, b);
        assert fs0.files[name] + written + [b] == fs0.files[name] + (written + [b]);
        RawsAppend(written, [b]);
        InsOutsAppend(Raws(written), [Raw(b)]);
        written := written + [b];
        copied := copied + 1;
      } else {
        more := false;
      }
    }
    ReadRawExact(written, h.inbox, n);
    complete, hashed := copied == n, written;
  }

  /** Copying a whole file to the connection while feeding the running digest:
      the content goes out as raw bytes, in order. */
  method StreamOut(h: MessageHandler, content: Bytes)
    modifies h
    ensures h.inbox == old(h.inbox) && h.trace == old(h.trace) + Outs(Raws(content))
  {
    for i := 0 to |content|
      invariant h.inbox == old(h.inbox) && h.trace == old(h.trace) + Outs(Raws(content[..i]))
    {
      h.WriteByte(content[i]);
      assert content[..i + 1] == content[..i] + [content[i]];
      RawsAppend(content[..i], [content[i]]);
      InsOutsAppend(Raws(content[..i]), [Raw(content[i])]);
    }
    assert content[..|content|] == content;
  }
}
