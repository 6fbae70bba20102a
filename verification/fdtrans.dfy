/** The file-descriptor transport of npfs (src/libnpfs/fdtrans.c): framing
    of a byte stream into 9P messages, each starting with a little-endian
    size[4] field that counts itself (the 9P2000 wire format of the Plan 9
    manual, section 5, intro(5)), bytes read past a message kept for the
    next call; writing a message out completely; closing the descriptors.

    read(2) and write(2) are modelled by explicit environments (`Input`,
    `WriteEvent`), allocation by outcome flags. `Variant` selects between
    the receive code as written and a corrected form that keeps every copy
    inside its buffer (see `ReadCount` and `SpillCapacity`). */
module FdTrans {
  import opened Common

  /** Width of the size[4] field. */
  const HEADER_SIZE: nat := 4

  // ---------------------------------------------------------------------
  // The size field
  // ---------------------------------------------------------------------

  /** np_peek_size: the little-endian size[4] field at the start of a
      message, or 0 while fewer than four bytes are present. */
  function PeekSize(buf: seq<byte>): (n: nat)
    ensures n < U32_LIMIT
    ensures |buf| < HEADER_SIZE ==> n == 0
  {
    if |buf| < HEADER_SIZE then 0
    else buf[0] as int + 256 * buf[1] as int + 65536 * buf[2] as int + 16777216 * buf[3] as int
  }

  /** The size[4] field of a message of `n` bytes. */
  function EncodeSize(n: u32): (b: seq<byte>)
    ensures |b| == HEADER_SIZE
  {
    var q1 := n / 256;
    var q2 := q1 / 256;
    [n % 256, q1 % 256, q2 % 256, q2 / 256]
  }

  /** Reading back an encoded size field gives the size, whatever follows. */
  lemma PeekEncode(n: u32, body: seq<byte>)
    ensures PeekSize(EncodeSize(n) + body) == n
  {
    var q1 := n / 256;
    var q2 := q1 / 256;
    assert n == n % 256 + 256 * q1;
    assert q1 == q1 % 256 + 256 * q2;
    assert q2 == q2 % 256 + 256 * (q2 / 256);
  }

  /** The size field depends on the first four bytes only. */
  lemma PeekSamePrefix(a: seq<byte>, b: seq<byte>)
    requires |a| >= HEADER_SIZE && |b| >= HEADER_SIZE
    requires forall i :: 0 <= i < HEADER_SIZE ==> a[i] == b[i]
    ensures PeekSize(a) == PeekSize(b)
  {
  }

  /** Once the size field is complete, appending bytes does not change it. */
  lemma PeekExtension(a: seq<byte>, b: seq<byte>)
    requires |a| >= HEADER_SIZE
    ensures PeekSize(a + b) == PeekSize(a)
  {
    PeekSamePrefix(a + b, a);
  }

  /** A complete 9P message that fits the negotiated size: its size field
      counts exactly its own bytes. */
  predicate WellFormed(m: seq<byte>, msize: nat)
  {
    HEADER_SIZE <= |m| <= msize && PeekSize(m) == |m|
  }

  // ---------------------------------------------------------------------
  // The inbound descriptor
  // ---------------------------------------------------------------------

  /** What the next read(2) does: return at most `limit` bytes, fail with
      EINTR, or fail with another errno. */
  datatype ReadEvent = Chunk(limit: nat) | Interrupted | Failed(errno: Errno)

  /** The inbound side: the bytes still to arrive and how the coming reads
      behave. Once the events are used up, each read returns as many bytes
      as were asked for and remain. */
  datatype Input = Input(bytes: seq<byte>, events: seq<ReadEvent>)

  /** What one read returns: data (none at end of stream), EINTR, or an
      error. */
  datatype ReadResult = Data(data: seq<byte>) | Intr | ReadErr(errno: Errno)

  datatype ReadStep = ReadStep(result: ReadResult, rest: Input)

  /** One read(2) of at most `count` bytes; data comes off the front of the
      stream in order. */
  function Read(inp: Input, count: nat): (r: ReadStep)
    ensures r.result.Data? ==> |r.result.data| <= count && inp.bytes == r.result.data + r.rest.bytes
    ensures !r.result.Data? ==> r.rest.bytes == inp.bytes
    ensures inp.events == [] ==>
      && r.result.Data? && r.rest.events == []
      && |r.result.data| == Min(count, |inp.bytes|)
    ensures inp.events != [] ==> r.rest.events == inp.events[1..]
    ensures inp.events != [] && inp.events[0].Chunk? ==>
      r.result.Data? && |r.result.data| == Min(Min(inp.events[0].limit, count), |inp.bytes|)
    ensures inp.events != [] && inp.events[0].Interrupted? ==> r.result.Intr?
    ensures inp.events != [] && inp.events[0].Failed? ==> r.result == ReadErr(inp.events[0].errno)
  {
    if inp.events == [] then
      var n := Min(count, |inp.bytes|);
      ReadStep(Data(inp.bytes[..n]), Input(inp.bytes[n..], []))
    else
      match inp.events[0]
      case Chunk(k) =>
        var n := Min(Min(k, count), |inp.bytes|);
        ReadStep(Data(inp.bytes[..n]), Input(inp.bytes[n..], inp.events[1..]))
      case Interrupted => ReadStep(Intr, inp.(events := inp.events[1..]))
      case Failed(e) => ReadStep(ReadErr(e), inp.(events := inp.events[1..]))
  }

  // ---------------------------------------------------------------------
  // The receive loop
  // ---------------------------------------------------------------------

  /** The receive code as written, or with its two buffer computations
      corrected. */
  datatype Variant = AsWritten | Corrected

  /** The byte count the receive loop asks read(2) for, `msize - len`. As
      written the subtraction is 32-bit unsigned and wraps when the buffer
      already holds more than msize bytes; corrected, it stops at zero. */
  function ReadCount(v: Variant, msize: u32, len: nat): (n: nat)
    ensures len <= msize ==> n == msize - len
    ensures v == Corrected && len >= msize ==> n == 0
  {
    match v
    case AsWritten => (msize - len) % U32_LIMIT
    case Corrected => if len < msize then msize - len else 0
  }

  /** How the receive loop ended. */
  datatype FillEnd = Full | AtEof | Oversize | ReadFailed(errno: Errno)

  /** The end state of the receive loop: the accumulated buffer, the size
      read from its header (0 while unknown) and the unread input. */
  datatype Fill = Fill(end: FillEnd, buf: seq<byte>, size: nat, rest: Input)

  /** What one turn of the loop leaves: the loop has ended, or it goes
      round again with a grown buffer, the size as now known and the
      remaining input. */
  datatype Turn = Stop(fill: Fill) | Again(buf: seq<byte>, size: nat, rest: Input)

  /** One turn of the receive loop while the message is incomplete: read at
      most `msize - len` bytes; EINTR goes round again unchanged, another
      error or a zero-length read ends the loop, data is appended and the
      size field peeked once it is complete. */
  function LoopTurn(v: Variant, msize: u32, buf: seq<byte>, size: nat, inp: Input): (t: Turn)
    requires size == PeekSize(buf) && size <= msize
    ensures t.Stop? ==>
      && buf + inp.bytes == t.fill.buf + t.fill.rest.bytes
      && |buf| <= |t.fill.buf| && t.fill.buf[..|buf|] == buf
      && t.fill.size == PeekSize(t.fill.buf)
      && !t.fill.end.Full?
      && (t.fill.end.Oversize? <==> t.fill.size > msize)
      && |t.fill.rest.events| <= |inp.events|
      && |t.fill.buf| <= |buf| + ReadCount(v, msize, |buf|)
    ensures t.Again? ==>
      && |t.buf| <= |buf| + ReadCount(v, msize, |buf|)
      && buf + inp.bytes == t.buf + t.rest.bytes
      && |buf| <= |t.buf| && t.buf[..|buf|] == buf
      && t.size == PeekSize(t.buf) && t.size <= msize
      && (|t.rest.events| < |inp.events| || (|t.rest.events| == |inp.events| && |t.rest.bytes| < |inp.bytes|))
      && t.rest.events == (if inp.events == [] then [] else inp.events[1..])
    ensures inp.events != [] && inp.events[0].Failed? ==>
      t == Stop(Fill(ReadFailed(inp.events[0].errno), buf, size, inp.(events := inp.events[1..])))
    ensures t.Stop? && t.fill.end.ReadFailed? ==> inp.events != [] && inp.events[0] == Failed(t.fill.end.errno)
  {
    var step := Read(inp, ReadCount(v, msize, |buf|));
    match step.result
    case Intr => Again(buf, size, step.rest)
    case ReadErr(e) => Stop(Fill(ReadFailed(e), buf, size, step.rest))
    case Data(d) =>
      if |d| == 0 then Stop(Fill(AtEof, buf, size, step.rest))
      else
        var grown := buf + d;
        assert grown[..|buf|] == buf;
        assert buf + inp.bytes == grown + step.rest.bytes;
        var next := if size == 0 then PeekSize(grown) else size;
        assert next == PeekSize(grown) by {
          if size != 0 { PeekExtension(buf, d); }
        }
        if next > msize then Stop(Fill(Oversize, grown, next, step.rest))
        else Again(grown, next, step.rest)
  }

  /** The `while (size == 0 || len < size)` loop of np_fdtrans_recv: read
      until the buffer holds the whole message whose size the header
      declares, retrying EINTR; a zero-length read is end of stream, any
      other read error or a declared size above msize ends it with an error.
      `size` is the header's size as last peeked. */
  function FillLoop(v: Variant, msize: u32, buf: seq<byte>, size: nat, inp: Input): (r: Fill)
    requires size == PeekSize(buf) && size <= msize
    ensures buf + inp.bytes == r.buf + r.rest.bytes
    ensures |buf| <= |r.buf| && r.buf[..|buf|] == buf
    ensures r.size == PeekSize(r.buf)
    ensures r.end.Full? ==> 0 < r.size <= |r.buf| && r.size <= msize
    ensures r.end.Oversize? <==> r.size > msize
    ensures |r.rest.events| <= |inp.events|
    ensures (size == 0 || |buf| < size) && inp.events != [] && inp.events[0].Failed? ==>
      r == Fill(ReadFailed(inp.events[0].errno), buf, size, inp.(events := inp.events[1..]))
    ensures r.end.ReadFailed? ==> Failed(r.end.errno) in inp.events
    decreases |inp.events|, |inp.bytes|
  {
    if size != 0 && |buf| >= size then Fill(Full, buf, size, inp)
    else
      match LoopTurn(v, msize, buf, size, inp)
      case Stop(f) => f
      case Again(grown, next, rest) =>
        var r := FillLoop(v, msize, grown, next, rest);
        PrefixOfPrefix(buf, grown, r.buf);
        assert r.end.ReadFailed? ==> Failed(r.end.errno) in inp.events by {
          if r.end.ReadFailed? && inp.events != [] {
            assert inp.events == [inp.events[0]] + rest.events;
          }
        }
        r
  }

  /** The loop never grows a buffer that holds at most msize bytes beyond
      msize; corrected, it never grows one that is already msize bytes or
      longer at all. */
  lemma {:induction false} FillBounded(v: Variant, msize: u32, buf: seq<byte>, inp: Input)
    requires PeekSize(buf) <= msize
    ensures var r := FillLoop(v, msize, buf, PeekSize(buf), inp);
      && (|buf| <= msize ==> |r.buf| <= msize)
      && (v == Corrected && |buf| >= msize ==> r.buf == buf)
    decreases |inp.events|, |inp.bytes|
  {
    var size := PeekSize(buf);
    if !(size != 0 && |buf| >= size) {
      match LoopTurn(v, msize, buf, size, inp)
      case Stop(_) =>
      case Again(grown, _, rest) =>
        if v == Corrected && |buf| >= msize {
          assert grown == buf[..|buf|] == buf;
        }
        FillBounded(v, msize, grown, rest);
    }
  }

  /** A prefix of a prefix is a prefix. */
  lemma PrefixOfPrefix(a: seq<byte>, b: seq<byte>, c: seq<byte>)
    requires |a| <= |b| <= |c| && b[..|a|] == a && c[..|b|] == b
    ensures c[..|a|] == a
  {
    assert c[..|a|] == c[..|b|][..|a|];
  }

  // ---------------------------------------------------------------------
  // The transport state and np_fdtrans_recv
  // ---------------------------------------------------------------------

  /** Bytes kept from an earlier receive (fdt->fc with fc_len bytes used),
      with the capacity of the buffer holding them. */
  datatype Retained = Retained(bytes: seq<byte>, cap: nat)

  /** struct Fdtrans: the two descriptors and the retained buffer. */
  datatype Fdtrans = Fdtrans(fdin: int, fdout: int, fc: Option<Retained>)

  /** A retained buffer is only kept when there are extra bytes, and they
      fit in it. */
  predicate Inv(t: Fdtrans)
  {
    t.fc.Some? ==> 0 < |t.fc.value.bytes| <= t.fc.value.cap
  }

  /** The retained bytes, empty when there is no retained buffer. */
  function RetainedBytes(t: Fdtrans): seq<byte>
  {
    if t.fc.Some? then t.fc.value.bytes else []
  }

  /** Capacity of the buffer the extra bytes are copied into. As written it
      is allocated for the current msize; corrected, it keeps the capacity
      of the buffer the bytes came from. */
  function SpillCapacity(v: Variant, msize: u32, cap: nat): nat
  {
    match v
    case AsWritten => msize
    case Corrected => cap
  }

  /** What one receive delivers: a message, end of stream (*fcp == NULL,
      return 0), or an error (return -1) with its errno. */
  datatype Received = Message(pkt: seq<byte>) | EndOfStream | RecvError(errno: Errno)

  /** The return code np_fdtrans_recv gives for a result. */
  function ReturnCode(r: Received): (rc: int)
    ensures rc == -1 <==> r.RecvError?
    ensures rc == 0 <==> !r.RecvError?
  {
    if r.RecvError? then -1 else 0
  }

  /** Result of one receive: the new transport state, what was delivered,
      the unread input, and how many bytes the receive buffer held when the
      call ended against how many it can hold. */
  datatype RecvStep = RecvStep(trans: Fdtrans, received: Received, rest: Input, filled: nat, capacity: nat)

  /** np_fdtrans_recv given the fill loop's end state: hand out the message
      and copy any bytes past it into a new retained buffer (`spillOk` is the
      outcome of that allocation); end of stream and errors discard the
      buffer. */
  function Deliver(v: Variant, t: Fdtrans, msize: u32, f: Fill, cap: nat, spillOk: bool): (r: RecvStep)
    requires t.fc.None?
    requires f.end.Full? ==> 0 < f.size <= |f.buf|
    ensures r.trans.fdin == t.fdin && r.trans.fdout == t.fdout
    ensures r.rest == f.rest && r.filled == |f.buf| && r.capacity == cap
    ensures r.trans.fc.Some? ==>
      && f.end.Full? && |f.buf| > f.size && spillOk
      && r.trans.fc.value == Retained(f.buf[f.size..], SpillCapacity(v, msize, cap))
    ensures r.received.Message? <==> f.end.Full? && (|f.buf| > f.size ==> spillOk)
    ensures r.received.Message? ==> r.received.pkt == f.buf[..f.size] && f.buf[f.size..] == RetainedBytes(r.trans)
    ensures r.received.EndOfStream? <==> f.end.AtEof?
    ensures f.end.Oversize? ==> r.received == RecvError(EPROTO)
    ensures f.end.ReadFailed? ==> r.received == RecvError(f.end.errno)
  {
    match f.end
    case Full =>
      if |f.buf| > f.size then
        if spillOk then
          RecvStep(t.(fc := Some(Retained(f.buf[f.size..], SpillCapacity(v, msize, cap)))),
                   Message(f.buf[..f.size]), f.rest, |f.buf|, cap)
        else RecvStep(t, RecvError(ENOMEM), f.rest, |f.buf|, cap)
      else
        assert f.buf[..f.size] == f.buf;
        RecvStep(t, Message(f.buf[..f.size]), f.rest, |f.buf|, cap)
    case AtEof => RecvStep(t, EndOfStream, f.rest, |f.buf|, cap)
    case Oversize => RecvStep(t, RecvError(EPROTO), f.rest, |f.buf|, cap)
    case ReadFailed(e) => RecvStep(t, RecvError(e), f.rest, |f.buf|, cap)
  }

  /** The part of np_fdtrans_recv both paths share: run the read loop on
      `buf` (the retained bytes, or an empty fresh buffer of `cap` bytes) and
      deliver its outcome. The stream seen by the call is `buf` followed by
      the unread input. */
  function Continue(v: Variant, t: Fdtrans, msize: u32, buf: seq<byte>, cap: nat, inp: Input, spillOk: bool): (r: RecvStep)
    requires t.fc.None?
    requires PeekSize(buf) <= msize <= cap && |buf| <= cap
    ensures r.trans.fdin == t.fdin && r.trans.fdout == t.fdout
    ensures r.capacity == cap
    ensures r.received.Message? ==> 0 < |r.received.pkt| <= msize
    ensures r.received.Message? ==> |r.received.pkt| == PeekSize(buf + inp.bytes)
    ensures r.received.Message? ==>
      buf + inp.bytes == r.received.pkt + RetainedBytes(r.trans) + r.rest.bytes
    ensures !r.received.Message? ==> r.trans.fc.None?
    ensures v == Corrected ==> Inv(r.trans) && r.filled <= r.capacity
    ensures v == Corrected && r.trans.fc.Some? ==> msize <= r.trans.fc.value.cap
    ensures |buf| <= msize ==> Inv(r.trans) && r.filled <= r.capacity
    ensures |r.rest.events| <= |inp.events|
  {
    var f := FillLoop(v, msize, buf, PeekSize(buf), inp);
    assert (v == Corrected || |buf| <= msize) ==> |f.buf| <= cap by {
      FillBounded(v, msize, buf, inp);
    }
    assert |buf| <= msize ==> |f.buf| <= msize by {
      FillBounded(v, msize, buf, inp);
    }
    assert f.end.Full? ==> PeekSize(buf + inp.bytes) == f.size by {
      if f.end.Full? { PeekExtension(f.buf, f.rest.bytes); }
    }
    var r := Deliver(v, t, msize, f, cap, spillOk);
    assert r.received.Message? ==>
      buf + inp.bytes == r.received.pkt + RetainedBytes(r.trans) + r.rest.bytes
    by {
      if r.received.Message? {
        assert f.buf == f.buf[..f.size] + f.buf[f.size..];
      }
    }
    r
  }

  /** np_fdtrans_recv: continue in the retained buffer if there is one
      (rejecting at once a declared size above the current msize),
      otherwise in a fresh buffer of msize bytes (`bufOk` is the outcome of
      that allocation). The negotiated msize only ever shrinks, so a
      retained buffer is at least msize bytes long. */
  function Recv(v: Variant, t: Fdtrans, msize: u32, inp: Input, bufOk: bool, spillOk: bool): (r: RecvStep)
    requires Inv(t)
    requires t.fc.Some? ==> msize <= t.fc.value.cap
    ensures r.trans.fdin == t.fdin && r.trans.fdout == t.fdout
    ensures r.received.Message? ==> 0 < |r.received.pkt| <= msize
    ensures r.received.Message? ==> |r.received.pkt| == PeekSize(RetainedBytes(t) + inp.bytes)
    ensures r.received.Message? ==>
      RetainedBytes(t) + inp.bytes == r.received.pkt + RetainedBytes(r.trans) + r.rest.bytes
    ensures !r.received.Message? ==> r.trans.fc.None?
    ensures t.fc.Some? && PeekSize(RetainedBytes(t)) > msize ==> r.received == RecvError(EPROTO) && r.rest == inp
    ensures t.fc.None? && !bufOk ==> r.received == RecvError(ENOMEM) && r.rest == inp
    ensures v == Corrected ==> Inv(r.trans) && r.filled <= r.capacity
    ensures v == Corrected && r.trans.fc.Some? ==> msize <= r.trans.fc.value.cap
    ensures |RetainedBytes(t)| <= msize ==> Inv(r.trans) && r.filled <= r.capacity
    ensures |r.rest.events| <= |inp.events|
    ensures var kept := RetainedBytes(t); var n := PeekSize(kept);
      t.fc.Some? && 0 < n <= |kept| && n <= msize ==>
        && r.rest == inp
        && (spillOk || n == |kept| ==> r.received == Message(kept[..n]) && RetainedBytes(r.trans) == kept[n..])
        && (!spillOk && n < |kept| ==> r.received == RecvError(ENOMEM))
  {
    match t.fc
    case Some(kept) =>
      if PeekSize(kept.bytes) > msize then RecvStep(t.(fc := None), RecvError(EPROTO), inp, |kept.bytes|, kept.cap)
      else Continue(v, t.(fc := None), msize, kept.bytes, kept.cap, inp, spillOk)
    case None =>
      if !bufOk then RecvStep(t, RecvError(ENOMEM), inp, 0, msize)
      else
        assert [] + inp.bytes == inp.bytes;
        Continue(v, t, msize, [], msize, inp, spillOk)
  }

  /** The read loop of np_fdtrans_recv as the C code runs it; it ends in
      exactly the state `FillLoop` describes. */
  method FillBuffer(v: Variant, msize: u32, buf0: seq<byte>, inp: Input) returns (f: Fill)
    requires PeekSize(buf0) <= msize
    ensures f == FillLoop(v, msize, buf0, PeekSize(buf0), inp)
  {
    var buf, size, rest := buf0, PeekSize(buf0), inp;
    while size == 0 || |buf| < size
      invariant size == PeekSize(buf) && size <= msize
      invariant FillLoop(v, msize, buf, size, rest) == FillLoop(v, msize, buf0, PeekSize(buf0), inp)
      decreases |rest.events|, |rest.bytes|
    {
      var step := Read(rest, ReadCount(v, msize, |buf|));
      rest := step.rest;
      match step.result {
        case Intr =>
        case ReadErr(e) =>
          return Fill(ReadFailed(e), buf, size, rest);
        case Data(d) =>
          if |d| == 0 {
            return Fill(AtEof, buf, size, rest);
          }
          if size != 0 {
            PeekSamePrefix(buf + d, buf);
          }
          buf := buf + d;
          if size == 0 {
            size := PeekSize(buf);
            if size > msize {
              return Fill(Oversize, buf, size, rest);
            }
          }
      }
    }
    f := Fill(Full, buf, size, rest);
  }

  /** np_fdtrans_recv as the C function runs: pick the buffer, run the read
      loop, deliver. */
  method Receive(v: Variant, t: Fdtrans, msize: u32, inp: Input, bufOk: bool, spillOk: bool) returns (r: RecvStep)
    requires Inv(t)
    requires t.fc.Some? ==> msize <= t.fc.value.cap
    ensures r == Recv(v, t, msize, inp, bufOk, spillOk)
  {
    var buf: seq<byte>;
    var cap: nat;
    if t.fc.Some? {
      buf, cap := t.fc.value.bytes, t.fc.value.cap;
      if PeekSize(buf) > msize {
        return RecvStep(t.(fc := None), RecvError(EPROTO), inp, |buf|, cap);
      }
    } else {
      if !bufOk {
        return RecvStep(t, RecvError(ENOMEM), inp, 0, msize);
      }
      buf, cap := [], msize;
    }
    var f := FillBuffer(v, msize, buf, inp);
    r := Deliver(v, t.(fc := None), msize, f, cap, spillOk);
  }

  // ---------------------------------------------------------------------
  // Sending, creating and destroying
  // ---------------------------------------------------------------------

  /** What the next write(2) does: accept at most `limit` bytes, fail with
      EINTR, or fail with another errno. Once the events are used up, each
      write accepts everything offered. */
  datatype WriteEvent = Wrote(limit: nat) | WriteInterrupted | WriteFailed(errno: Errno)

  predicate NoWriteFailure(events: seq<WriteEvent>)
  {
    forall i :: 0 <= i < |events| ==> !events[i].WriteFailed?
  }

  /** Whether sending `left` more bytes against these write outcomes reaches
      a failed write: a short write leaves the rest to send, EINTR retries,
      and once the events are used up every write succeeds. */
  function SendFails(left: nat, events: seq<WriteEvent>): (r: bool)
    ensures r ==> left > 0 && !NoWriteFailure(events)
    ensures left > 0 && events != [] && events[0].WriteFailed? ==> r
    decreases |events|
  {
    if left == 0 || events == [] then false
    else
      match events[0]
      case Wrote(k) => SendFails(left - Min(k, left), events[1..])
      case WriteInterrupted => SendFails(left, events[1..])
      case WriteFailed(_) => true
  }

  /** np_fdtrans_send: write the fc->size bytes of the message, looping over
      short writes and retrying EINTR; the whole size is returned once every
      byte went out in order, and any other write error returns -1. */
  method Send(pkt: seq<byte>, events: seq<WriteEvent>) returns (rc: int, written: seq<byte>)
    ensures rc == |pkt| || rc == -1
    ensures rc == |pkt| ==> written == pkt
    ensures |written| <= |pkt| && written == pkt[..|written|]
    ensures NoWriteFailure(events) ==> rc == |pkt|
    ensures rc == -1 ==> !NoWriteFailure(events)
    ensures rc == -1 <==> SendFails(|pkt|, events)
  {
    var len := 0;
    var e := 0;
    written := [];
    while len < |pkt|
      invariant 0 <= len <= |pkt| && 0 <= e <= |events|
      invariant written == pkt[..len]
      invariant SendFails(|pkt| - len, events[e..]) == SendFails(|pkt|, events)
      decreases |events| - e, |pkt| - len
    {
      var n: nat;
      if e < |events| {
        match events[e] {
          case Wrote(k) => n := Min(k, |pkt| - len);
          case WriteInterrupted => n := 0;
          case WriteFailed(_) =>
            assert events[e].WriteFailed?;
            assert events[e..][0] == events[e];
            rc := -1;
            return;
        }
        assert events[e..][1..] == events[e + 1..];
        e := e + 1;
      } else {
        n := |pkt| - len;
      }
      assert pkt[..len + n] == pkt[..len] + pkt[len..len + n];
      written := written + pkt[len..len + n];
      len := len + n;
    }
    assert written == pkt;
    rc := len;
  }

  /** np_fdtrans_create: a transport over the two descriptors with nothing
      retained; either allocation failing yields NULL. */
  function Create(fdin: int, fdout: int, allocOk: bool, transOk: bool): (r: Option<Fdtrans>)
    ensures r.Some? <==> allocOk && transOk
    ensures r.Some? ==> r.value.fdin == fdin && r.value.fdout == fdout && RetainedBytes(r.value) == [] && Inv(r.value)
  {
    if allocOk && transOk then Some(Fdtrans(fdin, fdout, None)) else None
  }

  /** np_fdtrans_destroy: the descriptors closed, in order. Each valid
      descriptor is closed exactly once, the inbound one first; a shared
      descriptor is closed once; a negative one never. */
  function Destroy(t: Fdtrans): (closed: seq<int>)
    ensures forall fd :: fd in closed <==> fd >= 0 && (fd == t.fdin || fd == t.fdout)
    ensures |closed| <= 2 && (|closed| == 2 ==> closed[0] != closed[1])
    ensures t.fdin >= 0 ==> closed != [] && closed[0] == t.fdin
  {
    var out := if t.fdout >= 0 && t.fdout != t.fdin then [t.fdout] else [];
    if t.fdin >= 0 then [t.fdin] + out else out
  }
}
