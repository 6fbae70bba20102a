/** Properties of the fd transport over a whole inbound stream: successive
    receives hand out exactly the messages that were concatenated onto the
    stream, however the reads split it, then end of stream; a declared size
    above msize is refused; and the receive code as written overruns its
    buffers once msize has shrunk below the bytes already retained. */
module FdTransStream {
  import opened Common
  import opened FdTrans

  /** No read fails and none returns zero bytes while data remains: the
      stream is only cut into arbitrary pieces and interrupted by EINTR. */
  predicate Benign(events: seq<ReadEvent>)
  {
    forall i :: 0 <= i < |events| ==> !events[i].Failed? && (events[i].Chunk? ==> events[i].limit > 0)
  }

  /** The bytes of the messages one after the other. */
  function Concat(msgs: seq<seq<byte>>): seq<byte>
    decreases |msgs|
  {
    if msgs == [] then [] else msgs[0] + Concat(msgs[1..])
  }

  /** The receive results that hand out the messages in order. */
  function Messages(msgs: seq<seq<byte>>): (rs: seq<Received>)
    ensures |rs| == |msgs|
    ensures forall i :: 0 <= i < |msgs| ==> rs[i] == Message(msgs[i])
    decreases |msgs|
  {
    if msgs == [] then [] else [Message(msgs[0])] + Messages(msgs[1..])
  }

  /** A transport a receive can run on at this msize: the retained bytes
      fit their buffer, which holds at least msize bytes. The code as written
      also needs them to fit within msize, or its read count wraps (see
      `ReadCountOverrun`); that holds as long as msize does not shrink. */
  predicate Ready(v: Variant, t: Fdtrans, msize: u32)
  {
    && Inv(t) && (t.fc.Some? ==> msize <= t.fc.value.cap)
    && (v == AsWritten ==> |RetainedBytes(t)| <= msize)
  }

  /** A receive leaves the transport ready for the next receive at the
      same msize, for the code as written as well as the corrected code. */
  lemma RecvKeepsReady(v: Variant, t: Fdtrans, msize: u32, inp: Input, bufOk: bool, spillOk: bool)
    requires Ready(v, t, msize)
    ensures Ready(v, Recv(v, t, msize, inp, bufOk, spillOk).trans, msize)
  {
    if v == AsWritten {
      var buf := RetainedBytes(t);
      if PeekSize(buf) <= msize && (t.fc.Some? || bufOk) {
        FillBounded(v, msize, buf, inp);
        assert t.fc.None? ==> [] + inp.bytes == inp.bytes;
      }
    }
  }

  /** The results of receiving over and over at one msize, with every
      allocation succeeding, until something other than a message comes
      back. */
  function Drain(v: Variant, t: Fdtrans, msize: u32, inp: Input): (rs: seq<Received>)
    requires Ready(v, t, msize)
    ensures MessagesThenStop(rs)
    decreases |RetainedBytes(t)| + |inp.bytes|
  {
    var r := Recv(v, t, msize, inp, true, true);
    if r.received.Message? then
      assert |RetainedBytes(r.trans)| + |r.rest.bytes| < |RetainedBytes(t)| + |inp.bytes| by {
        assert |RetainedBytes(t) + inp.bytes| == |r.received.pkt + RetainedBytes(r.trans) + r.rest.bytes|;
      }
      RecvKeepsReady(v, t, msize, inp, true, true);
      var more := Drain(v, r.trans, msize, r.rest);
      ConsMessage(r.received, more);
      [r.received] + more
    else [r.received]
  }

  /** Messages followed by one final non-message result, as `Drain`
      produces them. */
  predicate MessagesThenStop(rs: seq<Received>)
  {
    |rs| >= 1 && !rs[|rs| - 1].Message? && forall i :: 0 <= i < |rs| - 1 ==> rs[i].Message?
  }

  /** A message in front of such a sequence keeps its shape. */
  lemma ConsMessage(x: Received, rs: seq<Received>)
    requires x.Message? && MessagesThenStop(rs)
    ensures MessagesThenStop([x] + rs)
  {
    var xs := [x] + rs;
    forall i | 0 <= i < |xs| - 1
      ensures xs[i].Message?
    {
      if i > 0 {
        assert xs[i] == rs[i - 1];
      }
    }
  }

  /** A size field followed by a body of the length it announces is a
      well-formed message. */
  lemma EncodedIsWellFormed(body: seq<byte>, msize: nat)
    requires HEADER_SIZE + |body| <= msize && HEADER_SIZE + |body| < U32_LIMIT
    ensures WellFormed(EncodeSize(HEADER_SIZE + |body|) + body, msize)
  {
    PeekEncode(HEADER_SIZE + |body|, body);
  }

  /** The first four bytes of two equal streams agree. */
  lemma SameHeader(a: seq<byte>, x: seq<byte>, b: seq<byte>, y: seq<byte>)
    requires a + x == b + y && |a| >= HEADER_SIZE && |b| >= HEADER_SIZE
    ensures PeekSize(a) == PeekSize(b)
  {
    forall i | 0 <= i < HEADER_SIZE
      ensures a[i] == b[i]
    {
      assert (a + x)[i] == a[i] && (b + y)[i] == b[i];
    }
    PeekSamePrefix(a, b);
  }

  /** One read of a benign stream that still has bytes, asked for at least
      one, returns data or EINTR; data is never empty. */
  lemma BenignRead(inp: Input, count: nat)
    requires Benign(inp.events) && count > 0 && inp.bytes != []
    ensures var step := Read(inp, count);
      && (step.result.Data? || step.result.Intr?)
      && (step.result.Data? ==> |step.result.data| > 0)
      && Benign(step.rest.events)
  {
    if inp.events != [] {
      assert !inp.events[0].Failed?;
    }
  }

  /** Reads of a benign stream never fail. */
  lemma BenignReadNoError(inp: Input, count: nat)
    requires Benign(inp.events)
    ensures var step := Read(inp, count); !step.result.ReadErr? && Benign(step.rest.events)
  {
    if inp.events != [] {
      assert !inp.events[0].Failed?;
    }
  }

  /** One turn of the read loop that got data: the loop carries on from the
      grown buffer, as long as the grown buffer's header is acceptable. */
  lemma FillOnData(v: Variant, msize: u32, buf: seq<byte>, inp: Input)
    requires PeekSize(buf) <= msize && !(PeekSize(buf) != 0 && |buf| >= PeekSize(buf))
    requires var step := Read(inp, ReadCount(v, msize, |buf|));
      step.result.Data? && |step.result.data| > 0 && PeekSize(buf + step.result.data) <= msize
    ensures var step := Read(inp, ReadCount(v, msize, |buf|));
      FillLoop(v, msize, buf, PeekSize(buf), inp)
        == FillLoop(v, msize, buf + step.result.data, PeekSize(buf + step.result.data), step.rest)
  {
    var step := Read(inp, ReadCount(v, msize, |buf|));
    if PeekSize(buf) != 0 {
      PeekSamePrefix(buf + step.result.data, buf);
    }
  }

  /** One turn of the read loop that was interrupted: the loop carries on
      with the same buffer. */
  lemma FillOnIntr(v: Variant, msize: u32, buf: seq<byte>, inp: Input)
    requires PeekSize(buf) <= msize && !(PeekSize(buf) != 0 && |buf| >= PeekSize(buf))
    requires Read(inp, ReadCount(v, msize, |buf|)).result.Intr?
    ensures FillLoop(v, msize, buf, PeekSize(buf), inp)
      == FillLoop(v, msize, buf, PeekSize(buf), Read(inp, ReadCount(v, msize, |buf|)).rest)
  {
  }

  /** The read loop started on a prefix of a stream that begins with a
      well-formed message stops with exactly that message at the front of
      its buffer, the rest of the stream behind it. */
  lemma {:induction false} FillFindsMessage(v: Variant, msize: u32, buf: seq<byte>, inp: Input, m: seq<byte>, tail: seq<byte>)
    requires PeekSize(buf) <= msize
    requires WellFormed(m, msize) && buf + inp.bytes == m + tail
    requires Benign(inp.events)
    ensures var f := FillLoop(v, msize, buf, PeekSize(buf), inp);
      && f.end.Full? && f.size == |m|
      && f.buf[..f.size] == m && f.buf[f.size..] + f.rest.bytes == tail
      && Benign(f.rest.events)
    decreases |inp.events|, |inp.bytes|
  {
    var size := PeekSize(buf);
    if |buf| >= HEADER_SIZE {
      SameHeader(buf, inp.bytes, m, tail);
    }
    if size != 0 && |buf| >= size {
      assert size == |m|;
      assert buf[..size] == (buf + inp.bytes)[..size] == (m + tail)[..size] == m;
      assert buf == buf[..size] + buf[size..];
    } else {
      assert |buf| < |m| && inp.bytes != [];
      PeekExtension(m, tail);
      BenignTurn(v, msize, buf, inp);
      var t := LoopTurn(v, msize, buf, size, inp);
      assert t.Again?;
      if |t.buf| >= HEADER_SIZE {
        SameHeader(t.buf, t.rest.bytes, m, tail);
      }
      FillFindsMessage(v, msize, t.buf, t.rest, m, tail);
    }
  }

  /** One turn of the loop on a benign stream, asking for at least one
      byte: no read error, end of stream only once every byte is consumed,
      and a benign stream left for the next turn. */
  lemma BenignTurn(v: Variant, msize: u32, buf: seq<byte>, inp: Input)
    requires PeekSize(buf) <= msize && |buf| < msize
    requires Benign(inp.events)
    ensures var t := LoopTurn(v, msize, buf, PeekSize(buf), inp);
      && (t.Stop? ==> !t.fill.end.ReadFailed?)
      && (t.Stop? && t.fill.end.AtEof? ==> inp.bytes == [] && t.fill.buf == buf)
      && (t.Stop? && t.fill.end.Oversize? ==>
            |buf + inp.bytes| >= HEADER_SIZE && PeekSize(buf + inp.bytes) > msize)
      && (t.Again? ==> Benign(t.rest.events))
  {
    var count := ReadCount(v, msize, |buf|);
    BenignReadNoError(inp, count);
    if inp.bytes != [] {
      BenignRead(inp, count);
    }
    var t := LoopTurn(v, msize, buf, PeekSize(buf), inp);
    if t.Stop? && |t.fill.buf| >= HEADER_SIZE {
      PeekExtension(t.fill.buf, t.fill.rest.bytes);
    }
  }

  /** The read loop on a benign stream that holds no complete message (a
      partial size field, or fewer bytes than the size announces) ends at
      end of stream with every byte consumed: a truncated final message is
      dropped silently. */
  lemma {:induction false} FillIncomplete(v: Variant, msize: u32, buf: seq<byte>, inp: Input)
    requires HEADER_SIZE <= msize && PeekSize(buf) <= msize
    requires var s := buf + inp.bytes;
      |s| < HEADER_SIZE || (PeekSize(s) <= msize && |s| < PeekSize(s))
    requires Benign(inp.events)
    ensures var f := FillLoop(v, msize, buf, PeekSize(buf), inp);
      f.end.AtEof? && f.buf == buf + inp.bytes && f.rest.bytes == []
    decreases |inp.events|, |inp.bytes|
  {
    var size := PeekSize(buf);
    if |buf| >= HEADER_SIZE {
      PeekExtension(buf, inp.bytes);
    }
    assert !(size != 0 && |buf| >= size) && |buf| < msize;
    BenignTurn(v, msize, buf, inp);
    match LoopTurn(v, msize, buf, size, inp)
    case Stop(f) =>
    case Again(grown, next, rest) =>
      if |grown| >= HEADER_SIZE {
        PeekExtension(grown, rest.bytes);
      }
      FillIncomplete(v, msize, grown, rest);
  }

  /** The read loop on a benign stream whose size field announces more than
      msize stops with the oversize verdict as soon as the four header bytes
      are in. */
  lemma {:induction false} FillRejectsOversize(v: Variant, msize: u32, buf: seq<byte>, inp: Input)
    requires HEADER_SIZE <= msize && |buf| < HEADER_SIZE
    requires var s := buf + inp.bytes; |s| >= HEADER_SIZE && PeekSize(s) > msize
    requires Benign(inp.events)
    ensures FillLoop(v, msize, buf, PeekSize(buf), inp).end.Oversize?
    decreases |inp.events|, |inp.bytes|
  {
    var count := ReadCount(v, msize, |buf|);
    var step := Read(inp, count);
    BenignRead(inp, count);
    if step.result.Intr? {
      FillOnIntr(v, msize, buf, inp);
      FillRejectsOversize(v, msize, buf, step.rest);
    } else {
      var grown := buf + step.result.data;
      assert grown + step.rest.bytes == buf + inp.bytes;
      if |grown| >= HEADER_SIZE {
        PeekExtension(grown, step.rest.bytes);
      } else {
        FillOnData(v, msize, buf, inp);
        FillRejectsOversize(v, msize, grown, step.rest);
      }
    }
  }

  /** One receive on a benign stream that starts with a well-formed message
      hands out exactly that message and keeps everything behind it, in the
      retained buffer or still unread. */
  lemma RecvNextMessage(v: Variant, t: Fdtrans, msize: u32, inp: Input, m: seq<byte>, tail: seq<byte>)
    requires Inv(t) && (t.fc.Some? ==> msize <= t.fc.value.cap)
    requires WellFormed(m, msize) && RetainedBytes(t) + inp.bytes == m + tail
    requires Benign(inp.events)
    ensures var r := Recv(v, t, msize, inp, true, true);
      && r.received == Message(m)
      && RetainedBytes(r.trans) + r.rest.bytes == tail
      && Benign(r.rest.events)
  {
    var buf := RetainedBytes(t);
    if |buf| >= HEADER_SIZE {
      SameHeader(buf, inp.bytes, m, tail);
    }
    match t.fc
    case Some(kept) =>
      ContinueFindsMessage(v, t.(fc := None), msize, kept.bytes, kept.cap, inp, m, tail);
    case None =>
      assert [] + inp.bytes == inp.bytes;
      ContinueFindsMessage(v, t, msize, [], msize, inp, m, tail);
  }

  /** The shared part of a receive, on a benign stream that starts with a
      well-formed message, hands out that message and keeps the rest. */
  lemma ContinueFindsMessage(v: Variant, t: Fdtrans, msize: u32, buf: seq<byte>, cap: nat, inp: Input, m: seq<byte>, tail: seq<byte>)
    requires t.fc.None? && PeekSize(buf) <= msize <= cap && |buf| <= cap
    requires WellFormed(m, msize) && buf + inp.bytes == m + tail
    requires Benign(inp.events)
    ensures var r := Continue(v, t, msize, buf, cap, inp, true);
      && r.received == Message(m)
      && RetainedBytes(r.trans) + r.rest.bytes == tail
      && Benign(r.rest.events)
  {
    FillFindsMessage(v, msize, buf, inp, m, tail);
    var f := FillLoop(v, msize, buf, PeekSize(buf), inp);
    assert f.buf == f.buf[..f.size] + f.buf[f.size..];
  }

  /** A receive on a benign stream with nothing left reports end of stream. */
  lemma RecvAtEnd(v: Variant, t: Fdtrans, msize: u32, inp: Input)
    requires Inv(t) && (t.fc.Some? ==> msize <= t.fc.value.cap)
    requires RetainedBytes(t) + inp.bytes == [] && Benign(inp.events)
    ensures Recv(v, t, msize, inp, true, true).received == EndOfStream
    decreases |inp.events|
  {
    assert t.fc.None? && inp.bytes == [];
    var step := Read(inp, ReadCount(v, msize, 0));
    BenignReadNoError(inp, ReadCount(v, msize, 0));
    if step.result.Intr? {
      RecvAtEnd(v, t, msize, step.rest);
      FillOnIntr(v, msize, [], inp);
    }
  }

  /** A failed read(2) while the message is still incomplete ends the
      receive with -1 and that errno: nothing is handed out or retained, and
      only the failed read is used up. */
  lemma RecvReadFails(v: Variant, t: Fdtrans, msize: u32, inp: Input, spillOk: bool)
    requires Inv(t) && (t.fc.Some? ==> msize <= t.fc.value.cap)
    requires PeekSize(RetainedBytes(t)) <= msize
    requires PeekSize(RetainedBytes(t)) == 0 || |RetainedBytes(t)| < PeekSize(RetainedBytes(t))
    requires inp.events != [] && inp.events[0].Failed?
    ensures var r := Recv(v, t, msize, inp, true, spillOk);
      && r.received == RecvError(inp.events[0].errno) && ReturnCode(r.received) == -1
      && r.trans.fc.None? && r.rest == inp.(events := inp.events[1..])
  {
  }

  /** Draining a benign stream that starts with a well-formed message
      hands that message out first and carries on from a state that again
      meets the requirements of a drain, with the rest of the stream. */
  lemma DrainFirst(v: Variant, t: Fdtrans, msize: u32, inp: Input, m: seq<byte>, tail: seq<byte>)
    requires Ready(v, t, msize)
    requires WellFormed(m, msize) && RetainedBytes(t) + inp.bytes == m + tail
    requires Benign(inp.events)
    ensures var r := Recv(v, t, msize, inp, true, true);
      && Ready(v, r.trans, msize)
      && RetainedBytes(r.trans) + r.rest.bytes == tail
      && Benign(r.rest.events)
      && Drain(v, t, msize, inp) == [Message(m)] + Drain(v, r.trans, msize, r.rest)
  {
    RecvNextMessage(v, t, msize, inp, m, tail);
    RecvKeepsReady(v, t, msize, inp, true, true);
  }

  /** Framing round trip: well-formed messages laid end to end on the
      stream, the first ones possibly already retained, are handed out one
      per receive, in order and byte for byte, however the reads split and
      interrupt the stream; then the receive reports end of stream. This
      holds of the code as written too, as long as msize stays the same. */
  lemma {:induction false} RoundTrip(v: Variant, t: Fdtrans, msize: u32, inp: Input, msgs: seq<seq<byte>>)
    requires Ready(v, t, msize)
    requires forall i :: 0 <= i < |msgs| ==> WellFormed(msgs[i], msize)
    requires RetainedBytes(t) + inp.bytes == Concat(msgs)
    requires Benign(inp.events)
    ensures Drain(v, t, msize, inp) == Messages(msgs) + [EndOfStream]
    decreases |msgs|
  {
    if msgs == [] {
      RecvAtEnd(v, t, msize, inp);
    } else {
      DrainFirst(v, t, msize, inp, msgs[0], Concat(msgs[1..]));
      var r := Recv(v, t, msize, inp, true, true);
      TailWellFormed(msgs, msize);
      RoundTrip(v, r.trans, msize, r.rest, msgs[1..]);
      MessagesCons(msgs);
    }
  }

  /** The results for a non-empty list of messages start with the first. */
  lemma MessagesCons(msgs: seq<seq<byte>>)
    requires msgs != []
    ensures Messages(msgs) + [EndOfStream] == [Message(msgs[0])] + (Messages(msgs[1..]) + [EndOfStream])
  {
  }

  /** The messages after the first of a list of well-formed ones are
      well-formed. */
  lemma TailWellFormed(msgs: seq<seq<byte>>, msize: nat)
    requires msgs != [] && forall i :: 0 <= i < |msgs| ==> WellFormed(msgs[i], msize)
    ensures forall i :: 0 <= i < |msgs| - 1 ==> WellFormed(msgs[1..][i], msize)
  {
    forall i | 0 <= i < |msgs| - 1
      ensures WellFormed(msgs[1..][i], msize)
    {
      assert msgs[1..][i] == msgs[i + 1];
    }
  }

  /** A stream that stops inside a message (inside its size field, or
      before all the bytes it announces) ends with end of stream, not an
      error, and the partial message is not handed out. */
  lemma TruncatedIsEndOfStream(v: Variant, t: Fdtrans, msize: u32, inp: Input)
    requires Inv(t) && (t.fc.Some? ==> msize <= t.fc.value.cap) && HEADER_SIZE <= msize
    requires var s := RetainedBytes(t) + inp.bytes;
      |s| < HEADER_SIZE || (PeekSize(s) <= msize && |s| < PeekSize(s))
    requires Benign(inp.events)
    ensures Recv(v, t, msize, inp, true, true).received == EndOfStream
  {
    var buf := RetainedBytes(t);
    if |buf| >= HEADER_SIZE {
      PeekExtension(buf, inp.bytes);
    }
    assert [] + inp.bytes == inp.bytes;
    FillIncomplete(v, msize, buf, inp);
  }

  /** A message whose size field announces more than msize is refused with
      EPROTO, whether the header was retained or still has to be read. */
  lemma OversizeRejected(v: Variant, t: Fdtrans, msize: u32, inp: Input, bufOk: bool, spillOk: bool)
    requires Inv(t) && (t.fc.Some? ==> msize <= t.fc.value.cap) && HEADER_SIZE <= msize
    requires t.fc.None? ==> bufOk
    requires var s := RetainedBytes(t) + inp.bytes; |s| >= HEADER_SIZE && PeekSize(s) > msize
    requires Benign(inp.events)
    ensures Recv(v, t, msize, inp, bufOk, spillOk).received == RecvError(EPROTO)
  {
    var buf := RetainedBytes(t);
    if |buf| >= HEADER_SIZE {
      PeekExtension(buf, inp.bytes);
    } else {
      assert [] + inp.bytes == inp.bytes;
      FillRejectsOversize(v, msize, buf, inp);
    }
  }

  /** While the buffer holds no more than msize bytes the two read counts
      agree, so the read loop as written and the corrected one coincide. */
  lemma {:induction false} FillAgrees(msize: u32, buf: seq<byte>, inp: Input)
    requires PeekSize(buf) <= msize && |buf| <= msize
    ensures FillLoop(AsWritten, msize, buf, PeekSize(buf), inp) == FillLoop(Corrected, msize, buf, PeekSize(buf), inp)
    decreases |inp.events|, |inp.bytes|
  {
    var size := PeekSize(buf);
    if !(size != 0 && |buf| >= size) {
      assert ReadCount(AsWritten, msize, |buf|) == ReadCount(Corrected, msize, |buf|);
      var step := Read(inp, ReadCount(Corrected, msize, |buf|));
      if step.result.Intr? {
        FillOnIntr(AsWritten, msize, buf, inp);
        FillOnIntr(Corrected, msize, buf, inp);
        FillAgrees(msize, buf, step.rest);
      } else if step.result.Data? && |step.result.data| > 0 && PeekSize(buf + step.result.data) <= msize {
        FillOnData(AsWritten, msize, buf, inp);
        FillOnData(Corrected, msize, buf, inp);
        FillAgrees(msize, buf + step.result.data, step.rest);
      }
    }
  }

  /** The receive code as written behaves like the corrected one, apart
      from the capacity recorded for the retained buffer, whenever the
      retained bytes fit the current msize: in particular whenever msize
      never changed. */
  lemma RecvAgreesWhenFits(t: Fdtrans, msize: u32, inp: Input, bufOk: bool, spillOk: bool)
    requires Inv(t) && (t.fc.Some? ==> msize <= t.fc.value.cap)
    requires |RetainedBytes(t)| <= msize
    ensures var a := Recv(AsWritten, t, msize, inp, bufOk, spillOk);
      var c := Recv(Corrected, t, msize, inp, bufOk, spillOk);
      && a.received == c.received && a.rest == c.rest && a.filled == c.filled
      && RetainedBytes(a.trans) == RetainedBytes(c.trans)
  {
    if (t.fc.Some? && PeekSize(t.fc.value.bytes) <= msize) || (t.fc.None? && bufOk) {
      FillAgrees(msize, RetainedBytes(t), inp);
    }
  }

  /** As written, a retained buffer of six bytes whose size field reads 0,
      after msize shrank from 8 to 4, makes the loop ask read(2) for
      2^32 - 2 bytes and take in 14 bytes for an 8-byte buffer; the corrected
      count reads nothing. */
  lemma ReadCountOverrun()
    ensures var t := Fdtrans(0, 1, Some(Retained([0, 0, 0, 0, 0, 0], 8)));
      var inp := Input([1, 2, 3, 4, 5, 6, 7, 8], []);
      var a := Recv(AsWritten, t, 4, inp, true, true);
      var c := Recv(Corrected, t, 4, inp, true, true);
      && a.filled == 14 && a.capacity == 8 && a.received == EndOfStream
      && c.filled == 6 && c.capacity == 8 && c.received == EndOfStream
  {
    var kept: seq<byte> := [0, 0, 0, 0, 0, 0];
    var inp := Input([1, 2, 3, 4, 5, 6, 7, 8], []);
    assert PeekSize(kept) == 0;
    assert ReadCount(AsWritten, 4, 6) == U32_LIMIT - 2;
    var step := Read(inp, U32_LIMIT - 2);
    assert step.result == Data(inp.bytes) && step.rest == Input([], []);
    var grown := kept + inp.bytes;
    assert |grown| == 14 && grown[..4] == [0, 0, 0, 0];
    assert PeekSize(grown) == 0;
    assert FillLoop(AsWritten, 4, grown, 0, Input([], [])).buf == grown;
    assert FillLoop(AsWritten, 4, kept, 0, inp) == FillLoop(AsWritten, 4, grown, 0, Input([], []));
    assert Read(inp, 0).result == Data([]);
  }

  /** As written, 15 bytes retained in a 16-byte buffer (the most a spill
      from a 16-byte receive leaves) holding a 5-byte message, after msize
      shrank from 16 to 8, copy the 10 bytes behind the message into a new
      buffer of 8; corrected, the new buffer keeps the 16-byte capacity. */
  lemma SpillOverrun()
    ensures var kept: seq<byte> := [5, 0, 0, 0, 9, 1, 1, 1, 1, 1, 1, 1, 1, 1, 1];
      var t := Fdtrans(0, 1, Some(Retained(kept, 16)));
      var a := Recv(AsWritten, t, 8, Input([], []), true, true);
      var c := Recv(Corrected, t, 8, Input([], []), true, true);
      && a.received == Message([5, 0, 0, 0, 9]) && a.trans.fc.Some?
      && |a.trans.fc.value.bytes| == 10 && a.trans.fc.value.cap == 8 && !Inv(a.trans)
      && c.received == a.received && c.trans.fc == Some(Retained(kept[5..], 16))
  {
    var kept: seq<byte> := [5, 0, 0, 0, 9, 1, 1, 1, 1, 1, 1, 1, 1, 1, 1];
    assert PeekSize(kept) == 5;
    assert kept[..5] == [5, 0, 0, 0, 9];
  }
}
