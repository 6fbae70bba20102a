/** The directory cursor of the npclient library (src/libnpclient/readdir.c):
    a buffer of packed 9P2000.L directory entries refilled by Treaddir
    requests, consumed one entry per npc_readdir_r call, and a 64-bit offset
    saved and restored by npc_telldir and npc_seekdir.

    The RPC is an outcome parameter (`Reply`) and the entry decoder
    np_deserialize_p9dirent is a function parameter (`Decoder`). `Variant`
    selects between the code as written, which stores -1 in buf_len after a
    failed request, and a corrected form that stores 0 (see `LenAfterFailure`). */
module DirPager {
  import opened Common

  /** Bytes of a Rread/Rreaddir header the data must leave room for
      (size[4] type[1] tag[2] count[4] plus the iounit slack npfs reserves). */
  const IOHDRSZ: nat := 24

  const I32_LIMIT: int := 0x8000_0000
  const I64_LIMIT: int := 0x8000_0000_0000_0000

  /** A C `long` on the 64-bit targets the library is built for. */
  type long = x: int | -I64_LIMIT <= x < I64_LIMIT

  /** Conversion of a 32-bit unsigned value to a C `int`. */
  function ToInt32(x: u32): (r: int)
    ensures -I32_LIMIT <= r < I32_LIMIT
    ensures r % U32_LIMIT == x
  {
    if x < I32_LIMIT then x else x - U32_LIMIT
  }

  /** Conversion of a C `long` to u64 (modulo 2^64, as C does). */
  function LongToU64(x: long): (r: u64)
    ensures x >= 0 ==> r == x
    ensures x < 0 ==> r == x + U64_LIMIT
  {
    x % U64_LIMIT
  }

  /** Conversion of a u64 to a C `long`, taking the top bit as the sign. */
  function U64ToLong(x: u64): (r: long)
    ensures r % U64_LIMIT == x
  {
    if x < I64_LIMIT then x else x - U64_LIMIT
  }

  /** One entry as np_deserialize_p9dirent decodes it: qid[13] offset[8]
      type[1] name[s]. */
  datatype Dirent9 = Dirent9(qid: Qid, offset: u64, dtype: byte, name: string)

  /** What the decoder reports: bytes consumed (0 when the bytes do not hold
      a whole entry) and the entry. */
  datatype Decoded = Decoded(consumed: nat, entry: Dirent9)

  /** np_deserialize_p9dirent applied to the unread part of the buffer. */
  type Decoder = seq<byte> -> Decoded

  /** The decoder never consumes more bytes than it is given. */
  ghost predicate Bounded(dec: Decoder)
  {
    forall b :: dec(b).consumed <= |b|
  }

  /** The `struct dirent` filled in for the caller. */
  datatype Dirent = Dirent(ino: u64, dtype: byte, off: u64, name: string)

  /** The caller's view of a decoded entry: inode number from the qid path,
      type and offset as sent, the name. */
  function ToDirent(e: Dirent9): Dirent
  {
    Dirent(e.qid.path, e.dtype, e.offset, e.name)
  }

  /** The cursor fields of an Npcfid: the buffer (None when the fid was not
      opened with npc_opendir; otherwise the bytes of the last non-empty
      reply), its capacity, the valid length, the bytes consumed, and the
      directory offset of the next request. */
  datatype DirFid = DirFid(buf: Option<seq<byte>>, bufSize: int, bufLen: int, bufUsed: int, offset: u64)

  /** A cursor whose consumed and valid lengths describe a window inside the
      buffer: both are non-negative, and while entries remain the valid
      length is the length of the buffered reply. */
  predicate Inv(f: DirFid)
  {
    f.buf.Some? ==>
      && 0 <= f.bufUsed && 0 <= f.bufLen
      && (f.bufUsed < f.bufLen ==> f.bufLen == |f.buf.value|)
  }

  // ---------------------------------------------------------------------
  // npc_readdir
  // ---------------------------------------------------------------------

  /** How the Treaddir exchange went: a reply carrying data, or an error
      (the request allocation or the RPC failed, with its errno). */
  datatype Reply = Reply(data: seq<byte>) | RpcError(errno: Errno)

  /** A Treaddir request: directory offset and byte count. */
  datatype Request = Treaddir(offset: u64, count: int)

  /** What npc_readdir returns (the reply's byte count, or -1) and the bytes
      it copied into the caller's buffer. */
  datatype Fetched = Fetched(ret: int, data: seq<byte>)

  /** npc_readdir: one Treaddir exchange. The server never returns more than
      the count asked for (the library asserts it). */
  function NpcReaddir(offset: u64, count: int, reply: Reply): (r: Fetched)
    requires reply.Reply? ==> |reply.data| <= count
    ensures r.ret == -1 <==> reply.RpcError?
    ensures r.ret >= 0 ==> r.ret == |r.data| <= count && r.data == reply.data
    ensures r.ret == -1 ==> r.data == []
  {
    match reply
    case Reply(data) => Fetched(|data|, data)
    case RpcError(_) => Fetched(-1, [])
  }

  // ---------------------------------------------------------------------
  // npc_readdir_r
  // ---------------------------------------------------------------------

  /** The code as written, or with a failed request leaving an empty
      buffer. */
  datatype Variant = AsWritten | Corrected

  /** The value buf_len holds after a failed request: npc_readdir's -1 as
      written, 0 corrected. */
  function LenAfterFailure(v: Variant): int
  {
    match v
    case AsWritten => -1
    case Corrected => 0
  }

  /** How a call ends: an entry, the end of the directory (*result set to
      NULL, return 0), an error code, or, as written only, a decode of bytes
      outside the buffer, whose result the C code does not determine. */
  datatype Outcome = Entry(d: Dirent) | EndOfDir | Failed(code: Errno) | OutsideBuffer

  /** The value npc_readdir_r returns for an outcome: an error code above
      zero on error, 0 for an entry and for the end of the directory. */
  function ReturnCode(o: Outcome): (rc: int)
    requires !o.OutsideBuffer?
    ensures rc >= 0 && (rc > 0 <==> o.Failed?)
  {
    if o.Failed? then o.code else 0
  }

  /** Result of one call: the cursor afterwards, the outcome, and the
      Treaddir request the call made, if any. */
  datatype Step = Step(fid: DirFid, outcome: Outcome, request: Option<Request>)

  /** The unread bytes the decoder is handed, `buf + buf_used` for
      `buf_len - buf_used` bytes; None when that range is not inside the
      buffered reply. */
  function Window(f: DirFid): (w: Option<seq<byte>>)
    requires f.buf.Some?
    ensures w.Some? <==> 0 <= f.bufUsed <= f.bufLen <= |f.buf.value|
    ensures w.Some? ==> |w.value| == f.bufLen - f.bufUsed
  {
    if 0 <= f.bufUsed <= f.bufLen <= |f.buf.value| then Some(f.buf.value[f.bufUsed..f.bufLen]) else None
  }

  /** The second half of npc_readdir_r: decode the entry at the cursor; a
      decode of 0 bytes is EIO and leaves the cursor alone; otherwise the
      entry is returned and the cursor moves past it to its offset. */
  function Decode(f: DirFid, dec: Decoder, req: Option<Request>): (r: Step)
    requires f.buf.Some? && f.bufUsed < f.bufLen
    requires Bounded(dec)
    ensures r.request == req && r.fid.buf == f.buf && r.fid.bufSize == f.bufSize && r.fid.bufLen == f.bufLen
    ensures r.outcome.OutsideBuffer? <==> Window(f).None?
    ensures r.outcome.Entry? ==>
      var d := dec(Window(f).value);
      && d.consumed > 0
      && r.fid.bufUsed == f.bufUsed + d.consumed <= f.bufLen
      && r.fid.offset == d.entry.offset == r.outcome.d.off
      && r.outcome.d.ino == d.entry.qid.path && r.outcome.d.dtype == d.entry.dtype
      && r.outcome.d.name == d.entry.name
    ensures !r.outcome.Entry? ==> r.fid == f
    ensures r.outcome.Failed? ==> r.outcome.code == EIO && dec(Window(f).value).consumed == 0
    ensures r.outcome.Entry? || r.outcome.Failed? || r.outcome.OutsideBuffer?
  {
    match Window(f)
    case None => Step(f, OutsideBuffer, req)
    case Some(w) =>
      var d := dec(w);
      if d.consumed == 0 then Step(f, Failed(EIO), req)
      else
        Step(f.(offset := d.entry.offset, bufUsed := f.bufUsed + d.consumed),
             Entry(ToDirent(d.entry)), req)
  }

  /** npc_readdir_r: EINVAL for a fid not opened with npc_opendir; a
      Treaddir request at the saved offset for the full capacity when the
      buffer is used up (a failed request returns its errno, an empty reply
      is the end of the directory); then the entry at the cursor. */
  function ReaddirR(v: Variant, f: DirFid, reply: Reply, dec: Decoder): (r: Step)
    requires f.buf.Some? && f.bufUsed >= f.bufLen && reply.Reply? ==> |reply.data| <= f.bufSize
    requires Bounded(dec)
    ensures f.buf.None? ==> r == Step(f, Failed(EINVAL), None)
    ensures r.request.Some? <==> f.buf.Some? && f.bufUsed >= f.bufLen
    ensures r.request.Some? ==> r.request.value == Treaddir(f.offset, f.bufSize)
    ensures r.fid.buf.Some? <==> f.buf.Some?
    ensures r.fid.bufSize == f.bufSize
    ensures r.request.Some? && reply.RpcError? ==>
      r.outcome == Failed(reply.errno) && r.fid == f.(bufLen := LenAfterFailure(v))
    ensures r.request.Some? && reply == Reply([]) ==>
      r.outcome == EndOfDir && r.fid == f.(bufLen := 0)
    ensures r.request.Some? && reply.Reply? && reply.data != [] ==>
      r == Decode(f.(buf := Some(reply.data), bufLen := |reply.data|, bufUsed := 0), dec, r.request)
    ensures r.outcome.EndOfDir? ==> r.request.Some?
    ensures !r.outcome.Entry? ==> r.fid.offset == f.offset
    ensures r.outcome.Entry? ==> r.fid.offset == r.outcome.d.off
    ensures r.request.None? && f.buf.Some? ==> r == Decode(f, dec, None)
    ensures v == Corrected && Inv(f) ==> Inv(r.fid) && !r.outcome.OutsideBuffer?
    ensures f.buf.None? ==> ReturnCode(r.outcome) == EINVAL
    ensures r.request.Some? && reply.RpcError? ==> ReturnCode(r.outcome) == reply.errno
    ensures r.request.Some? && reply == Reply([]) ==> ReturnCode(r.outcome) == 0 && r.outcome.EndOfDir?
  {
    if f.buf.None? then Step(f, Failed(EINVAL), None)
    else if f.bufUsed >= f.bufLen then
      var req := Treaddir(f.offset, f.bufSize);
      var fetched := NpcReaddir(f.offset, f.bufSize, reply);
      if fetched.ret < 0 then Step(f.(bufLen := LenAfterFailure(v)), Failed(reply.errno), Some(req))
      else if fetched.ret == 0 then Step(f.(bufLen := 0), EndOfDir, Some(req))
      else Decode(f.(buf := Some(fetched.data), bufLen := fetched.ret, bufUsed := 0), dec, Some(req))
    else Decode(f, dec, None)
  }

  // ---------------------------------------------------------------------
  // npc_seekdir, npc_telldir, npc_opendir
  // ---------------------------------------------------------------------

  /** npc_seekdir: the offset is set and the buffer marked used up, so the
      next read issues a request at the new offset. */
  function Seekdir(f: DirFid, off: long): (r: DirFid)
    ensures r.offset == LongToU64(off) && r.bufUsed >= r.bufLen
    ensures r.buf == f.buf && r.bufSize == f.bufSize && r.bufLen == f.bufLen
  {
    f.(offset := LongToU64(off), bufUsed := f.bufLen)
  }

  /** npc_telldir: the saved offset, as a long. */
  function Telldir(f: DirFid): (r: long)
    ensures LongToU64(r) == f.offset
  {
    U64ToLong(f.offset)
  }

  /** What looking up the path gave: an open fid, or the lookup's errno. */
  datatype Lookup = Found | LookupFailed(errno: Errno)

  /** What npc_fstat gave: whether the file is a directory, or its errno. */
  datatype Stat = StatOk(isDir: bool) | StatFailed(errno: Errno)

  /** npc_opendir: NULL with the errno, the fid clunked when it had been
      opened; or a cursor at offset 0 with an empty buffer of
      msize - IOHDRSZ bytes. */
  datatype Opened = DirOpened(fid: DirFid) | DirFailed(errno: Errno, clunked: bool)

  /** npc_opendir with the buffer allocation succeeding. */
  function Opendir(msize: u32, lookup: Lookup, stat: Stat): (r: Opened)
    ensures r.DirOpened? <==> lookup.Found? && stat == StatOk(true)
    ensures lookup.LookupFailed? ==> r == DirFailed(lookup.errno, false)
    ensures lookup.Found? && stat == StatOk(false) ==> r == DirFailed(ENOTDIR, true)
    ensures lookup.Found? && stat.StatFailed? ==> r == DirFailed(stat.errno, true)
    ensures r.DirOpened? ==>
      && r.fid.buf == Some([]) && r.fid.offset == 0 && r.fid.bufLen == 0 && r.fid.bufUsed == 0
      && (msize >= IOHDRSZ && msize < I32_LIMIT ==> r.fid.bufSize == msize - IOHDRSZ)
      && Inv(r.fid)
  {
    match lookup
    case LookupFailed(e) => DirFailed(e, false)
    case Found =>
      match stat
      case StatFailed(e) => DirFailed(e, true)
      case StatOk(isDir) =>
        if !isDir then DirFailed(ENOTDIR, true)
        else DirOpened(DirFid(Some([]), ToInt32((msize - IOHDRSZ) % U32_LIMIT), 0, 0, 0))
  }

  // ---------------------------------------------------------------------
  // Properties
  // ---------------------------------------------------------------------

  /** Reference reading of a reply: the entries packed in `data` from
      position `used` on, up to its end or to the first undecodable bytes. */
  function EntriesFrom(data: seq<byte>, used: nat, dec: Decoder): (es: seq<Dirent>)
    requires used <= |data| && Bounded(dec)
    ensures |es| <= |data| - used
    decreases |data| - used
  {
    if used == |data| then []
    else
      var d := dec(data[used..]);
      if d.consumed == 0 then [] else [ToDirent(d.entry)] + EntriesFrom(data, used + d.consumed, dec)
  }

  /** Calling npc_readdir_r while the buffer still holds entries: the
      entries returned and the cursor once the buffer is used up or an entry
      does not decode. */
  function Consume(f: DirFid, dec: Decoder): (r: (seq<Dirent>, DirFid))
    requires Inv(f) && f.buf.Some? && Bounded(dec)
    decreases if f.bufUsed < f.bufLen then f.bufLen - f.bufUsed else 0
  {
    if f.bufUsed >= f.bufLen then ([], f)
    else
      var s := ReaddirR(Corrected, f, Reply([]), dec);
      if s.outcome.Entry? then
        var rest := Consume(s.fid, dec);
        ([s.outcome.d] + rest.0, rest.1)
      else ([], f)
  }

  /** Paging through a buffered reply returns exactly its packed entries, in
      order, without any further request; afterwards the saved offset is
      that of the last entry returned, so the next request resumes right
      after it. */
  lemma {:induction false} ConsumeYieldsEntries(f: DirFid, dec: Decoder)
    requires f.buf.Some? && 0 <= f.bufUsed <= f.bufLen == |f.buf.value| && Bounded(dec)
    ensures Inv(f)
    ensures var r := Consume(f, dec);
      && r.0 == EntriesFrom(f.buf.value, f.bufUsed, dec)
      && r.1.buf == f.buf && r.1.bufLen == f.bufLen && r.1.bufSize == f.bufSize
      && (r.0 == [] ==> r.1 == f)
      && (r.0 != [] ==> r.1.offset == r.0[|r.0| - 1].off)
    decreases f.bufLen - f.bufUsed
  {
    if f.bufUsed < f.bufLen {
      var s := ReaddirR(Corrected, f, Reply([]), dec);
      assert f.buf.value[f.bufUsed..f.bufLen] == f.buf.value[f.bufUsed..];
      if s.outcome.Entry? {
        ConsumeYieldsEntries(s.fid, dec);
      }
    }
  }

  /** A refill that brings entries starts the new page at its first byte:
      the call returns the page's first entry, and reading on returns the
      rest of the page, so every entry the reply packs is handed out once, in
      order. A page whose first entry does not decode gives EIO. */
  lemma RefillYieldsPage(v: Variant, f: DirFid, data: seq<byte>, dec: Decoder)
    requires f.buf.Some? && f.bufUsed >= f.bufLen && 0 < |data| <= f.bufSize && Bounded(dec)
    ensures var s := ReaddirR(v, f, Reply(data), dec);
      && s.request == Some(Treaddir(f.offset, f.bufSize))
      && Inv(s.fid) && s.fid.buf == Some(data)
      && (s.outcome.Entry? ==> [s.outcome.d] + Consume(s.fid, dec).0 == EntriesFrom(data, 0, dec))
      && (!s.outcome.Entry? ==> s.outcome == Failed(EIO) && EntriesFrom(data, 0, dec) == [])
  {
    var s := ReaddirR(v, f, Reply(data), dec);
    assert data[0..|data|] == data[0..] == data;
    ConsumeYieldsEntries(s.fid, dec);
  }

  /** Telling after seeking gives back the offset sought, for every long. */
  lemma SeekThenTell(f: DirFid, off: long)
    ensures Telldir(Seekdir(f, off)) == off
  {
  }

  /** After a seek the next read requests entries at the new offset, even
      when buffered entries remained. */
  lemma SeekForcesRequest(v: Variant, f: DirFid, off: long, reply: Reply, dec: Decoder)
    requires f.buf.Some? && (reply.Reply? ==> |reply.data| <= f.bufSize) && Bounded(dec)
    ensures ReaddirR(v, Seekdir(f, off), reply, dec).request == Some(Treaddir(LongToU64(off), f.bufSize))
  {
  }

  /** As written: a failed request, a seek, and a request answered with no
      entries leave buf_used at -1 below buf_len 0, so the next call skips
      the request and decodes from one byte before the buffer; corrected,
      that call requests entries again. */
  lemma FailedRequestThenSeek(dec: Decoder)
    requires Bounded(dec)
    ensures var f0 := DirFid(Some([]), 100, 0, 0, 0);
      var a1 := ReaddirR(AsWritten, f0, RpcError(EIO), dec).fid;
      var a2 := ReaddirR(AsWritten, Seekdir(a1, 0), Reply([]), dec);
      var a3 := ReaddirR(AsWritten, a2.fid, Reply([]), dec);
      var c1 := ReaddirR(Corrected, f0, RpcError(EIO), dec).fid;
      var c2 := ReaddirR(Corrected, Seekdir(c1, 0), Reply([]), dec);
      var c3 := ReaddirR(Corrected, c2.fid, Reply([]), dec);
      && a2.outcome == EndOfDir && a2.fid.bufUsed == -1 && a2.fid.bufLen == 0
      && a3.request.None? && a3.outcome == OutsideBuffer
      && c2.outcome == EndOfDir && c3.request == Some(Treaddir(0, 100)) && c3.outcome == EndOfDir
  {
  }
}
