# diod core, modelled in Dafny

This project models four sequential cores of the diod 9P file server and proves properties about them:

- **The path pool and handle sharing** of the server (`src/libdiod/diod_ioctx.c`).
  - Paths are interned as reference-counted strings, and each path keeps a list of open storage handles (IOCtx), head first.
  - A read-only open by a fid with descriptor sharing reuses the first handle in that list that is a plain file opened with the same flags by the same uid.
  - Each handle caches its advisory-lock state, which `ioctx_flock` and `ioctx_testlock` maintain.
  - Modules `HandleList`, `IoCtx` and `IoCtxLock`.
- **The file-descriptor transport** of npfs (`src/libnpfs/fdtrans.c`).
  - It frames an inbound byte stream into 9P messages. Each message starts with a little-endian `size[4]` field that counts itself, as intro(5) of the Plan 9 manual, section 5, describes.
  - Bytes read past a message are kept for the next receive.
  - It writes outbound messages completely, retrying on EINTR.
  - Modules `FdTrans` (the operations) and `FdTransStream` (properties over whole streams).
- **The directory cursor** of the npclient library (`src/libnpclient/readdir.c`). It pages through Treaddir replies with `npc_readdir_r`, `npc_seekdir` and `npc_telldir`. Module `DirPager`.
- **The connection logic** of npfs (`src/libnpfs/conn.c`). Module `Conn`. It covers:
  - the request whitelist;
  - the reader loop's dispatch decisions;
  - the connection reference count;
  - the authenticated-user slot.

Every operation is one atomic step over immutable values. The pool is a `map<string, PathRec>`, the handles are a `map<HandleId, Handle>`, and each path's intrusive list is a `seq<HandleId>`.

System calls and library calls become parameters that carry their outcome:
- open/fstat/close/flock;
- read/write (a scripted `Input` of bytes and read events);
- allocation results;
- the 9P RPC and the dirent decoder.

`Common` holds the shared types: bytes, u32/u64, errno values, and qids.

Three places in the C code misbehave on inputs that can really arrive (see "## Findings"). In each, the model has a `Variant` parameter: `AsWritten` follows the code and `Corrected` repairs it. The properties are proved about `Corrected`. The stream properties of the transport are also proved about `AsWritten`, for a msize that stays the same. Separate lemmas show where the two agree and exhibit the input on which they differ.

## Model

| member | source | states |
|---|---|---|
| HandleList.Link | src/libdiod/diod_ioctx.c:89-97 | the handle becomes the head of the list; the members are the old ones plus it, and a list without duplicates stays without them |
| HandleList.Unlink | src/libdiod/diod_ioctx.c:77-87 | the first occurrence of the handle is cut out; the elements before it and after it keep their relative order |
| HandleList.UnlinkMembers | src/libdiod/diod_ioctx.c:77-87 | in a list without duplicates, unlinking removes exactly that handle, keeps every other one, and introduces no duplicates |
| HandleList.UnlinkUndoesLink | src/libdiod/diod_ioctx.c:77-97 | unlinking the handle that linking put at the head gives back the original list |
| IoCtx.EmptyPool | src/libdiod/diod_ioctx.c:581-603 | the pool a server starts with is empty and satisfies the pool invariant and the keying invariant |
| IoCtx.PathIncref | src/libdiod/diod_ioctx.c:438-446 | one more reference on a live path; the path's handles, every other path, and the handle table are unchanged; the invariant is kept |
| IoCtx.PathDecref | src/libdiod/diod_ioctx.c:428-463 | the count drops by one, and the path leaves the pool exactly when its last reference goes; a path being freed must have no handles; nothing else changes and the invariant "in the pool iff count >= 1" is kept |
| IoCtx.CStr | src/libdiod/diod_ioctx.c:589-591 | the C string a byte sequence stands for under hash_key_string and strcmp is never longer than the bytes |
| IoCtx.CStrPrefix | src/libdiod/diod_ioctx.c:589-591 | that C string is a prefix of the bytes, followed by a NUL unless it is all of them |
| IoCtx.CStrNulFree | src/libdiod/diod_ioctx.c:589-591 | that C string holds no NUL |
| IoCtx.CStrIsFirstNul | src/libdiod/diod_ioctx.c:589-591 | the prefix that ends at the first NUL, or is all of the bytes when there is none, is that C string, and no other prefix is |
| IoCtx.PathAlloc | src/libdiod/diod_ioctx.c:465-499 | the lookup is by the C string of the bytes; a hit returns the existing path with one more reference, its text unchanged, and adds no key; a miss inserts a path with count 1, no handles and all the bytes as its text, under their C string; a failed allocation or insertion leaves the pool unchanged and yields no path; every path stays stored under the C string of its text |
| IoCtx.PathCreate | src/libdiod/diod_ioctx.c:465-509 | a returned path is the protocol string up to its first NUL, which is the whole string when it holds none, and is in the pool; a failed copy leaves the pool alone; a hit adds exactly one reference to the existing path and changes nothing else; a successful miss adds exactly a path with count 1, no handles and all the name's bytes |
| IoCtx.SameCStrSamePath | src/libdiod/diod_ioctx.c:465-509 | two names that agree up to their first NUL intern to the same path: the second is a hit on the first and adds no key |
| IoCtx.JoinPath | src/libdiod/diod_ioctx.c:511-524 | the built bytes are the base's, then one '/', then the component's, with length base + 1 + name |
| IoCtx.PathAppend | src/libdiod/diod_ioctx.c:465-524 | interns the C string of the base path's stored bytes, '/', and the component's bytes, and returns it; with every allocation succeeding it always returns a path; a hit adds exactly one reference to the existing path and changes nothing else; a successful miss adds exactly a path with count 1, no handles and the joined bytes; a failed buffer allocation returns no path and leaves the pool |
| IoCtx.JoinCStr | src/libdiod/diod_ioctx.c:511-524 | the C string of the joined bytes is the base, '/', and the component up to its first NUL when the base holds no NUL, and the C string of the base when it does |
| IoCtx.BaseKeyJoin | src/libdiod/diod_ioctx.c:511-524 | the same, in terms of the key the base's text is stored under |
| IoCtx.AppendKey | src/libdiod/diod_ioctx.c:511-524 | appending to a live path whose text holds no NUL returns `base/name` cut at the name's first NUL, of length base + 1 + that; appending to a path whose text holds a NUL returns the base path itself and adds no key |
| IoCtx.InternThenRelease | src/libdiod/diod_ioctx.c:448-499 | interning bytes and releasing the reference on their C string gives back exactly the pool before it, for a hit and for a miss |
| IoCtx.FirstShareable | src/libdiod/diod_ioctx.c:225-237 | returns the position of the first handle in list order that is a plain file with equal flags and equal uid; no earlier handle, and no handle at all when it returns none, qualifies |
| IoCtx.NewHandle | src/libdiod/diod_ioctx.c:154-193 | a freshly opened handle holds one reference, is unlocked, has iounit 0, and records the qid, flags, uid and owning path |
| IoCtx.IoctxOpen | src/libdiod/diod_ioctx.c:216-249 | keeps the pool invariant; reuses only when sharing is on and the mode is read-only, and then reuses the first shareable handle with its count + 1 and the lists unchanged; otherwise links a new handle at the head; a failed storage open changes nothing and returns -1; return 0 iff the fid now holds a handle; every path stays stored under the C string of its text |
| IoCtx.NoHitNoShareable | src/libdiod/diod_ioctx.c:225-238 | when the scan finds nothing, no handle on the path could have been shared |
| IoCtx.ReuseHandle | src/libdiod/diod_ioctx.c:225-237 | the reuse branch: the first shareable handle, owned by the fid's path, gains one reference and nothing else changes |
| IoCtx.CreateHandle | src/libdiod/diod_ioctx.c:238-241 | the fresh branch: a handle with an unused identifier, one reference, unlocked, linked at the head of the path's list |
| IoCtx.OpenKeepsValid | src/libdiod/diod_ioctx.c:238-241 | linking a fresh handle at the head of a path's list keeps the pool invariant |
| IoCtx.IoctxClose | src/libdiod/diod_ioctx.c:195-214 | the fid loses its handle in every case; the handle is unlinked and destroyed iff its count was 1, and only then can the result be -1 (a failed close); otherwise the count drops by one and the paths are unchanged; the invariant and the keying of paths are kept |
| IoCtx.DestroyHandle | src/libdiod/diod_ioctx.c:133-152 | the last reference unlinks exactly that handle from its path, drops it from the table, and leaves every other path alone |
| IoCtx.OpenThenCloseRestores | src/libdiod/diod_ioctx.c:195-249 | a successful open followed by a close of the same fid gives back the paths and handles from before; the close destroys the handle exactly when the open created it |
| IoCtx.SecondOpenShares | src/libdiod/diod_ioctx.c:216-249 | two read-only, sharing opens of a plain file by one uid: the second reuses the first's handle whatever its storage open would give, and the handle holds two references |
| IoCtx.CountHandles | src/libdiod/diod_ioctx.c:99-108 | counts the handles on a path's list and sums their reference counts; the sum is at least the count |
| IoCtxLock.Flock | src/libdiod/diod_ioctx.c:357-369 | a failed flock leaves the handle unchanged and returns -1; on success the cached state becomes UN if the UN bit is set, else SH if the SH bit is set, else EX if the EX bit is set, and stays as it was when no bit is set; nothing but the lock state ever changes |
| IoCtxLock.TestLock | src/libdiod/diod_ioctx.c:371-409 | answers without probing when the handle holds a lock (an exclusive request against a cached shared lock counts as available) or when the type is neither SH nor EX; only an unlocked handle probes non-blocking, and it releases again after a successful probe; it returns no handle, so the cached state cannot change |
| IoCtxLock.ProbeLeavesLockState | src/libdiod/diod_ioctx.c:371-409 | replaying testlock's flock calls through the lock-state machine brings the handle back to exactly its state before |
| IoCtxLock.LockThenUnlock | src/libdiod/diod_ioctx.c:357-369 | a successful lock followed by a successful unlock leaves the handle unlocked with nothing else changed |
| FdTrans.PeekSize | src/libnpfs/fdtrans.c:103 | the size field is a 32-bit value, and 0 while fewer than four bytes are present |
| FdTrans.EncodeSize | src/libnpfs/fdtrans.c:103 | the size[4] field is four bytes |
| FdTrans.PeekEncode | src/libnpfs/fdtrans.c:103 | reading back an encoded size field gives the size, whatever bytes follow |
| FdTrans.PeekExtension | src/libnpfs/fdtrans.c:127-133 | once four bytes are present, more bytes do not change the size field, so it is peeked only once |
| FdTrans.Read | src/libnpfs/fdtrans.c:117-125 | one read returns at most the requested count, taken off the front of the stream, or reports EINTR or an error without consuming bytes |
| FdTrans.ReadCount | src/libnpfs/fdtrans.c:117 | the count asked of read is `msize - len` while len <= msize; the corrected count is 0 beyond it |
| FdTrans.LoopTurn | src/libnpfs/fdtrans.c:116-134 | one turn of the loop: the bytes are conserved, the buffer grows by at most the read count, an oversized size field ends the loop, and the turn makes progress using up at most one read event; a failed read other than EINTR stops the loop with its errno and the buffer unchanged, and only a failed read does |
| FdTrans.FillLoop | src/libnpfs/fdtrans.c:116-134 | the loop conserves the stream, extends the buffer, ends Full only with 0 < size <= len and size <= msize, and ends Oversize exactly when the size field exceeds msize; an incomplete buffer facing a failed read ends at once with that errno, and the loop ends with a read error only for one of the stream's failed reads |
| FdTrans.FillBounded | src/libnpfs/fdtrans.c:117 | a buffer holding at most msize bytes never grows past msize; with the corrected count, a buffer already at msize is not grown |
| FdTrans.Deliver | src/libnpfs/fdtrans.c:135-153 | a full buffer hands out its first size bytes as the message and keeps the rest verbatim for the next receive; EOF, oversize (EPROTO) and read errors hand out nothing and keep nothing |
| FdTrans.Continue | src/libnpfs/fdtrans.c:116-153 | a delivered message is exactly as long as the stream's size field, between 1 and msize bytes; the corrected code keeps the transport invariant and never fills past the buffer's capacity |
| FdTrans.ReturnCode | src/libnpfs/fdtrans.c:143-153 | -1 exactly for an error result, 0 for a message and for end of stream |
| FdTrans.Recv | src/libnpfs/fdtrans.c:92-154 | continues a retained buffer or allocates a new one (ENOMEM on failure); a retained size field above the current msize gives EPROTO before any read; a retained complete message is handed out without a read, keeping the bytes after it (or ENOMEM when the spill buffer cannot be allocated); a message equals the stream's first size bytes; the corrected code keeps the invariant and the capacity bound |
| FdTrans.FillBuffer | src/libnpfs/fdtrans.c:116-134 | the imperative read loop computes the same end state as the functional loop |
| FdTrans.Receive | src/libnpfs/fdtrans.c:92-154 | the imperative receive computes the same result as Recv |
| FdTrans.SendFails | src/libnpfs/fdtrans.c:165-174 | sending reaches a failed write only while bytes remain and only if some write fails; a failed write met while bytes remain is reached |
| FdTrans.Send | src/libnpfs/fdtrans.c:156-178 | returns fc->size after writing exactly the message's bytes in order, retrying on EINTR and short writes; returns -1, after writing a prefix, exactly when a failed write is reached while bytes remain; without failures the send always completes |
| FdTrans.Create | src/libnpfs/fdtrans.c:38-64 | a transport exists iff both allocations succeed; it holds the two descriptors and nothing retained |
| FdTrans.Destroy | src/libnpfs/fdtrans.c:66-80 | closes exactly the non-negative descriptors among fdin and fdout, fdin first, and never the same descriptor twice |
| FdTransStream.Messages | src/libnpfs/fdtrans.c:143-145 | the receive results that hand out a list of messages in order |
| FdTransStream.RecvKeepsReady | src/libnpfs/fdtrans.c:92-154 | a receive at an unchanged msize leaves the transport ready for the next one, as written and corrected: the invariant holds, the buffer is at least msize large, and, as written, at most msize bytes are retained |
| FdTransStream.Drain | src/libnpfs/fdtrans.c:92-154 | receiving over and over at one msize, as written or corrected, yields messages followed by exactly one final non-message result |
| FdTransStream.EncodedIsWellFormed | src/libnpfs/fdtrans.c:103 | a size field followed by a body of the announced length is a well-formed message |
| FdTransStream.BenignRead | src/libnpfs/fdtrans.c:117-126 | on a stream without failures, a read while data remains returns data or EINTR, never zero bytes |
| FdTransStream.FillFindsMessage | src/libnpfs/fdtrans.c:116-134 | on a stream that starts with a well-formed message, the loop stops Full with exactly that message, and the surplus plus the unread rest is the stream's tail |
| FdTransStream.FillIncomplete | src/libnpfs/fdtrans.c:124-125 | a stream that ends inside a message (including inside its size field) ends the loop at EOF, with the partial bytes in the buffer |
| FdTransStream.FillRejectsOversize | src/libnpfs/fdtrans.c:127-132 | a size field above msize ends the loop as Oversize |
| FdTransStream.RecvNextMessage | src/libnpfs/fdtrans.c:92-154 | one receive, as written or corrected, on a stream starting with a well-formed message hands out that message and keeps the bytes after it, retained or unread |
| FdTransStream.RecvReadFails | src/libnpfs/fdtrans.c:116-123 | a failed read while the message is incomplete makes the receive return -1 with that errno, retaining nothing and using up only that read |
| FdTransStream.RecvAtEnd | src/libnpfs/fdtrans.c:146-149 | with nothing retained and nothing left to read, a receive reports end of stream, as written and corrected |
| FdTransStream.DrainFirst | src/libnpfs/fdtrans.c:99-145 | draining a stream that starts with a message gives that message, then the drain of what follows, from a transport still ready |
| FdTransStream.RoundTrip | src/libnpfs/fdtrans.c:92-154 | well-formed messages laid end to end, split into reads of any sizes and interrupted anywhere, are received as exactly those messages in order, then end of stream; this holds as written and corrected while msize stays the same |
| FdTransStream.TruncatedIsEndOfStream | src/libnpfs/fdtrans.c:146-149 | a stream that stops inside a message gives end of stream, and the partial message is dropped, as written and corrected |
| FdTransStream.OversizeRejected | src/libnpfs/fdtrans.c:104-107 | a size field above the current msize gives EPROTO, in a retained buffer and in a fresh read alike |
| FdTransStream.FillAgrees | src/libnpfs/fdtrans.c:117 | while the buffer holds at most msize bytes, the loop as written and the corrected loop agree |
| FdTransStream.RecvAgreesWhenFits | src/libnpfs/fdtrans.c:99-142 | while the retained bytes fit into msize, the receive as written and the corrected receive deliver the same results |
| FdTransStream.ReadCountOverrun | src/libnpfs/fdtrans.c:99-117 | as written, six retained bytes with a size field of 0 and msize 4 make the read count wrap, and 14 bytes land in an 8-byte buffer |
| FdTransStream.SpillOverrun | src/libnpfs/fdtrans.c:135-142 | as written, 15 bytes retained in a 16-byte buffer and holding a 5-byte message, received after msize shrank to 8, have their 10 leftover bytes copied into an 8-byte buffer; the corrected spill keeps the 16-byte capacity |
| DirPager.ToInt32 | src/libnpclient/readdir.c:71 | buf_size, the u32 `msize - IOHDRSZ` stored into a C int: a value in the int range, equal to it modulo 2^32 |
| DirPager.LongToU64 | src/libnpclient/readdir.c:135 | a long stored into the u64 offset keeps non-negative values and wraps negative ones |
| DirPager.U64ToLong | src/libnpclient/readdir.c:142 | the u64 offset returned as a long agrees modulo 2^64 |
| DirPager.NpcReaddir | src/libnpclient/readdir.c:35-56 | returns the reply's byte count and exactly its bytes, at most the requested count; a failed exchange returns -1 and no bytes |
| DirPager.Window | src/libnpclient/readdir.c:114-117 | the bytes handed to the decoder are the unread part, of length buf_len - buf_used, and exist only when that window lies inside the buffer |
| DirPager.Decode | src/libnpclient/readdir.c:114-129 | a decoded entry advances buf_used by exactly its length and sets offset to the entry's offset, with d_ino = qid.path and d_type = type; a result of 0 gives EIO and changes nothing |
| DirPager.ReturnCode | src/libnpclient/readdir.c:88-90 | above zero exactly for an error, 0 for an entry and for the end of the directory |
| DirPager.ReaddirR | src/libnpclient/readdir.c:88-130 | EINVAL (the return code) and no change for a fid not opened as a directory; a refill request only when buf_used >= buf_len, at the current offset for buf_size bytes; a failed refill returns its positive error code, an empty one is end of directory, a non-empty one becomes the buffer and is decoded from position 0; the corrected code keeps the cursor inside the buffer |
| DirPager.RefillYieldsPage | src/libnpclient/readdir.c:103-129 | a non-empty refill requested at the current offset becomes the buffer, and its first entry followed by the entries read after it are exactly the entries packed in the reply; a reply holding no entry gives EIO |
| DirPager.Seekdir | src/libnpclient/readdir.c:132-137 | sets the offset and marks the buffer used up, leaving the buffer itself alone |
| DirPager.Telldir | src/libnpclient/readdir.c:139-143 | returns the stored offset |
| DirPager.Opendir | src/libnpclient/readdir.c:58-86 | ENOTDIR for a non-directory; lookup and stat errors pass through; an opened directory starts with offset 0, buf_len 0, buf_used 0 and buf_size = msize - IOHDRSZ |
| DirPager.EntriesFrom | src/libnpclient/readdir.c:114-119 | the entries packed in a reply from a position on, never more than the bytes left |
| DirPager.ConsumeYieldsEntries | src/libnpclient/readdir.c:114-129 | reading entries until the buffer runs out returns exactly the entries packed in it, in order, and leaves the offset at the last one's |
| DirPager.SeekThenTell | src/libnpclient/readdir.c:132-143 | telldir after seekdir gives back the offset sought, for every long |
| DirPager.SeekForcesRequest | src/libnpclient/readdir.c:103-105 | the read after a seek always requests entries at the new offset |
| DirPager.FailedRequestThenSeek | src/libnpclient/readdir.c:103-137 | as written, a failed refill followed by a seek and an empty reply leaves buf_used = -1, and the next call decodes before the buffer; the corrected cursor requests again |
| Conn.CheckAllowed | src/libnpfs/conn.c:159-203 | 1 exactly for the request types of 9P2000 and 9P2000.L, 0 for every other type |
| Conn.RepliesRejected | src/libnpfs/conn.c:159-203 | every accepted type is an even T-message, and its R-message is rejected |
| Conn.StopFor | src/libnpfs/conn.c:218-248 | the loop stops as Disallowed exactly for an arrived message the whitelist rejects |
| Conn.DispatchStep | src/libnpfs/conn.c:249-265 | dispatching one more message adds it to the queue, or to the Tflush count when it is a Tflush |
| Conn.ReadProc | src/libnpfs/conn.c:207-272 | handles messages in order and stops at the first receive error, end of stream, disallowed type or failed request allocation; Tflush is counted and never enqueued; every other handled message is enqueued, in order |
| Conn.Create | src/libnpfs/conn.c:33-72 | a new connection has refcount 0, no authenticated user and the server's msize |
| Conn.Incref | src/libnpfs/conn.c:74-80 | adds one reference and changes nothing else |
| Conn.Decref | src/libnpfs/conn.c:82-90 | requires a reference and takes one away, changing nothing else |
| Conn.RefsBalance | src/libnpfs/conn.c:74-90 | a sequence of increfs and decrefs is allowed iff no prefix releases more than it holds; the final count is the initial count plus increfs minus decrefs |
| Conn.BalancedIsDestroyable | src/libnpfs/conn.c:92-98 | a new connection, referenced and released in a balanced way, can be destroyed |
| Conn.SetAuthuser | src/libnpfs/conn.c:322-326 | records the user and changes nothing else |
| Conn.GetAuthuser | src/libnpfs/conn.c:328-340 | returns -1 and stores nothing while no user is set; otherwise returns 0 and stores the user when there is somewhere to store it |
| Conn.NewConnUnauthenticated | src/libnpfs/conn.c:57 | get on a new connection returns -1 |
| Conn.SetThenGet | src/libnpfs/conn.c:322-340 | after set(u) with u not NONUNAME, get returns 0 and u |

## Left out

- Concurrency: the pool, path, handle, connection and transport mutexes, the condition variables, the reader and worker threads, `np_conn_flush`, `np_conn_cleanup` and thread signalling. Each operation is modelled as one atomic step.
- System calls (open, fstat, fdopendir, close, closedir, flock, read, write) are outcome parameters. The pass-through wrappers of diod_ioctx.c (pread, pwrite, stat, chmod, chown, truncate, utimes, rewinddir, seekdir, fsync, iounit, qid) carry no logic and are left out.
- `ioctx_readdir`: it only takes a lock around readdir/telldir.
- The path hash table is a Dafny map. Only its insertion outcome is a parameter.
- `diod_ustat2qid` is abstract: a successful storage open carries its qid. `np_user_incref`/`np_user_decref` are not modelled.
- `np_alloc_fcall` is abstract: its success is a boolean parameter.
- `np_deserialize_p9dirent`, `np_create_treaddir` and the RPC are abstract: the decoder is a function parameter, and the reply is a parameter.
- `np_req_respond_flush` and the request queue: the reader loop's result records what was enqueued and how many Tflush were handled.
- The `np_uerror` side effects (errno values) are modelled only where a value is returned (EPROTO, ENOMEM and read errors as the receive result).
- The debug trace, logging, `ppool_init`/`ppool_fini` beyond the empty pool, and the ctl-file dump.
- DirPager.Opendir: models a successful buffer allocation only. After a failed malloc, the C code writes through the NULL fid it has just cleared, which has no meaningful outcome to model.
- DirPager.Decode: the dirent's `d_reclen` is not set by the C code and is not modelled. The name is copied as the decoder returns it.
- Conn.ReadProc: `Exhausted` stands for the loop still waiting for its next receive once the given events run out.
- FdTrans.FillLoop: a size field of 1 to 3 (smaller than the field itself) is accepted as the C code accepts it, so the stream properties require message sizes of at least 4.
- IoCtx: path names are `seq<char>`, one char per byte of the 9P string, with no character encoding.
- FdTrans.Recv: the corrected variant returns no descriptor-level error for the wrapped read count. It asks read(2) for 0 bytes instead, which the loop takes as end of stream.

## Findings

| source | as written | input that shows it | evidently intended | confidence | as-written member | corrected member |
|---|---|---|---|---|---|---|
| src/libnpfs/fdtrans.c:99-117 | the read count `msize - len` is computed in u32 after resuming a retained buffer whose size field is 0 | msize shrinks from 8 to 4 while 6 bytes with a zero size field are retained: the count wraps to about 2^32 and a read writes 14 bytes into the 8-byte buffer | never ask for more than the buffer's free space | not executed | FdTransStream.ReadCountOverrun | FdTrans.Recv |
| src/libnpfs/fdtrans.c:135-142 | the buffer for the leftover bytes is allocated with the current msize, which can be smaller than the leftover | 15 bytes retained in a 16-byte buffer, starting with a 5-byte message, while msize has shrunk from 16 to 8: the 10 leftover bytes are copied into an 8-byte buffer | size the spill buffer to hold the leftover bytes | not executed | FdTransStream.SpillOverrun | FdTrans.Recv |
| src/libnpclient/readdir.c:103-107 | a failed refill stores -1 into buf_len; npc_seekdir then copies it into buf_used | refill fails, seekdir(0), the next refill returns 0 bytes (buf_len 0, buf_used -1), and the following call decodes at buf - 1 | leave the buffer empty after a failed refill | not executed | DirPager.FailedRequestThenSeek | DirPager.ReaddirR |
