/** The cached advisory-lock state of a handle (ioctx_flock and
    ioctx_testlock in src/libdiod/diod_ioctx.c). The real flock(2) calls are
    outcome parameters; the test operation is a pure function of the handle
    that returns no new handle, so it cannot change the cached state. */
module IoCtxLock {
  import opened IoCtx

  /** flock(2) operation bits (Linux values). */
  const LOCK_SH: bv32 := 1
  const LOCK_EX: bv32 := 2
  const LOCK_NB: bv32 := 4
  const LOCK_UN: bv32 := 8

  /** Result of ioctx_flock: the handle and the return code. */
  datatype Locked = Locked(handle: Handle, rc: int)

  /** The cached state a successful flock(op) leaves: the unlock bit wins
      over the shared bit, which wins over the exclusive bit; an operation
      with none of them keeps the previous state. */
  function Granted(prior: LockType, op: bv32): LockType
  {
    if op & LOCK_UN != 0 then LockUn
    else if op & LOCK_SH != 0 then LockSh
    else if op & LOCK_EX != 0 then LockEx
    else prior
  }

  /** ioctx_flock: `ok` is the outcome of the real flock call. Only the
      cached lock state can change, and only when the call succeeds. */
  function Flock(h: Handle, op: bv32, ok: bool): (r: Locked)
    ensures r.rc == (if ok then 0 else -1)
    ensures r.handle == h.(lockType := r.handle.lockType)
    ensures !ok ==> r.handle == h
    ensures ok && op & LOCK_UN != 0 ==> r.handle.lockType == LockUn
    ensures ok && op & LOCK_UN == 0 && op & LOCK_SH != 0 ==> r.handle.lockType == LockSh
    ensures ok && op & (LOCK_UN | LOCK_SH) == 0 && op & LOCK_EX != 0 ==> r.handle.lockType == LockEx
    ensures op & (LOCK_UN | LOCK_SH | LOCK_EX) == 0 ==> r.handle == h
  {
    if !ok then Locked(h, -1) else Locked(h.(lockType := Granted(h.lockType, op)), 0)
  }

  /** Answer of ioctx_testlock (LockUn: the lock could be obtained; LockEx:
      it could not) and the flock calls it made on the descriptor. */
  datatype Probe = Probe(answer: LockType, calls: seq<bv32>)

  /** ioctx_testlock: a shared or exclusive request is answered from the
      cached state when the handle already holds a lock (an exclusive request
      against a cached shared lock is reported available rather than
      upgraded); only an unlocked handle probes with a non-blocking trial
      lock (`probeOk` is its outcome), released again at once on success.
      Any other request type is reported available without a probe. */
  function TestLock(h: Handle, ltype: bv32, probeOk: bool): (r: Probe)
    ensures r.answer == LockUn || r.answer == LockEx
    ensures r.calls != [] <==> h.lockType == LockUn && (ltype == LOCK_SH || ltype == LOCK_EX)
    ensures h.lockType != LockUn ==> r == Probe(LockUn, [])
    ensures !(ltype == LOCK_SH || ltype == LOCK_EX) ==> r == Probe(LockUn, [])
    ensures r.calls != [] ==>
      && r.calls[0] == ltype | LOCK_NB
      && (r.answer == LockUn <==> probeOk)
      && r.calls == (if probeOk then [ltype | LOCK_NB, LOCK_UN] else [ltype | LOCK_NB])
  {
    if ltype == LOCK_SH || ltype == LOCK_EX then
      match h.lockType
      case LockEx => Probe(LockUn, [])
      case LockSh => Probe(LockUn, [])
      case LockUn =>
        if probeOk then Probe(LockUn, [ltype | LOCK_NB, LOCK_UN])
        else Probe(LockEx, [ltype | LOCK_NB])
    else Probe(LockUn, [])
  }

  /** The lock state a handle would have after the given flock calls, the
      first with outcome `firstOk` and the rest succeeding. */
  function Replay(h: Handle, calls: seq<bv32>, firstOk: bool): Handle
    decreases |calls|
  {
    if |calls| == 0 then h
    else Replay(Flock(h, calls[0], firstOk).handle, calls[1..], true)
  }

  /** The trial lock of ioctx_testlock is undone: replaying its flock calls
      through ioctx_flock brings the handle back to exactly the state it had,
      so the cached state stays truthful although testlock never updates it. */
  lemma ProbeLeavesLockState(h: Handle, ltype: bv32, probeOk: bool)
    ensures Replay(h, TestLock(h, ltype, probeOk).calls, probeOk) == h
  {
    var r := TestLock(h, ltype, probeOk);
    if r.calls != [] {
      assert h.lockType == LockUn;
      var first := Flock(h, r.calls[0], probeOk).handle;
      if probeOk {
        assert r.calls[0] & LOCK_UN == 0;
        assert first.lockType != LockUn;
        assert r.calls[1..] == [LOCK_UN];
        assert Replay(first, [LOCK_UN], true) == Replay(first.(lockType := LockUn), [], true);
      } else {
        assert first == h;
        assert r.calls[1..] == [];
      }
    }
  }

  /** Taking a lock and releasing it again, both successfully, leaves the
      handle unlocked with nothing else changed. */
  lemma LockThenUnlock(h: Handle, op: bv32)
    ensures Flock(Flock(h, op, true).handle, LOCK_UN, true) == Locked(h.(lockType := LockUn), 0)
  {
  }
}
