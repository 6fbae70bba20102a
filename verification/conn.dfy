/** The per-connection logic of npfs (src/libnpfs/conn.c): the whitelist of
    request types a server accepts, the dispatch decisions of the reader
    loop, the authenticated user recorded on the connection, and its
    reference count. Threads, locks, logging and the worker queue itself are
    not modelled; each operation is one atomic step. */
module Conn {
  import opened Common

  // 9P2000.L request types.
  const Tlerror: byte := 6
  const Tstatfs: byte := 8
  const Tlopen: byte := 12
  const Tlcreate: byte := 14
  const Tsymlink: byte := 16
  const Tmknod: byte := 18
  const Trename: byte := 20
  const Treadlink: byte := 22
  const Tgetattr: byte := 24
  const Tsetattr: byte := 26
  const Txattrwalk: byte := 30
  const Txattrcreate: byte := 32
  const Treaddir: byte := 40
  const Tfsync: byte := 50
  const Tlock: byte := 52
  const Tgetlock: byte := 54
  const Tlink: byte := 70
  const Tmkdir: byte := 72
  const Trenameat: byte := 74
  const Tunlinkat: byte := 76

  // 9P2000 request types.
  const Tversion: byte := 100
  const Tauth: byte := 102
  const Tattach: byte := 104
  const Terror: byte := 106
  const Tflush: byte := 108
  const Twalk: byte := 110
  const Topen: byte := 112
  const Tcreate: byte := 114
  const Tread: byte := 116
  const Twrite: byte := 118
  const Tclunk: byte := 120
  const Tremove: byte := 122
  const Tstat: byte := 124
  const Twstat: byte := 126

  /** The request types of the 9P2000.L extension. */
  const LinuxRequests: set<byte> :=
    {Tlerror, Tstatfs, Tlopen, Tlcreate, Tsymlink, Tmknod, Trename, Treadlink, Tgetattr, Tsetattr,
     Txattrwalk, Txattrcreate, Treaddir, Tfsync, Tlock, Tgetlock, Tlink, Tmkdir, Trenameat, Tunlinkat}

  /** The request types of base 9P2000. */
  const ClassicRequests: set<byte> :=
    {Tversion, Tauth, Tattach, Terror, Tflush, Twalk, Topen, Tcreate, Tread, Twrite,
     Tclunk, Tremove, Tstat, Twstat}

  // ---------------------------------------------------------------------
  // np_check_allowed
  // ---------------------------------------------------------------------

  /** The case labels of np_check_allowed's switch. */
  predicate Allowed(mtype: byte)
  {
    mtype == Tlerror || mtype == Tstatfs || mtype == Tlopen || mtype == Tlcreate || mtype == Tsymlink
    || mtype == Tmknod || mtype == Trename || mtype == Treadlink || mtype == Tgetattr || mtype == Tsetattr
    || mtype == Txattrwalk || mtype == Txattrcreate || mtype == Treaddir || mtype == Tfsync || mtype == Tlock
    || mtype == Tgetlock || mtype == Tlink || mtype == Tmkdir || mtype == Trenameat || mtype == Tunlinkat
    || mtype == Tversion || mtype == Tauth || mtype == Tattach || mtype == Terror || mtype == Tflush
    || mtype == Twalk || mtype == Topen || mtype == Tcreate || mtype == Tread || mtype == Twrite
    || mtype == Tclunk || mtype == Tremove || mtype == Tstat || mtype == Twstat
  }

  /** np_check_allowed: 1 for each request type of 9P2000 and 9P2000.L,
      0 for every other message type. */
  function CheckAllowed(mtype: byte): (r: int)
    ensures r == 1 || r == 0
    ensures r == 1 <==> mtype in LinuxRequests + ClassicRequests
  {
    if Allowed(mtype) then 1 else 0
  }

  /** Every accepted type is a T-message (even), and its R-message (the next
      number) is refused: a client cannot send a reply. */
  lemma RepliesRejected(mtype: byte)
    requires CheckAllowed(mtype) == 1
    ensures mtype % 2 == 0 && mtype < 255 && CheckAllowed(mtype + 1) == 0
  {
  }

  // ---------------------------------------------------------------------
  // np_conn_read_proc
  // ---------------------------------------------------------------------

  /** What one turn of the reader loop gets: a receive error, end of stream,
      or a message of the given type together with the outcome of wrapping
      it in a request (np_req_alloc). */
  datatype Incoming = RecvFailed | RecvEof | Arrived(mtype: byte, reqOk: bool)

  /** Why the reader loop stopped; `Exhausted` means the given events ran
      out while the loop would still be waiting for the next message. */
  datatype StopReason = RecvError | Eof | Disallowed | NoMemory | Exhausted

  /** The reader loop's decisions: the types enqueued for the workers, in
      order; how many Tflush messages were handled at once (the
      nreqs[Tflush] count); how many events were dispatched; why it stopped. */
  datatype Dispatch = Dispatch(queued: seq<byte>, flushes: nat, handled: nat, stop: StopReason)

  /** An event the loop dispatches: an allowed message wrapped in a request. */
  predicate Dispatchable(e: Incoming)
  {
    e.Arrived? && Allowed(e.mtype) && e.reqOk
  }

  /** Why the loop stops at an event it does not dispatch. */
  function StopFor(e: Incoming): (r: StopReason)
    requires !Dispatchable(e)
    ensures r != Exhausted
    ensures r == Disallowed <==> e.Arrived? && !Allowed(e.mtype)
  {
    match e
    case RecvFailed => RecvError
    case RecvEof => Eof
    case Arrived(t, ok) => if !Allowed(t) then Disallowed else NoMemory
  }

  /** Reference reading of a dispatched prefix: the enqueued types in
      arrival order, every message except Tflush. */
  function Enqueued(es: seq<Incoming>): (q: seq<byte>)
    ensures |q| <= |es|
  {
    if es == [] then []
    else
      var e := es[|es| - 1];
      Enqueued(es[..|es| - 1]) + (if e.Arrived? && e.mtype != Tflush then [e.mtype] else [])
  }

  /** Reference reading of a dispatched prefix: how many Tflush it holds. */
  function Flushes(es: seq<Incoming>): (n: nat)
    ensures n + |Enqueued(es)| <= |es|
  {
    if es == [] then 0
    else
      var e := es[|es| - 1];
      Flushes(es[..|es| - 1]) + (if e.Arrived? && e.mtype == Tflush then 1 else 0)
  }

  /** Dispatching one more message extends the reference readings by that
      message alone. */
  lemma DispatchStep(events: seq<Incoming>, i: nat)
    requires i < |events| && events[i].Arrived?
    ensures Enqueued(events[..i + 1]) ==
      Enqueued(events[..i]) + (if events[i].mtype != Tflush then [events[i].mtype] else [])
    ensures Flushes(events[..i + 1]) == Flushes(events[..i]) + (if events[i].mtype == Tflush then 1 else 0)
  {
    assert events[..i + 1][..i] == events[..i];
  }

  /** np_conn_read_proc: receive, stop at a receive error, at end of stream,
      at a type np_check_allowed refuses or when no request can be
      allocated; handle Tflush at once and count it; enqueue everything
      else in arrival order. */
  method ReadProc(events: seq<Incoming>) returns (d: Dispatch)
    ensures d.handled <= |events|
    ensures forall i :: 0 <= i < d.handled ==> Dispatchable(events[i])
    ensures d.handled < |events| ==> !Dispatchable(events[d.handled]) && d.stop == StopFor(events[d.handled])
    ensures d.stop == Exhausted <==> d.handled == |events|
    ensures d.queued == Enqueued(events[..d.handled])
    ensures d.flushes == Flushes(events[..d.handled])
    ensures |d.queued| + d.flushes == d.handled
    ensures Tflush !in d.queued
  {
    var queued: seq<byte> := [];
    var flushes := 0;
    var i := 0;
    while i < |events| && Dispatchable(events[i])
      invariant 0 <= i <= |events|
      invariant forall k :: 0 <= k < i ==> Dispatchable(events[k])
      invariant queued == Enqueued(events[..i]) && flushes == Flushes(events[..i])
      invariant |queued| + flushes == i
      invariant Tflush !in queued
    {
      var e := events[i];
      DispatchStep(events, i);
      if e.mtype == Tflush {
        flushes := flushes + 1;
      } else {
        queued := queued + [e.mtype];
      }
      i := i + 1;
    }
    var stop := if i == |events| then Exhausted else StopFor(events[i]);
    d := Dispatch(queued, flushes, i, stop);
  }

  // ---------------------------------------------------------------------
  // Connection state
  // ---------------------------------------------------------------------

  /** The authuser value meaning "nobody has authenticated". */
  const NONUNAME: u32 := 0xFFFF_FFFF

  /** The connection fields the core reads and writes. */
  datatype Conn = Conn(refcount: nat, authuser: u32, msize: u32)

  /** np_conn_create with its allocations and the reader thread as
      outcomes: a connection nobody holds a reference to yet, with no
      authenticated user and the server's msize. */
  function Create(srvMsize: u32, connOk: bool, poolOk: bool, threadOk: bool): (r: Option<Conn>)
    ensures r.Some? <==> connOk && poolOk && threadOk
    ensures r.Some? ==> r.value.refcount == 0 && r.value.authuser == NONUNAME && r.value.msize == srvMsize
  {
    if connOk && poolOk && threadOk then Some(Conn(0, NONUNAME, srvMsize)) else None
  }

  /** np_conn_incref. */
  function Incref(c: Conn): (r: Conn)
    ensures r.refcount == c.refcount + 1 && r == c.(refcount := r.refcount)
  {
    c.(refcount := c.refcount + 1)
  }

  /** np_conn_decref: only a referenced connection may be released. */
  function Decref(c: Conn): (r: Conn)
    requires c.refcount > 0
    ensures r.refcount + 1 == c.refcount && r == c.(refcount := r.refcount)
  {
    c.(refcount := c.refcount - 1)
  }

  /** np_conn_destroy's precondition: nobody holds a reference. */
  predicate Destroyable(c: Conn)
  {
    c.refcount == 0
  }

  /** Applies a sequence of increfs (true) and decrefs (false); None when a
      decref would find the count at zero. */
  function ApplyRefs(c: Conn, ops: seq<bool>): Option<Conn>
    decreases |ops|
  {
    if ops == [] then Some(c)
    else if ops[0] then ApplyRefs(Incref(c), ops[1..])
    else if c.refcount == 0 then None
    else ApplyRefs(Decref(c), ops[1..])
  }

  /** Number of increfs in a sequence of operations. */
  function Increfs(ops: seq<bool>): (n: nat)
    ensures n <= |ops|
  {
    if ops == [] then 0 else (if ops[0] then 1 else 0) + Increfs(ops[1..])
  }

  /** Every prefix holds at least as many increfs as decrefs, starting from
      `base` references. */
  predicate NeverNegative(base: nat, ops: seq<bool>)
  {
    forall k :: 0 <= k <= |ops| ==> |ops[..k]| - Increfs(ops[..k]) <= base + Increfs(ops[..k])
  }

  /** The count after a sequence of reference operations is the initial
      count plus the increfs minus the decrefs, and no decref finds it at
      zero, exactly when no prefix releases more than it holds; a balanced
      sequence from a new connection leaves it destroyable. */
  lemma {:induction false} RefsBalance(c: Conn, ops: seq<bool>)
    ensures ApplyRefs(c, ops).Some? <==> NeverNegative(c.refcount, ops)
    ensures ApplyRefs(c, ops).Some? ==>
      && ApplyRefs(c, ops).value.refcount + |ops| == c.refcount + 2 * Increfs(ops)
      && ApplyRefs(c, ops).value == c.(refcount := ApplyRefs(c, ops).value.refcount)
    decreases |ops|
  {
    if ops != [] {
      var c' := if ops[0] then Incref(c) else if c.refcount == 0 then c else Decref(c);
      var step := if ops[0] then 1 else -1;
      RefsBalance(c', ops[1..]);
      forall k | 1 <= k <= |ops|
        ensures ops[..k][0] == ops[0] && ops[..k][1..] == ops[1..][..k - 1]
      {
      }
      assert NeverNegative(c.refcount, ops) <==>
        (c.refcount + step >= 0 && NeverNegative(c.refcount + step, ops[1..])) by {
        assert ops[..0] == [];
        forall k | 0 <= k <= |ops| - 1
          ensures Increfs(ops[..k + 1]) == (if ops[0] then 1 else 0) + Increfs(ops[1..][..k])
        {
          assert ops[..k + 1][1..] == ops[1..][..k];
        }
        if NeverNegative(c.refcount, ops) {
          forall k | 0 <= k <= |ops[1..]|
            ensures |ops[1..][..k]| - Increfs(ops[1..][..k]) <= c.refcount + step + Increfs(ops[1..][..k])
          {
            assert |ops[..k + 1]| - Increfs(ops[..k + 1]) <= c.refcount + Increfs(ops[..k + 1]);
          }
          assert |ops[..1]| - Increfs(ops[..1]) <= c.refcount + Increfs(ops[..1]);
        }
        if c.refcount + step >= 0 && NeverNegative(c.refcount + step, ops[1..]) {
          forall k | 0 <= k <= |ops|
            ensures |ops[..k]| - Increfs(ops[..k]) <= c.refcount + Increfs(ops[..k])
          {
            if k > 0 {
              assert |ops[1..][..k - 1]| - Increfs(ops[1..][..k - 1]) <= c.refcount + step + Increfs(ops[1..][..k - 1]);
            }
          }
        }
      }
    }
  }

  /** A new connection, referenced and released in a balanced way, can be
      destroyed. */
  lemma BalancedIsDestroyable(c: Conn, ops: seq<bool>)
    requires c.refcount == 0 && NeverNegative(0, ops) && 2 * Increfs(ops) == |ops|
    ensures ApplyRefs(c, ops).Some? && Destroyable(ApplyRefs(c, ops).value)
  {
    RefsBalance(c, ops);
  }

  /** np_conn_set_authuser: records the authenticated user, nothing else. */
  function SetAuthuser(c: Conn, u: u32): (r: Conn)
    ensures r.authuser == u && r == c.(authuser := u)
  {
    c.(authuser := u)
  }

  /** What np_conn_get_authuser returns and what it stores through uidp. */
  datatype AuthLookup = AuthLookup(rc: int, stored: Option<u32>)

  /** np_conn_get_authuser: -1 while nobody has authenticated, storing
      nothing; otherwise 0, the user stored through uidp when it is given. */
  function GetAuthuser(c: Conn, hasUidp: bool): (r: AuthLookup)
    ensures r.rc == 0 || r.rc == -1
    ensures r.rc == 0 <==> c.authuser != NONUNAME
    ensures r.stored.Some? <==> r.rc == 0 && hasUidp
    ensures r.stored.Some? ==> r.stored.value == c.authuser
  {
    if c.authuser != NONUNAME then AuthLookup(0, if hasUidp then Some(c.authuser) else None)
    else AuthLookup(-1, None)
  }

  /** A new connection has no authenticated user. */
  lemma NewConnUnauthenticated(srvMsize: u32, hasUidp: bool)
    ensures GetAuthuser(Create(srvMsize, true, true, true).value, hasUidp) == AuthLookup(-1, None)
  {
  }

  /** Reading the user back after setting it: the user itself unless it is
      the NONUNAME marker, which reads as nobody. */
  lemma SetThenGet(c: Conn, u: u32)
    ensures u != NONUNAME ==> GetAuthuser(SetAuthuser(c, u), true) == AuthLookup(0, Some(u))
    ensures u == NONUNAME ==> GetAuthuser(SetAuthuser(c, u), true) == AuthLookup(-1, None)
  {
  }
}
