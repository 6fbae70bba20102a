/** The path pool of the diod server (src/libdiod/diod_ioctx.c): interned,
    reference-counted path strings, each owning the list of open storage
    handles (IOCtx) attached to it, and the rule by which read-only opens
    share an existing handle.

    Every operation is one atomic step over an immutable `Pool`; the pool,
    path and handle mutexes of the C code only serve to make these steps
    atomic and are not modelled. */
module IoCtx {
  import opened Common
  import opened HandleList

  /** Access-mode bits of the open flags, and the read-only mode. */
  const O_ACCMODE: bv32 := 3
  const O_RDONLY: bv32 := 0

  /** Cached advisory-lock state of a handle (LOCK_UN, LOCK_SH, LOCK_EX). */
  datatype LockType = LockUn | LockSh | LockEx

  /** One open storage descriptor. `owner` is the path whose list holds the
      handle: the model's replacement for the intrusive prev/next links. The
      descriptor itself, the DIR stream and the mutex are not modelled. */
  datatype Handle = Handle(
    refcount: nat,
    lockType: LockType,
    qid: Qid,
    iounit: u32,
    openFlags: bv32,
    uid: nat,
    owner: string)

  /** An interned path: its reference count, its handles, head first, and
      `text`, all the bytes of the string it was created from (`s` and `len`
      in the C code). The pool stores it under the C string `text` stands
      for: `text` up to its first NUL. */
  datatype PathRec = PathRec(refcount: nat, handles: seq<HandleId>, text: string)

  /** The C string a byte sequence stands for: the bytes before the first
      NUL, all of them when there is none. The pool's hash table hashes and
      compares keys this way (hash_key_string, strcmp). */
  function CStr(s: string): (c: string)
    ensures |c| <= |s|
  {
    if |s| == 0 || s[0] == '\0' then [] else [s[0]] + CStr(s[1..])
  }

  /** The C string of `s` is a prefix of it, followed in `s` by a NUL
      unless it is all of `s`. */
  lemma {:induction false} CStrPrefix(s: string)
    ensures CStr(s) == s[..|CStr(s)|]
    ensures |CStr(s)| < |s| ==> s[|CStr(s)|] == '\0'
  {
    if |s| == 0 || s[0] == '\0' {
    } else {
      CStrPrefix(s[1..]);
      var c := CStr(s);
      assert c == [s[0]] + CStr(s[1..]);
      assert c == [s[0]] + s[1..][..|c| - 1];
      assert s[..|c|] == [s[0]] + s[1..][..|c| - 1];
    }
  }

  /** The C string of `s` holds no NUL. */
  lemma {:induction false} CStrNulFree(s: string)
    ensures '\0' !in CStr(s)
  {
    if |s| == 0 || s[0] == '\0' {
    } else {
      CStrNulFree(s[1..]);
      assert CStr(s) == [s[0]] + CStr(s[1..]);
    }
  }

  /** The C string of `s` is its prefix ending at the first NUL, and no
      other prefix. */
  lemma {:induction false} CStrIsFirstNul(s: string, i: nat)
    requires i <= |s| && '\0' !in s[..i] && (i < |s| ==> s[i] == '\0')
    ensures CStr(s) == s[..i]
  {
    if i == 0 {
    } else {
      assert s[..i] == [s[0]] + s[1..i];
      assert s[1..][..i - 1] == s[1..i];
      CStrIsFirstNul(s[1..], i - 1);
    }
  }

  /** Every path is stored under the C string of its text. */
  ghost predicate Keyed(p: Pool)
  {
    forall k :: k in p.paths ==> CStr(p.paths[k].text) == k
  }

  /** The process-wide pool, plus the supply of fresh handle identifiers. */
  datatype Pool = Pool(
    paths: map<string, PathRec>,
    handles: map<HandleId, Handle>,
    nextHandle: HandleId)

  /** A handle is live: identified below the fresh supply, referenced, and
      linked into the list of the path it belongs to. */
  ghost predicate Linked(p: Pool, id: HandleId)
    requires id in p.handles
  {
    var h := p.handles[id];
    && id < p.nextHandle
    && h.refcount >= 1
    && h.owner in p.paths
    && id in p.paths[h.owner].handles
  }

  /** The pool invariant: a path is in the pool only while its count is at
      least one; a handle exists exactly while it is linked into the list of
      its one owning path, and only while its count is at least one. */
  ghost predicate Valid(p: Pool)
  {
    && (forall s :: s in p.paths ==> p.paths[s].refcount >= 1 && NoDup(p.paths[s].handles))
    && (forall s, id :: s in p.paths && id in p.paths[s].handles ==>
          id in p.handles && p.handles[id].owner == s)
    && (forall id :: id in p.handles ==> Linked(p, id))
  }

  /** The empty pool of a freshly started server. */
  function EmptyPool(): (p: Pool)
    ensures Valid(p) && Keyed(p) && p.paths == map[] && p.handles == map[]
  {
    Pool(map[], map[], 0)
  }

  // ---------------------------------------------------------------------
  // Path interning and release
  // ---------------------------------------------------------------------

  /** Result of interning: the new pool and the interned path, or None
      where the C code returns NULL. */
  datatype Interned = Interned(pool: Pool, path: Option<string>)

  /** path_incref: one more reference to a live path. */
  function PathIncref(p: Pool, s: string): (r: Pool)
    requires Valid(p) && s in p.paths
    ensures Valid(r)
    ensures r.paths.Keys == p.paths.Keys
    ensures r.paths[s].refcount == p.paths[s].refcount + 1
    ensures r.paths[s].handles == p.paths[s].handles
    ensures forall k :: k in p.paths && k != s ==> r.paths[k] == p.paths[k]
    ensures r.handles == p.handles && r.nextHandle == p.nextHandle
  {
    var rec := p.paths[s];
    p.(paths := p.paths[s := rec.(refcount := rec.refcount + 1)])
  }

  /** path_decref: drop one reference; the last one removes the path from
      the pool in the same step. The C code asserts that a path being freed
      has no handles left. */
  function PathDecref(p: Pool, s: string): (r: Pool)
    requires Valid(p) && s in p.paths
    requires p.paths[s].refcount == 1 ==> p.paths[s].handles == []
    ensures Valid(r)
    ensures s in r.paths <==> p.paths[s].refcount > 1
    ensures s in r.paths ==> r.paths[s] == p.paths[s].(refcount := p.paths[s].refcount - 1)
    ensures r.paths.Keys == p.paths.Keys - (if s in r.paths then {} else {s})
    ensures forall k :: k in p.paths && k != s ==> r.paths[k] == p.paths[k]
    ensures r.handles == p.handles && r.nextHandle == p.nextHandle
  {
    var rec := p.paths[s];
    var n := rec.refcount - 1;
    if n == 0 then p.(paths := p.paths - {s})
    else p.(paths := p.paths[s := rec.(refcount := n)])
  }

  /** _path_alloc: look the C string of `s` up under the pool lock; a hit
      takes one more reference on the existing path (whose text stays as it
      was), a miss allocates a path with one reference, no handles and text
      `s`, and inserts it under that C string. Failure of the allocation
      (`allocOk`) or of the table insertion (`insertOk`) leaves the pool as
      it was and yields no path. */
  function PathAlloc(p: Pool, s: string, allocOk: bool, insertOk: bool): (r: Interned)
    requires Valid(p)
    ensures Valid(r.pool)
    ensures Keyed(p) ==> Keyed(r.pool)
    ensures r.pool.handles == p.handles && r.pool.nextHandle == p.nextHandle
    ensures forall k :: k in p.paths && k != CStr(s) ==> k in r.pool.paths && r.pool.paths[k] == p.paths[k]
    ensures CStr(s) in p.paths ==>
      && r.path == Some(CStr(s))
      && r.pool.paths.Keys == p.paths.Keys
      && r.pool.paths[CStr(s)] == p.paths[CStr(s)].(refcount := p.paths[CStr(s)].refcount + 1)
    ensures CStr(s) !in p.paths && allocOk && insertOk ==>
      && r.path == Some(CStr(s))
      && r.pool.paths.Keys == p.paths.Keys + {CStr(s)}
      && r.pool.paths[CStr(s)] == PathRec(1, [], s)
    ensures CStr(s) !in p.paths && !(allocOk && insertOk) ==> r == Interned(p, None)
  {
    var key := CStr(s);
    if key in p.paths then Interned(PathIncref(p, key), Some(key))
    else if allocOk && insertOk then Interned(p.(paths := p.paths[key := PathRec(1, [], s)]), Some(key))
    else Interned(p, None)
  }

  /** path_create: intern a copy of all the bytes of the protocol string; a
      failed copy (`dupOk` false) yields no path and leaves the pool alone.
      The path found or made is the one for the name up to its first NUL,
      which is the whole name when it holds no NUL. */
  function PathCreate(p: Pool, name: string, dupOk: bool, allocOk: bool, insertOk: bool): (r: Interned)
    requires Valid(p)
    ensures Valid(r.pool)
    ensures Keyed(p) ==> Keyed(r.pool)
    ensures r.path.Some? ==> r.path.value == CStr(name) && r.path.value in r.pool.paths
    ensures r.path.Some? && '\0' !in name ==> r.path.value == name
    ensures r.path.None? ==> r.pool == p
    ensures dupOk && CStr(name) in p.paths ==> r.path == Some(CStr(name))
    ensures var key := CStr(name);
      dupOk && key in p.paths ==>
        r.pool.paths == p.paths[key := p.paths[key].(refcount := p.paths[key].refcount + 1)] && r.pool.handles == p.handles
    ensures var key := CStr(name);
      dupOk && key !in p.paths && allocOk && insertOk ==>
        r.pool.paths == p.paths[key := PathRec(1, [], name)] && r.pool.handles == p.handles
  {
    if !dupOk then Interned(p, None)
    else
      var r := PathAlloc(p, name, allocOk, insertOk);
      assert '\0' !in name ==> CStr(name) == name by {
        if '\0' !in name { CStrIsFirstNul(name, |name|); }
      }
      r
  }

  /** Two names that agree up to their first NUL intern to the same path:
      after the first is interned, the second is a hit on it. */
  lemma SameCStrSamePath(p: Pool, a: string, b: string)
    requires Valid(p) && CStr(a) == CStr(b)
    ensures var r := PathCreate(p, a, true, true, true);
      && r.path.Some?
      && PathCreate(r.pool, b, true, false, false).path == r.path
      && PathCreate(r.pool, b, true, false, false).pool.paths.Keys == r.pool.paths.Keys
  {
  }

  /** The bytes path_append lays out: the base path's bytes, one '/', then
      the component's bytes, from the three copies of the C code. */
  function JoinPath(base: string, name: string): (s: string)
    ensures |s| == |base| + 1 + |name|
    ensures s[..|base|] == base && s[|base|] == '/' && s[|base| + 1..] == name
  {
    base + "/" + name
  }

  /** path_append: intern the base path's text, '/', and the component, for a
      live base path. A failed buffer allocation (`mallocOk` false) yields
      no path and leaves the pool. */
  function PathAppend(p: Pool, base: string, name: string, mallocOk: bool, allocOk: bool, insertOk: bool): (r: Interned)
    requires Valid(p) && base in p.paths
    ensures Valid(r.pool)
    ensures Keyed(p) ==> Keyed(r.pool)
    ensures r.path.Some? ==> r.path.value == CStr(JoinPath(p.paths[base].text, name)) && r.path.value in r.pool.paths
    ensures r.path.None? ==> r.pool == p
    ensures mallocOk && CStr(JoinPath(p.paths[base].text, name)) in p.paths ==> r.path.Some?
    ensures mallocOk && allocOk && insertOk ==> r.path.Some?
    ensures r.path.Some? && r.path.value in p.paths ==> r.pool.paths.Keys == p.paths.Keys
    ensures var s := JoinPath(p.paths[base].text, name); var key := CStr(s);
      mallocOk && key in p.paths ==>
        r.pool.paths == p.paths[key := p.paths[key].(refcount := p.paths[key].refcount + 1)] && r.pool.handles == p.handles
    ensures var s := JoinPath(p.paths[base].text, name); var key := CStr(s);
      mallocOk && key !in p.paths && allocOk && insertOk ==>
        r.pool.paths == p.paths[key := PathRec(1, [], s)] && r.pool.handles == p.handles
  {
    if !mallocOk then Interned(p, None) else PathAlloc(p, JoinPath(p.paths[base].text, name), allocOk, insertOk)
  }

  /** The C string of joined bytes: past a NUL-free base it reaches into
      the component up to the component's first NUL; a NUL in the base ends
      it inside the base. */
  lemma JoinCStr(text: string, name: string)
    ensures '\0' !in text ==> CStr(JoinPath(text, name)) == JoinPath(text, CStr(name))
    ensures '\0' in text ==> CStr(JoinPath(text, name)) == CStr(text)
  {
    var s := JoinPath(text, name);
    if '\0' !in text {
      var c := CStr(name);
      CStrNulFree(name);
      CStrPrefix(name);
      var i := |text| + 1 + |c|;
      assert s[..i] == text + "/" + c;
      if i < |s| { assert s[i] == name[|c|]; }
      CStrIsFirstNul(s, i);
    } else {
      var j := |CStr(text)|;
      CStrNulFree(text);
      CStrPrefix(text);
      assert j < |text|;
      assert s[..j] == text[..j];
      CStrIsFirstNul(s, j);
    }
  }

  /** What path_append returns, in terms of the base key: when the base's
      text holds no NUL, it is the base, '/', and the component up to its
      first NUL, of length base + 1 + that; when the text holds a NUL past
      the key, the appended bytes lie past the key's terminator and the
      append finds the base path itself. */
  lemma AppendKey(p: Pool, base: string, name: string)
    requires Valid(p) && Keyed(p) && base in p.paths
    ensures var r := PathAppend(p, base, name, true, true, true);
      && r.path.Some?
      && ('\0' !in p.paths[base].text ==>
            r.path.value == JoinPath(base, CStr(name)) && |r.path.value| == |base| + 1 + |CStr(name)|)
      && ('\0' in p.paths[base].text ==> r.path == Some(base) && r.pool.paths.Keys == p.paths.Keys)
  {
    var text := p.paths[base].text;
    var r := PathAppend(p, base, name, true, true, true);
    assert CStr(text) == base;
    BaseKeyJoin(text, base, name, r.path.value);
  }

  /** JoinCStr in terms of the key `base` the text is stored under. */
  lemma BaseKeyJoin(text: string, base: string, name: string, key: string)
    requires CStr(text) == base && key == CStr(JoinPath(text, name))
    ensures '\0' !in text ==> key == JoinPath(base, CStr(name))
    ensures '\0' in text ==> key == base
  {
    JoinCStr(text, name);
    if '\0' !in text {
      CStrIsFirstNul(text, |text|);
    }
  }

  /** Interning a string and releasing that reference again gives back the
      pool exactly, whether the string was a hit or a miss. */
  lemma InternThenRelease(p: Pool, s: string)
    requires Valid(p)
    ensures var r := PathAlloc(p, s, true, true);
      && r.path == Some(CStr(s))
      && (r.pool.paths[CStr(s)].refcount == 1 ==> r.pool.paths[CStr(s)].handles == [])
      && PathDecref(r.pool, CStr(s)) == p
  {
    var key := CStr(s);
    var r := PathAlloc(p, s, true, true);
    var q := PathDecref(r.pool, key);
    assert q.paths == p.paths by {
      if key in p.paths {
        assert r.pool.paths[key].refcount > 1;
        assert q.paths[key] == p.paths[key];
      } else {
        assert r.pool.paths == p.paths[key := PathRec(1, [], s)];
      }
    }
    assert q == p;
  }

  // ---------------------------------------------------------------------
  // Opening and closing handles
  // ---------------------------------------------------------------------

  /** The server-side fid state ioctx_open and ioctx_close work on: the
      path it names, its open handle if any, whether the fid asks for
      descriptor sharing (DIOD_FID_FLAGS_SHAREFD), and the uid of its user. */
  datatype Fid = Fid(path: string, ioctx: Option<HandleId>, shareFd: bool, uid: nat)

  /** Outcome of the real open + fstat (+ fdopendir for a directory),
      with the qid derived from the stat on success. */
  datatype StorageOpen = Opened(qid: Qid) | OpenFailed(errno: Errno)

  /** The request may reuse an existing handle: sharing is enabled for the
      fid and the access mode is read-only. */
  predicate WantsShare(fid: Fid, flags: bv32)
  {
    fid.shareFd && flags & O_ACCMODE == O_RDONLY
  }

  /** A handle that can serve the request: a plain file (never a directory,
      whose stream position is private), opened with exactly these flags, by
      the same uid. */
  predicate Shareable(h: Handle, flags: bv32, uid: nat)
  {
    h.qid.qtype == QTFILE && h.openFlags == flags && h.uid == uid
  }

  /** Some handle linked on the path could serve the request. */
  ghost predicate HasShareable(p: Pool, s: string, flags: bv32, uid: nat)
    requires Valid(p) && s in p.paths
  {
    exists id :: id in p.paths[s].handles && Shareable(p.handles[id], flags, uid)
  }

  /** The scan of ioctx_open: position of the first shareable handle in
      list order, if any. */
  function FirstShareable(hs: map<HandleId, Handle>, l: seq<HandleId>, flags: bv32, uid: nat): (r: Option<nat>)
    requires forall id :: id in l ==> id in hs
    ensures r.Some? ==> r.value < |l| && Shareable(hs[l[r.value]], flags, uid)
    ensures forall j :: 0 <= j < |l| && (r.None? || j < r.value) ==> !Shareable(hs[l[j]], flags, uid)
    decreases |l|
  {
    if |l| == 0 then None
    else if Shareable(hs[l[0]], flags, uid) then Some(0)
    else match FirstShareable(hs, l[1..], flags, uid)
      case None => None
      case Some(i) => Some(i + 1)
  }

  /** The state _ioctx_create_open gives a freshly opened handle. */
  function NewHandle(qid: Qid, flags: bv32, uid: nat, owner: string): (h: Handle)
    ensures h.refcount == 1 && h.lockType == LockUn && h.iounit == 0
    ensures h.qid == qid && h.openFlags == flags && h.uid == uid && h.owner == owner
  {
    Handle(1, LockUn, qid, 0, flags, uid, owner)
  }

  /** Result of ioctx_open: the pool, the fid (holding the handle on
      success) and the return code 0 or -1. */
  datatype Opening = Opening(pool: Pool, fid: Fid, rc: int)

  /** The reuse branch of ioctx_open: `id` is the first shareable handle in
      list order, its count went up by one and nothing else changed. */
  ghost predicate Reused(p: Pool, r: Opening, fid: Fid, flags: bv32, id: HandleId)
    requires fid.path in p.paths && id in p.handles
  {
    var l := p.paths[fid.path].handles;
    && WantsShare(fid, flags)
    && id in l
    && Shareable(p.handles[id], flags, fid.uid)
    && (forall j :: 0 <= j < IndexOf(l, id) ==> l[j] in p.handles && !Shareable(p.handles[l[j]], flags, fid.uid))
    && r.pool.paths == p.paths
    && r.pool.nextHandle == p.nextHandle
    && r.pool.handles == p.handles[id := p.handles[id].(refcount := p.handles[id].refcount + 1)]
  }

  /** The fresh branch of ioctx_open: nothing was shareable, the storage open
      succeeded, and a new handle with one reference, unlocked and with
      iounit 0 was linked at the head of the path's list. */
  ghost predicate Created(p: Pool, r: Opening, fid: Fid, flags: bv32, storage: StorageOpen, id: HandleId)
    requires Valid(p) && fid.path in p.paths
  {
    && !(WantsShare(fid, flags) && HasShareable(p, fid.path, flags, fid.uid))
    && storage.Opened?
    && id == p.nextHandle
    && r.pool.handles == p.handles[id := NewHandle(storage.qid, flags, fid.uid, fid.path)]
    && r.pool.paths == p.paths[fid.path := p.paths[fid.path].(handles := Link(p.paths[fid.path].handles, id))]
  }

  /** ioctx_open: reuse a shareable handle when the fid asks for sharing and
      the open is read-only, otherwise open the storage and link a new
      handle; a failed storage open links nothing and returns -1. */
  function IoctxOpen(p: Pool, fid: Fid, flags: bv32, storage: StorageOpen): (r: Opening)
    requires Valid(p) && fid.path in p.paths && fid.ioctx.None?
    ensures Valid(r.pool)
    ensures Keyed(p) ==> Keyed(r.pool)
    ensures r.fid.path == fid.path && r.fid.shareFd == fid.shareFd && r.fid.uid == fid.uid
    ensures r.rc == 0 || r.rc == -1
    ensures r.rc == 0 <==> r.fid.ioctx.Some?
    ensures r.pool.paths.Keys == p.paths.Keys
    ensures r.rc == -1 ==>
      && r.pool == p && storage.OpenFailed?
      && !(WantsShare(fid, flags) && HasShareable(p, fid.path, flags, fid.uid))
    ensures r.rc == 0 ==>
      var id := r.fid.ioctx.value;
      && id in r.pool.handles && id in r.pool.paths[fid.path].handles
      && r.pool.handles[id].openFlags == flags
      && r.pool.handles[id].uid == fid.uid
      && r.pool.handles[id].owner == fid.path
    ensures r.rc == 0 && r.fid.ioctx.value in p.handles ==> Reused(p, r, fid, flags, r.fid.ioctx.value)
    ensures r.rc == 0 && r.fid.ioctx.value !in p.handles ==> Created(p, r, fid, flags, storage, r.fid.ioctx.value)
  {
    var l := p.paths[fid.path].handles;
    var hit := if WantsShare(fid, flags) then FirstShareable(p.handles, l, flags, fid.uid) else None;
    if hit.Some? then
      ReuseHandle(p, fid, flags, hit.value)
    else
      assert !(WantsShare(fid, flags) && HasShareable(p, fid.path, flags, fid.uid)) by {
        NoHitNoShareable(p, fid, flags);
      }
      match storage
      case OpenFailed(_) => Opening(p, fid, -1)
      case Opened(qid) => CreateHandle(p, fid, flags, storage)
  }

  /** When the scan of ioctx_open finds nothing, no handle on the path is
      shareable with the request. */
  lemma NoHitNoShareable(p: Pool, fid: Fid, flags: bv32)
    requires Valid(p) && fid.path in p.paths
    requires WantsShare(fid, flags) ==> FirstShareable(p.handles, p.paths[fid.path].handles, flags, fid.uid).None?
    ensures !(WantsShare(fid, flags) && HasShareable(p, fid.path, flags, fid.uid))
  {
    if WantsShare(fid, flags) {
      var l := p.paths[fid.path].handles;
      forall id | id in l
        ensures !Shareable(p.handles[id], flags, fid.uid)
      {
        var j :| 0 <= j < |l| && l[j] == id;
        assert !Shareable(p.handles[l[j]], flags, fid.uid);
      }
    }
  }

  /** The reuse branch of ioctx_open, given the position of the first
      shareable handle. */
  function ReuseHandle(p: Pool, fid: Fid, flags: bv32, i: nat): (r: Opening)
    requires Valid(p) && fid.path in p.paths && fid.ioctx.None?
    requires WantsShare(fid, flags)
    requires FirstShareable(p.handles, p.paths[fid.path].handles, flags, fid.uid) == Some(i)
    ensures Valid(r.pool)
    ensures r.rc == 0 && r.fid == fid.(ioctx := Some(p.paths[fid.path].handles[i]))
    ensures var l := p.paths[fid.path].handles;
      l[i] in p.handles && p.handles[l[i]].owner == fid.path && Reused(p, r, fid, flags, l[i])
  {
    var id := p.paths[fid.path].handles[i];
    var h := p.handles[id];
    var q := p.(handles := p.handles[id := h.(refcount := h.refcount + 1)]);
    RecountKeepsValid(p, id, h.refcount + 1, q);
    var r := Opening(q, fid.(ioctx := Some(id)), 0);
    FirstIsReused(p, r, fid, flags, i);
    r
  }

  /** The first shareable handle of the scan, with one more reference, meets
      the description of the reuse branch. */
  lemma FirstIsReused(p: Pool, r: Opening, fid: Fid, flags: bv32, i: nat)
    requires Valid(p) && fid.path in p.paths && WantsShare(fid, flags)
    requires var l := p.paths[fid.path].handles;
      && FirstShareable(p.handles, l, flags, fid.uid) == Some(i)
      && r.pool == p.(handles := p.handles[l[i] := p.handles[l[i]].(refcount := p.handles[l[i]].refcount + 1)])
    ensures var l := p.paths[fid.path].handles;
      l[i] in p.handles && p.handles[l[i]].owner == fid.path && Reused(p, r, fid, flags, l[i])
  {
    var l := p.paths[fid.path].handles;
    IndexOfNoDup(l, i);
  }

  /** The fresh branch of ioctx_open: link a new handle for a successful
      storage open. */
  function CreateHandle(p: Pool, fid: Fid, flags: bv32, storage: StorageOpen): (r: Opening)
    requires Valid(p) && fid.path in p.paths && fid.ioctx.None? && storage.Opened?
    requires !(WantsShare(fid, flags) && HasShareable(p, fid.path, flags, fid.uid))
    ensures Valid(r.pool)
    ensures r.rc == 0 && r.fid == fid.(ioctx := Some(p.nextHandle))
    ensures p.nextHandle !in p.handles
    ensures Created(p, r, fid, flags, storage, p.nextHandle)
  {
    var l := p.paths[fid.path].handles;
    var id := p.nextHandle;
    forall x | x in p.handles
      ensures x < p.nextHandle
    {
      assert Linked(p, x);
    }
    assert id !in p.handles;
    assert forall x :: x in l ==> x in p.handles;
    assert id !in l;
    var q := Pool(p.paths[fid.path := p.paths[fid.path].(handles := Link(l, id))],
                  p.handles[id := NewHandle(storage.qid, flags, fid.uid, fid.path)],
                  id + 1);
    assert Valid(q) by { OpenKeepsValid(p, fid.path, id, q); }
    Opening(q, fid.(ioctx := Some(id)), 0)
  }

  /** Linking a fresh handle at the head of a path's list keeps the pool
      invariant. */
  lemma OpenKeepsValid(p: Pool, s: string, id: HandleId, q: Pool)
    requires Valid(p) && s in p.paths && id == p.nextHandle
    requires q.paths == p.paths[s := p.paths[s].(handles := Link(p.paths[s].handles, id))]
    requires q.handles.Keys == p.handles.Keys + {id}
    requires forall k :: k in p.handles ==> q.handles[k] == p.handles[k]
    requires q.handles[id].refcount == 1 && q.handles[id].owner == s
    requires q.nextHandle == id + 1
    ensures Valid(q)
  {
    forall x | x in p.handles
      ensures x < id
    {
      assert Linked(p, x);
    }
    assert id !in p.paths[s].handles;
    forall k | k in q.paths
      ensures q.paths[k].refcount >= 1 && NoDup(q.paths[k].handles)
    {
    }
    forall k, x | k in q.paths && x in q.paths[k].handles
      ensures x in q.handles && q.handles[x].owner == k
    {
      if k == s && x != id {
        assert x in p.paths[s].handles;
      }
    }
    forall x | x in q.handles
      ensures Linked(q, x)
    {
      if x != id {
        assert Linked(p, x);
      }
    }
  }

  /** Result of ioctx_close: the pool, the fid (no longer holding a handle),
      the return code and whether the handle was destroyed. */
  datatype Closing = Closing(pool: Pool, fid: Fid, rc: int, destroyed: bool)

  /** ioctx_close: drop the fid's reference on its handle; the last
      reference unlinks the handle and closes the storage (`closeOk` is the
      outcome of close/closedir). The fid loses its handle in every case. */
  function IoctxClose(p: Pool, fid: Fid, closeOk: bool): (r: Closing)
    requires Valid(p)
    requires fid.ioctx.Some? && fid.ioctx.value in p.handles
    requires p.handles[fid.ioctx.value].owner == fid.path
    ensures Valid(r.pool)
    ensures Keyed(p) ==> Keyed(r.pool)
    ensures r.fid == fid.(ioctx := None)
    ensures r.pool.nextHandle == p.nextHandle
    ensures r.destroyed <==> p.handles[fid.ioctx.value].refcount == 1
    ensures r.rc == -1 <==> r.destroyed && !closeOk
    ensures r.rc == 0 || r.rc == -1
    ensures r.destroyed ==>
      var id := fid.ioctx.value;
      && r.pool.handles == p.handles - {id}
      && r.pool.paths.Keys == p.paths.Keys
      && r.pool.paths[fid.path].refcount == p.paths[fid.path].refcount
      && r.pool.paths[fid.path].handles == Unlink(p.paths[fid.path].handles, id)
      && (forall x :: x in r.pool.paths[fid.path].handles <==> x in p.paths[fid.path].handles && x != id)
      && (forall k :: k in p.paths && k != fid.path ==> r.pool.paths[k] == p.paths[k])
    ensures !r.destroyed ==>
      var id := fid.ioctx.value;
      && r.pool.paths == p.paths
      && r.pool.handles == p.handles[id := p.handles[id].(refcount := p.handles[id].refcount - 1)]
  {
    var id := fid.ioctx.value;
    if p.handles[id].refcount == 1 then
      var q := DestroyHandle(p, fid.path, id);
      Closing(q, fid.(ioctx := None), if closeOk then 0 else -1, true)
    else
      var h := p.handles[id];
      var q := p.(handles := p.handles[id := h.(refcount := h.refcount - 1)]);
      assert Valid(q) by { RecountKeepsValid(p, id, h.refcount - 1, q); }
      Closing(q, fid.(ioctx := None), 0, false)
  }

  /** The last reference of ioctx_close: the handle is unlinked from its
      path and forgotten. */
  function DestroyHandle(p: Pool, s: string, id: HandleId): (q: Pool)
    requires Valid(p) && id in p.handles && p.handles[id].owner == s
    ensures Valid(q)
    ensures q.nextHandle == p.nextHandle
    ensures q.handles == p.handles - {id}
    ensures q.paths.Keys == p.paths.Keys
    ensures q.paths[s] == p.paths[s].(handles := Unlink(p.paths[s].handles, id))
    ensures forall x :: x in q.paths[s].handles <==> x in p.paths[s].handles && x != id
    ensures forall k :: k in p.paths && k != s ==> q.paths[k] == p.paths[k]
  {
    var rec := p.paths[s];
    assert Linked(p, id);
    var rest := Unlink(rec.handles, id);
    UnlinkMembers(rec.handles, id);
    var q := Pool(p.paths[s := rec.(handles := rest)], p.handles - {id}, p.nextHandle);
    CloseKeepsValid(p, s, id, rest, q);
    q
  }

  /** Changing a handle's reference count, as long as one reference stays,
      keeps the pool invariant. */
  lemma RecountKeepsValid(p: Pool, id: HandleId, n: nat, q: Pool)
    requires Valid(p) && id in p.handles && n >= 1
    requires q == p.(handles := p.handles[id := p.handles[id].(refcount := n)])
    ensures Valid(q)
  {
    forall x | x in q.handles
      ensures Linked(q, x)
    {
      assert Linked(p, x);
    }
  }

  /** Unlinking and dropping a handle keeps the pool invariant, whatever
      list `rest` of the path's other handles is left. */
  lemma CloseKeepsValid(p: Pool, s: string, id: HandleId, rest: seq<HandleId>, q: Pool)
    requires Valid(p) && id in p.handles && p.handles[id].owner == s
    requires NoDup(rest) && forall x :: x in rest <==> x in p.paths[s].handles && x != id
    requires q.paths == p.paths[s := p.paths[s].(handles := rest)]
    requires q.handles == p.handles - {id} && q.nextHandle == p.nextHandle
    ensures Valid(q)
  {
    forall x | x in q.handles
      ensures Linked(q, x)
    {
      assert Linked(p, x);
      var o := p.handles[x].owner;
      assert x in p.paths[o].handles;
      if o == s {
        assert x in rest;
      }
    }
  }

  /** Opening and then closing with the same fid gives back the paths and
      handles the pool had before, whether the open shared a handle or
      created one (a real open matched by a real close). */
  lemma OpenThenCloseRestores(p: Pool, fid: Fid, flags: bv32, storage: StorageOpen)
    requires Valid(p) && fid.path in p.paths && fid.ioctx.None?
    requires IoctxOpen(p, fid, flags, storage).rc == 0
    ensures var o := IoctxOpen(p, fid, flags, storage);
      var c := IoctxClose(o.pool, o.fid, true);
      && c.fid == fid.(ioctx := None)
      && c.pool.paths == p.paths
      && c.pool.handles == p.handles
      && c.destroyed == (o.fid.ioctx.value !in p.handles)
  {
    var o := IoctxOpen(p, fid, flags, storage);
    var id := o.fid.ioctx.value;
    if id in p.handles {
      assert Reused(p, o, fid, flags, id);
      CloseUndoesReuse(p, o.pool, fid, id);
    } else {
      assert Created(p, o, fid, flags, storage, id);
      CloseUndoesCreate(p, o.pool, fid, flags, storage.qid, id);
    }
  }

  /** Closing a reused handle takes back exactly the reference the open
      added. */
  lemma CloseUndoesReuse(p: Pool, q: Pool, fid: Fid, id: HandleId)
    requires Valid(p) && Valid(q) && id in p.handles && p.handles[id].owner == fid.path
    requires q.paths == p.paths && q.nextHandle == p.nextHandle
    requires q.handles == p.handles[id := p.handles[id].(refcount := p.handles[id].refcount + 1)]
    ensures var c := IoctxClose(q, fid.(ioctx := Some(id)), true);
      && c.fid == fid.(ioctx := None) && c.pool.paths == p.paths && c.pool.handles == p.handles && !c.destroyed
  {
    var c := IoctxClose(q, fid.(ioctx := Some(id)), true);
    assert !c.destroyed by {
      assert Linked(p, id);
    }
    DropUndoesBump(p.handles, q.handles, c.pool.handles, id);
  }

  /** Taking back one reference from a handle table restores it. */
  lemma DropUndoesBump(before: map<HandleId, Handle>, bumped: map<HandleId, Handle>,
                       after: map<HandleId, Handle>, id: HandleId)
    requires id in before
    requires bumped == before[id := before[id].(refcount := before[id].refcount + 1)]
    requires after == bumped[id := bumped[id].(refcount := bumped[id].refcount - 1)]
    ensures after == before
  {
    assert after[id] == before[id];
  }

  /** Closing a freshly created handle unlinks and drops it again. */
  lemma CloseUndoesCreate(p: Pool, q: Pool, fid: Fid, flags: bv32, qid: Qid, id: HandleId)
    requires Valid(p) && Valid(q) && fid.path in p.paths && id !in p.handles
    requires q.handles == p.handles[id := NewHandle(qid, flags, fid.uid, fid.path)]
    requires q.paths == p.paths[fid.path := p.paths[fid.path].(handles := Link(p.paths[fid.path].handles, id))]
    ensures var c := IoctxClose(q, fid.(ioctx := Some(id)), true);
      && c.fid == fid.(ioctx := None) && c.pool.paths == p.paths && c.pool.handles == p.handles && c.destroyed
  {
    var c := IoctxClose(q, fid.(ioctx := Some(id)), true);
    assert c.destroyed by {
      assert q.handles[id].refcount == 1;
    }
    assert c.pool.handles == p.handles by {
      assert c.pool.handles == q.handles - {id};
    }
    assert c.pool.paths == p.paths by {
      UnlinkAfterLink(p.paths, q.paths, c.pool.paths, fid.path, id);
    }
  }

  /** Unlinking the handle a link put at the head of a path's list gives the
      path table back. */
  lemma UnlinkAfterLink(before: map<string, PathRec>, linked: map<string, PathRec>,
                        after: map<string, PathRec>, s: string, id: HandleId)
    requires s in before
    requires linked == before[s := before[s].(handles := Link(before[s].handles, id))]
    requires after.Keys == linked.Keys
    requires after[s] == linked[s].(handles := Unlink(linked[s].handles, id))
    requires forall k :: k in linked && k != s ==> after[k] == linked[k]
    ensures after == before
  {
    UnlinkUndoesLink(before[s].handles, id);
    assert after.Keys == before.Keys;
    forall k | k in before
      ensures after[k] == before[k]
    {
      if k == s {
        assert after[s].handles == before[s].handles;
      } else {
        assert after[k] == linked[k];
      }
    }
  }

  /** Two read-only opens of one plain file by the same uid with sharing on,
      where no handle could be shared before: the first links a new handle, the second reuses it whatever the
      storage would have answered, and the handle then holds two
      references (one real open serves both). */
  lemma SecondOpenShares(p: Pool, s: string, uid: nat, flags: bv32, qid: Qid, second: StorageOpen)
    requires Valid(p) && s in p.paths
    requires flags & O_ACCMODE == O_RDONLY && qid.qtype == QTFILE
    requires !HasShareable(p, s, flags, uid)
    ensures var f := Fid(s, None, true, uid);
      var o1 := IoctxOpen(p, f, flags, Opened(qid));
      o1.rc == 0 &&
      var o2 := IoctxOpen(o1.pool, f, flags, second);
      && o2.rc == 0
      && o2.fid.ioctx == o1.fid.ioctx
      && o2.pool.handles[o2.fid.ioctx.value].refcount == 2
      && o2.pool.paths == o1.pool.paths
  {
    var f := Fid(s, None, true, uid);
    var o1 := IoctxOpen(p, f, flags, Opened(qid));
    var id := o1.fid.ioctx.value;
    assert id !in p.handles;
    {
      assert Created(p, o1, f, flags, Opened(qid), id);
      var l := o1.pool.paths[s].handles;
      assert l[0] == id;
      assert FirstShareable(o1.pool.handles, l, flags, uid) == Some(0);
    }
  }

  // ---------------------------------------------------------------------
  // Handle census (_count_ioctx)
  // ---------------------------------------------------------------------

  /** Sum of the reference counts of the listed handles. */
  ghost function SumRefs(hs: map<HandleId, Handle>, l: seq<HandleId>): nat
    requires forall id :: id in l ==> id in hs
    decreases |l|
  {
    if |l| == 0 then 0 else hs[l[0]].refcount + SumRefs(hs, l[1..])
  }

  /** _count_ioctx: walk a path's list counting the handles (`unique`) and
      summing their reference counts (`shared`); since every linked handle
      holds at least one reference, the sum is at least the count. */
  method CountHandles(p: Pool, s: string) returns (shared: nat, unique: nat)
    requires Valid(p) && s in p.paths
    ensures unique == |p.paths[s].handles|
    ensures shared == SumRefs(p.handles, p.paths[s].handles)
    ensures shared >= unique
  {
    var l := p.paths[s].handles;
    shared, unique := 0, 0;
    var i := 0;
    while i < |l|
      invariant 0 <= i <= |l| && unique == i
      invariant shared + SumRefs(p.handles, l[i..]) == SumRefs(p.handles, l)
      invariant shared >= unique
    {
      assert l[i] in l;
      assert l[i..][1..] == l[i + 1..];
      unique := unique + 1;
      shared := shared + p.handles[l[i]].refcount;
      i := i + 1;
    }
  }
}
