/** The per-path list of open handles. In the C code this is an intrusive
    doubly-linked list threaded through the handles themselves; here it is the
    sequence of handle identifiers from head to tail. */
module HandleList {

  /** Stable identifier of an open handle (an IOCtx). */
  type HandleId = nat

  /** No handle appears twice in a list. */
  predicate NoDup(l: seq<HandleId>)
  {
    forall i, j :: 0 <= i < j < |l| ==> l[i] != l[j]
  }

  /** Position of the first occurrence of `id` in `l`. */
  function IndexOf(l: seq<HandleId>, id: HandleId): (i: nat)
    requires id in l
    ensures i < |l| && l[i] == id
    ensures forall j :: 0 <= j < i ==> l[j] != id
  {
    if l[0] == id then 0 else 1 + IndexOf(l[1..], id)
  }

  /** In a list without duplicates, an element's position is where it
      was found. */
  lemma IndexOfNoDup(l: seq<HandleId>, i: nat)
    requires NoDup(l) && i < |l|
    ensures l[i] in l && IndexOf(l, l[i]) == i
  {
    var k := IndexOf(l, l[i]);
    assert l[k] == l[i];
  }

  /** _link_ioctx: the handle becomes the new head of the list. */
  function Link(l: seq<HandleId>, id: HandleId): (r: seq<HandleId>)
    ensures |r| == |l| + 1 && r[0] == id
    ensures forall x :: x in r <==> x == id || x in l
    ensures id !in l && NoDup(l) ==> NoDup(r)
  {
    [id] + l
  }

  /** _unlink_ioctx: removes the handle from the list, patching its
      neighbours together. */
  function Unlink(l: seq<HandleId>, id: HandleId): (r: seq<HandleId>)
    requires id in l
    ensures |r| == |l| - 1
    ensures r == l[..IndexOf(l, id)] + l[IndexOf(l, id) + 1..]
    decreases |l|
  {
    if l[0] == id then l[1..] else [l[0]] + Unlink(l[1..], id)
  }

  /** In a list without duplicates, unlinking removes exactly the given handle:
      every other handle stays, none is duplicated. */
  lemma UnlinkMembers(l: seq<HandleId>, id: HandleId)
    requires id in l && NoDup(l)
    ensures NoDup(Unlink(l, id))
    ensures forall x :: x in Unlink(l, id) <==> x in l && x != id
  {
    var i := IndexOf(l, id);
    var r := Unlink(l, id);
    RemoveAtKeeps(l, i, r);
    RemoveAtDrops(l, i, r);
    RemoveAtNoDup(l, i, r);
  }

  /** Every element other than the removed one survives a removal. */
  lemma RemoveAtKeeps(l: seq<HandleId>, i: nat, r: seq<HandleId>)
    requires i < |l| && r == l[..i] + l[i + 1..]
    ensures forall x :: x in l && x != l[i] ==> x in r
  {
    forall x | x in l && x != l[i]
      ensures x in r
    {
      var k :| 0 <= k < |l| && l[k] == x;
      if k < i {
        assert r[k] == x;
      } else {
        assert r[k - 1] == x;
      }
    }
  }

  /** A removal without duplicates leaves no trace of the removed element. */
  lemma RemoveAtDrops(l: seq<HandleId>, i: nat, r: seq<HandleId>)
    requires i < |l| && r == l[..i] + l[i + 1..] && NoDup(l)
    ensures forall x :: x in r ==> x in l && x != l[i]
  {
    forall x | x in r
      ensures x in l && x != l[i]
    {
      var k :| 0 <= k < |r| && r[k] == x;
      var k' := if k < i then k else k + 1;
      assert r[k] == l[k'];
    }
  }

  /** Removing an element keeps a list free of duplicates. */
  lemma RemoveAtNoDup(l: seq<HandleId>, i: nat, r: seq<HandleId>)
    requires i < |l| && r == l[..i] + l[i + 1..] && NoDup(l)
    ensures NoDup(r)
  {
    forall a, b | 0 <= a < b < |r|
      ensures r[a] != r[b]
    {
      var a' := if a < i then a else a + 1;
      var b' := if b < i then b else b + 1;
      assert r[a] == l[a'] && r[b] == l[b'];
    }
  }

  /** Linking a handle that was not in the list and unlinking it again gives
      back the original list. */
  lemma UnlinkUndoesLink(l: seq<HandleId>, id: HandleId)
    ensures id in Link(l, id)
    ensures Unlink(Link(l, id), id) == l
  {
  }
}
