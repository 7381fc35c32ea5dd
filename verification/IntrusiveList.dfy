// Circular doubly linked lists whose links lie inside the entries; a list is known by its
// head, which is no entry itself.
module IntrusiveList {

  class ListHead {
    var next: ListHead?
    var prev: ListHead?
    // The number of the object that the entry lies in.
    const owner: nat

    // An empty list.
    constructor (owner: nat)
      ensures next == this == prev && this.owner == owner
    {
      this.owner := owner;
      new;
      next := this;
      prev := this;
    }
  }

  // s goes once around the list: the head first, then the entries in their order.
  ghost predicate Ring(s: seq<ListHead>)
    reads s
  {
    && 0 < |s|
    && (forall i, j :: 0 <= i < j < |s| ==> s[i] != s[j])
    && (forall i :: 0 <= i < |s| - 1 ==> s[i].next == s[i + 1] && s[i + 1].prev == s[i])
    && s[|s| - 1].next == s[0] && s[0].prev == s[|s| - 1]
  }

  // A list whose links have not changed is still one.
  twostate lemma RingKept(s: seq<ListHead>)
    requires old(Ring(s)) && forall i :: 0 <= i < |s| ==> unchanged(s[i])
    ensures Ring(s)
  {
  }

  predicate ListEmpty(head: ListHead)
    reads head
  {
    head.next == head
  }

  method LinkBetween(newl: ListHead, prev: ListHead, next: ListHead)
    modifies newl, prev, next
    requires newl != prev && newl != next
    ensures newl.prev == prev && newl.next == next && next.prev == newl && prev.next == newl
    ensures prev != next ==> next.next == old(next.next) && prev.prev == old(prev.prev)
  {
    next.prev := newl;
    newl.next := next;
    newl.prev := prev;
    prev.next := newl;
  }

  // Puts an entry right behind the head.
  method ListAdd(newl: ListHead, head: ListHead, ghost s: seq<ListHead>)
    requires Ring(s) && s[0] == head && newl !in s
    modifies newl, s
    ensures Ring([head, newl] + s[1..])
  {
    assert head.next == if 1 < |s| then s[1] else s[0];
    ghost var t := [head, newl] + s[1..];
    assert forall i :: 2 <= i < |t| ==> t[i] == s[i - 1];
    assert s[|s| - 1] == t[|t| - 1] || |s| == 1;
    LinkBetween(newl, head, head.next);
  }

  // Takes an entry out; its own links are left as they were.
  method ListDelEntry(entry: ListHead, ghost s: seq<ListHead>, ghost k: nat)
    requires Ring(s) && 0 < k < |s| && s[k] == entry
    modifies s
    ensures Ring(s[..k] + s[k + 1..])
  {
    var prev, next := entry.prev, entry.next;
    assert prev == s[k - 1] && next == if k + 1 < |s| then s[k + 1] else s[0];
    next.prev := prev;
    prev.next := next;
  }

  // Moves an entry from one list to the front of another.
  method ListMove(entry: ListHead, head: ListHead, ghost from: seq<ListHead>, ghost k: nat, ghost to: seq<ListHead>)
    requires Ring(from) && 0 < k < |from| && from[k] == entry
    requires Ring(to) && to[0] == head && forall x :: x in from ==> x !in to
    modifies from, to
    ensures Ring(from[..k] + from[k + 1..])
    ensures Ring([head, entry] + to[1..])
  {
    ghost var rest := from[..k] + from[k + 1..];
    assert forall i :: 0 <= i < |to| ==> to[i] in to && to[i] !in from;
    assert forall i :: 0 <= i < |rest| ==> rest[i] in from && rest[i] != entry && rest[i] !in to;
    hide Ring;
    ListDelEntry(entry, from, k);
    RingKept(to);
    label deleted:
    ListAdd(entry, head, to);
    RingKept@deleted(rest);
  }
}
