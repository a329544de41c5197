// The intrusive circular list of list.h.
module IntrusiveList {

  // struct list_head; `entry` stands for the enclosing object that container_of computes.
  class ListHead {
    var next: ListHead
    var prev: ListHead
    var entry: object?

    // INIT_LIST_HEAD
    constructor ()
      ensures next == this && prev == this && entry == null
    {
      next, prev, entry := this, this, null;
    }
  }

  // Element i of the ring; the positions before the first and after the last one are the head.
  ghost function At(head: ListHead, items: seq<ListHead>, i: int): ListHead {
    if 0 <= i < |items| then items[i] else head
  }

  ghost predicate Chained(head: ListHead, items: seq<ListHead>, i: int)
    reads head`next, head`prev, items`next, items`prev
  { At(head, items, i - 1).next == At(head, items, i) && At(head, items, i).prev == At(head, items, i - 1) }

  ghost predicate Distinct(head: ListHead, items: seq<ListHead>) {
    head !in items && forall i, j :: 0 <= i < j < |items| ==> items[i] != items[j]
  }

  // The links starting at head run through items and back, in both directions.
  ghost predicate Ring(head: ListHead, items: seq<ListHead>)
    reads head`next, head`prev, items`next, items`prev
  {
    Distinct(head, items) &&
    forall i {:trigger Chained(head, items, i)} :: 0 <= i <= |items| ==> Chained(head, items, i)
  }

  // A ring whose links have not changed.
  twostate lemma Undisturbed(new head: ListHead, new items: seq<ListHead>)
    requires old(allocated(head)) && old(allocated(items)) && old(Ring(head, items))
    requires head.next == old(head.next) && head.prev == old(head.prev)
    requires forall x :: x in items ==> x.next == old(x.next) && x.prev == old(x.prev)
    ensures Ring(head, items)
  {
    forall i | 0 <= i <= |items| ensures Chained(head, items, i) { assert old(Chained(head, items, i)); }
  }

  // __list_add
  method AddBetween(x: ListHead, prev: ListHead, next: ListHead)
    requires x != prev && x != next
    modifies next`prev, x`next, x`prev, prev`next
    ensures next.prev == x && x.next == next && x.prev == prev && prev.next == x
  {
    next.prev := x;
    x.next := next;
    x.prev := prev;
    prev.next := x;
  }

  // __list_del
  method Bypass(prev: ListHead, next: ListHead)
    modifies next`prev, prev`next
    ensures next.prev == prev && prev.next == next
  {
    next.prev := prev;
    prev.next := next;
  }

  method AddTail(x: ListHead, head: ListHead, ghost items: seq<ListHead>)
    requires Ring(head, items) && x != head && x !in items
    modifies x`next, x`prev, head`prev, head.prev`next
    ensures Ring(head, items + [x])
  {
    assert Chained(head, items, |items|);
    AddBetween(x, head.prev, head);
    ghost var longer := items + [x];
    forall i | 0 <= i <= |longer| ensures Chained(head, longer, i) {
      assert i <= |items| ==> old(Chained(head, items, i));
    }
  }

  // list_add: x becomes the first entry
  method Add(x: ListHead, head: ListHead, ghost items: seq<ListHead>)
    requires Ring(head, items) && x != head && x !in items
    modifies x`next, x`prev, head`next, head.next`prev
    ensures Ring(head, [x] + items)
  {
    assert Chained(head, items, 0);
    AddBetween(x, head, head.next);
    ghost var longer := [x] + items;
    forall i | 0 <= i <= |longer| ensures Chained(head, longer, i) {
      assert i >= 1 ==> old(Chained(head, items, i - 1));
    }
  }

  // list_del_init on the entry at position k
  method DelInit(x: ListHead, ghost head: ListHead, ghost items: seq<ListHead>, ghost k: int)
    requires Ring(head, items) && 0 <= k < |items| && items[k] == x
    modifies x`next, x`prev, x.next`prev, x.prev`next
    ensures Ring(head, items[..k] + items[k + 1..]) && Ring(x, [])
  {
    assert Chained(head, items, k);
    assert Chained(head, items, k + 1);
    Bypass(x.prev, x.next);
    x.next := x;
    x.prev := x;
    ghost var shorter := items[..k] + items[k + 1..];
    forall i | 0 <= i <= |shorter| ensures Chained(head, shorter, i) {
      assert i <= k ==> old(Chained(head, items, i));
      assert i >= k ==> old(Chained(head, items, i + 1));
    }
    assert Chained(x, [], 0);
  }

  method IsEmpty(head: ListHead, ghost items: seq<ListHead>) returns (b: bool)
    requires Ring(head, items)
    ensures b <==> items == []
  {
    assert Chained(head, items, 0);
    b := head.next == head;
  }

  // list_splice_init: the entries of one ring go to the front of another, and the emptied ring is initialised
  method SpliceInit(list: ListHead, head: ListHead, ghost other: seq<ListHead>, ghost items: seq<ListHead>)
    requires Ring(list, other) && Ring(head, items) && list != head && list !in items && head !in other
    requires forall x :: x in other ==> x !in items
    modifies list`next, list`prev, list.next`prev, list.prev`next, head`next, head.next`prev
    ensures Ring(head, other + items) && Ring(list, [])
  {
    assert Chained(list, other, 0) && Chained(list, other, |other|) && Chained(head, items, 0);
    if list.next != list {
      JoinFront(list, head, other, items);
      JoinedFront(list, head, other, items, other + items);
      JoinedBack(list, head, other, items, other + items);
      DistinctAll(list, head, other, items);
      assert Chained(list, [], 0);
    } else {
      assert other + items == items;
    }
  }

  // __list_splice with the initialisation after it
  method JoinFront(list: ListHead, head: ListHead, ghost other: seq<ListHead>, ghost items: seq<ListHead>)
    requires Ring(list, other) && Ring(head, items) && list != head && list !in items && head !in other && other != []
    requires forall x :: x in other ==> x !in items
    modifies list`next, list`prev, list.next`prev, list.prev`next, head`next, head.next`prev
    ensures Joined(list, head, other, items)
  {
    assert Chained(list, other, 0) && Chained(list, other, |other|) && Chained(head, items, 0);
    var first := list.next;
    var last := list.prev;
    var next := head.next;
    assert first == other[0] && last == other[|other| - 1] && next == At(head, items, 0);
    first.prev := head;
    head.next := first;
    last.next := next;
    next.prev := last;
    list.next := list;
    list.prev := list;
  }

  // The links after the entries of list's ring have been put in front of items.
  twostate predicate Joined(list: ListHead, head: ListHead, other: seq<ListHead>, items: seq<ListHead>)
    reads list, head, other, items
  {
    list != head && list !in items && head !in other && other != [] &&
    (forall x :: x in other ==> x !in items) && list.next == list && list.prev == list &&
    other[0].prev == head && head.next == other[0] &&
    other[|other| - 1].next == At(head, items, 0) && At(head, items, 0).prev == other[|other| - 1] &&
    (forall x :: x in other && x != other[0] ==> x.prev == old(x.prev)) &&
    (forall x :: x in other && x != other[|other| - 1] ==> x.next == old(x.next)) &&
    (forall x :: x in items + [head] && x != At(head, items, 0) ==> x.prev == old(x.prev)) &&
    (forall x :: x in items ==> x.next == old(x.next))
  }

  twostate lemma JoinedFront(new list: ListHead, new head: ListHead, new other: seq<ListHead>,
                             new items: seq<ListHead>, new all: seq<ListHead>)
    requires old(allocated(list)) && old(allocated(head)) && old(allocated(other)) && old(allocated(items)) &&
      old(allocated(all))
    requires old(Ring(list, other)) && Joined(list, head, other, items) && all == other + items
    ensures forall i {:trigger Chained(head, all, i)} :: 0 <= i <= |other| ==> Chained(head, all, i)
  {
    forall i | 0 <= i <= |other| ensures Chained(head, all, i) {
      assert old(Chained(list, other, i));
    }
  }

  twostate lemma JoinedBack(new list: ListHead, new head: ListHead, new other: seq<ListHead>, new items: seq<ListHead>,
                            new all: seq<ListHead>)
    requires old(allocated(list)) && old(allocated(head)) && old(allocated(other)) && old(allocated(items)) &&
      old(allocated(all))
    requires old(Ring(head, items)) && Joined(list, head, other, items) && all == other + items
    ensures forall i {:trigger Chained(head, all, i)} :: |other| < i <= |all| ==> Chained(head, all, i)
  {
    forall i | |other| < i <= |all| ensures Chained(head, all, i) {
      assert old(Chained(head, items, i - |other|));
      assert At(head, items, i - |other|) in items + [head];
    }
  }

  lemma DistinctAll(list: ListHead, head: ListHead, other: seq<ListHead>, items: seq<ListHead>)
    requires Distinct(list, other) && Distinct(head, items) && head !in other && forall x :: x in other ==> x !in items
    ensures Distinct(head, other + items)
  {
    var all := other + items;
    forall i, j | 0 <= i < j < |all| ensures all[i] != all[j] {
      if i < |other| <= j { assert all[i] in other && all[j] in items; }
    }
  }

  // list_cut_position: the entries up to and including entry, the one at position k, or none if entry is the head,
  // go to list. An empty ring is left alone, and list with it.
  method CutPosition(list: ListHead, head: ListHead, entry: ListHead, ghost items: seq<ListHead>, ghost k: int)
    requires Ring(head, items) && list != head && list !in items && -1 <= k < |items| && entry == At(head, items, k)
    modifies list`next, list`prev, head`next, head.next`prev, entry`next, entry.next`prev
    ensures items != [] ==> Ring(list, items[..k + 1]) && Ring(head, items[k + 1..])
    ensures items == [] ==> Ring(head, []) && list.next == old(list.next) && list.prev == old(list.prev)
  {
    assert Chained(head, items, 0) && Chained(head, items, |items|);
    if head.next == head {
      return;
    }
    if head.next == head.prev && head.next != entry && head != entry {
      return;
    }
    if entry == head {
      list.next := list;
      list.prev := list;
      Undisturbed(head, items);
      assert Chained(list, [], 0);
      assert k == -1 && items[k + 1..] == items && items[..k + 1] == [];
    } else {
      assert 0 <= k;
      CutBehind(list, head, entry, items, k);
      CutFront(list, head, items, items[..k + 1], k);
      CutBack(list, head, items, items[k + 1..], k);
    }
  }

  // __list_cut_position
  method CutBehind(list: ListHead, head: ListHead, entry: ListHead, ghost items: seq<ListHead>, ghost k: int)
    requires Ring(head, items) && list != head && list !in items && 0 <= k < |items| && entry == items[k]
    modifies list`next, list`prev, head`next, head.next`prev, entry`next, entry.next`prev
    ensures Cut(list, head, items, k)
  {
    assert Chained(head, items, 0) && Chained(head, items, k) && Chained(head, items, k + 1) &&
      Chained(head, items, |items|);
    var newFirst := entry.next;
    list.next := head.next;
    list.next.prev := list;
    list.prev := entry;
    entry.next := list;
    head.next := newFirst;
    newFirst.prev := head;
  }

  // The links after a cut behind position k.
  twostate predicate Cut(list: ListHead, head: ListHead, items: seq<ListHead>, k: int)
    reads list, head, items
  {
    old(Ring(head, items)) && 0 <= k < |items| && list != head && list !in items &&
    list.next == items[0] && items[0].prev == list && list.prev == items[k] && items[k].next == list &&
    head.next == At(head, items, k + 1) && At(head, items, k + 1).prev == head &&
    (k + 1 < |items| ==> head.prev == old(head.prev)) &&
    (forall i {:trigger items[i].prev} :: 0 < i < |items| && i != k + 1 ==> items[i].prev == old(items[i].prev)) &&
    (forall i {:trigger items[i].next} :: 0 <= i < |items| && i != k ==> items[i].next == old(items[i].next))
  }

  twostate lemma CutFront(new list: ListHead, new head: ListHead, new items: seq<ListHead>, new front: seq<ListHead>,
                          new k: int)
    requires old(allocated(list)) && old(allocated(head)) && old(allocated(items)) && old(allocated(front))
    requires Cut(list, head, items, k) && front == items[..k + 1]
    ensures Ring(list, front)
  {
    forall i | 0 <= i <= |front| ensures Chained(list, front, i) {
      assert old(Chained(head, items, i));
    }
  }

  twostate lemma CutBack(new list: ListHead, new head: ListHead, new items: seq<ListHead>, new back: seq<ListHead>,
                         new k: int)
    requires old(allocated(list)) && old(allocated(head)) && old(allocated(items)) && old(allocated(back))
    requires Cut(list, head, items, k) && back == items[k + 1..]
    ensures Ring(head, back)
  {
    forall i | 0 <= i <= |back| ensures Chained(head, back, i) {
      assert old(Chained(head, items, i + k + 1));
    }
  }
}
