/**
 core/circlist.h: circular doubly linked lists whose head is just a pointer to the first item. The
 list is a sequence of items; adding at the end of the list that starts at an inner item is what
 inserts before that item.
 */
module CircList {

  class Item<T> {
    var prev: Item?<T>
    var next: Item?<T>
    var entry: T

    constructor (entry: T)
      ensures this.entry == entry && prev == null && next == null
    {
      this.entry := entry;
      prev, next := null, null;
    }
  }

  /** The items of `s` are different, and linked in a ring. */
  ghost predicate Ring<T>(s: seq<Item<T>>)
    reads s`prev, s`next
  {
    && (forall i, j :: 0 <= i < j < |s| ==> s[i] != s[j])
    && (forall i, j :: 0 <= i < j <= i + 1 && j < |s| ==> s[i].next == s[j] && s[j].prev == s[i])
    && (s != [] ==> s[|s| - 1].next == s[0] && s[0].prev == s[|s| - 1])
  }

  function First<T>(s: seq<Item<T>>): Item?<T> {
    if s == [] then null else s[0]
  }

  /** A ring may start anywhere. */
  lemma Rotate<T>(s: seq<Item<T>>, i: nat)
    requires Ring(s) && i <= |s|
    ensures Ring(s[i..] + s[..i])
  {
    var r := s[i..] + s[..i];
    var n := |s| - i;
    assert forall k :: 0 <= k < |r| ==> r[k] == if k < n then s[i + k] else s[k - n];
    forall a, b | 0 <= a < b <= a + 1 && b < |r| ensures r[a].next == r[b] && r[b].prev == r[a] {
      if b == n {
        assert r[a] == s[|s| - 1] && r[b] == s[0];
      }
    }
  }

  /** `circlist_queue_item`: adds at the end. */
  method QueueItem<T>(list: Item?<T>, item: Item<T>, ghost s: seq<Item<T>>) returns (head: Item<T>)
    requires Ring(s) && list == First(s) && item !in s
    modifies s`prev, s`next, item`prev, item`next
    ensures Ring(s + [item]) && head == if s == [] then item else s[0]
  {
    if list == null {
      item.next, item.prev := item, item;
      return item;
    }
    item.prev := list.prev;
    item.next := list;
    item.prev.next := item;
    list.prev := item;
    head := list;
    ghost var r := s + [item];
    assert forall k :: 0 <= k < |s| ==> r[k] == s[k];
  }

  /** `circlist_push_item`: adds at the front. */
  method PushItem<T>(list: Item?<T>, item: Item<T>, ghost s: seq<Item<T>>) returns (head: Item<T>)
    requires Ring(s) && list == First(s) && item !in s
    modifies s`prev, s`next, item`prev, item`next
    ensures Ring([item] + s) && head == item
  {
    var h := QueueItem(list, item, s);
    Rotate(s + [item], |s|);
    assert (s + [item])[|s|..] + (s + [item])[..|s|] == [item] + s;
    head := item;
  }

  /** Adding at the end of the list that starts at the `i`th item: an insertion before it. */
  method InsertBefore<T>(item: Item<T>, at: Item<T>, ghost s: seq<Item<T>>, ghost i: nat)
    requires Ring(s) && i < |s| && s[i] == at && item !in s
    modifies s`prev, s`next, item`prev, item`next
    ensures Ring(s[..i] + [item] + s[i..])
  {
    hide Ring;
    ghost var r := s[i..] + s[..i];
    Rotate(s, i);
    RotateMembers(s, i);
    var h := QueueItem(at, item, r);
    Rotate(r + [item], |s| - i);
    RotateBack(s, item, i);
  }

  lemma RotateMembers<T>(s: seq<Item<T>>, i: nat)
    requires i < |s|
    ensures forall x :: x in s[i..] + s[..i] <==> x in s
    ensures First(s[i..] + s[..i]) == s[i]
  {
    assert s == s[..i] + s[i..];
  }

  lemma RotateBack<T>(s: seq<Item<T>>, item: Item<T>, i: nat)
    requires i <= |s|
    ensures var r := s[i..] + s[..i] + [item]; r[|s| - i..] + r[..|s| - i] == s[..i] + [item] + s[i..]
  {
  }

  /** `circlist_delete_item`. */
  method DeleteItem<T>(list: Item?<T>, item: Item<T>, ghost s: seq<Item<T>>, ghost i: nat) returns (head: Item?<T>)
    requires Ring(s) && list == First(s) && i < |s| && s[i] == item
    modifies s`prev, s`next
    ensures Ring(s[..i] + s[i + 1..]) && head == First(s[..i] + s[i + 1..])
  {
    ghost var r := s[..i] + s[i + 1..];
    ItemLinks(s, i);
    if item == item.next {
      return null;
    }
    var next := item.next;
    next.prev := item.prev;
    item.prev.next := next;
    head := if list == item then next else list;
    assert forall k :: 0 <= k < |r| ==> r[k] == if k < i then s[k] else s[k + 1];
  }

  lemma ItemLinks<T>(s: seq<Item<T>>, i: nat)
    requires Ring(s) && i < |s|
    ensures s[i].next == s[if i + 1 < |s| then i + 1 else 0]
    ensures s[i].prev == s[if i > 0 then i - 1 else |s| - 1]
  {
  }
}
