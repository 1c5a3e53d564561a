/**
 The timer half of lib/poll/poll.c in its own form: reference-counted entries on two circular
 lists, the pending timers and the free entries. Each method is proved to do to the pending list
 what TimerQueue says, and one run of the queue fires what TimerQueue's run fires.
 */
module PollLoop {
  import opened CircList
  import opened TimerQueue

  /** What an entry holds besides its links; `armed` says it is of the timer kind. */
  datatype PollEntry = PollEntry(timer: Timer, queued: bool, refCount: int, armed: bool)

  type Node = Item<PollEntry>

  /** Pending entries: armed, with one reference, and holding the timers `ts`. */
  ghost predicate Shows(s: seq<Node>, ts: seq<Timer>)
    reads s`entry
  {
    && |s| == |ts|
    && forall i :: 0 <= i < |s| ==> s[i].entry.timer == ts[i] && s[i].entry.refCount == 1 && s[i].entry.armed
  }

  ghost predicate Apart(s: seq<Node>, t: seq<Node>) {
    forall i, j :: 0 <= i < |s| && 0 <= j < |t| ==> s[i] != t[j]
  }

  ghost function Rest<T>(s: seq<T>, i: nat): seq<T>
    requires i < |s|
  {
    s[..i] + s[i + 1..]
  }

  lemma Cut(s: seq<Node>, i: nat)
    requires i < |s| && Ring(s)
    ensures forall x :: x in Rest(s, i) <==> x in s && x != s[i]
    ensures Rest(s, i) == s[..i] + s[i + 1..] && (i == 0 ==> Rest(s, i) == s[1..])
  {
    assert s == s[..i] + [s[i]] + s[i + 1..];
  }

  /** What is left shows the timers that are left, whatever becomes of the entry taken out. */
  lemma Removed(s: seq<Node>, ts: seq<Timer>, i: nat)
    requires i < |s| && Ring(s) && Shows(s, ts)
    ensures |s| == |ts| && Shows(Rest(s, i), Rest(ts, i)) && s[i] !in Rest(s, i)
    ensures s[i].entry.timer == ts[i] && s[i].entry.refCount == 1 && s[i].entry.armed
  {
    Cut(s, i);
    var r, rs := Rest(s, i), Rest(ts, i);
    assert forall k :: 0 <= k < |r| ==> r[k] == s[if k < i then k else k + 1] && rs[k] == ts[if k < i then k else k + 1];
  }

  lemma Placed(s: seq<Node>, f: seq<Node>, ts: seq<Timer>, e: Node, i: nat)
    requires i <= |s| && Apart(s, f) && e !in f && Shows(s, ts) && e.entry.refCount == 1 && e.entry.armed
    ensures Apart(s[..i] + [e] + s[i..], f) && Shows(s[..i] + [e] + s[i..], ts[..i] + [e.entry.timer] + ts[i..])
    ensures forall x :: x in s[..i] + [e] + s[i..] <==> x == e || x in s
  {
    var r, rs := s[..i] + [e] + s[i..], ts[..i] + [e.entry.timer] + ts[i..];
    assert forall k :: 0 <= k < |r| ==> r[k] == if k < i then s[k] else if k == i then e else s[k - 1];
    assert forall k :: 0 <= k < |r| ==> rs[k] == if k < i then ts[k] else if k == i then e.entry.timer else ts[k - 1];
    assert s == s[..i] + s[i..];
  }

  class Loop {
    var listTime: Item?<PollEntry>
    var listFree: Item?<PollEntry>
    var nextId: nat
    ghost var timeq: seq<Node>
    ghost var freeq: seq<Node>
    ghost var timers: seq<Timer>

    ghost predicate Valid()
      reads this, timeq, freeq
    {
      && Ring(timeq) && Ring(freeq) && listTime == First(timeq) && listFree == First(freeq)
      && Apart(timeq, freeq) && Shows(timeq, timers)
    }

    ghost function View(): Queue
      reads this
    {
      Queue(timers, nextId)
    }

    /** The entries on the two lists. */
    ghost function Nodes(): set<Node>
      reads this
    {
      (set x | x in timeq) + (set x | x in freeq)
    }

    /** On neither list. */
    ghost predicate Outside(e: Node)
      reads this
    {
      e !in timeq && e !in freeq
    }

    constructor ()
      ensures Valid() && View() == Queue([], 0) && fresh(timeq) && fresh(freeq)
    {
      listTime, listFree, nextId := null, null, 0;
      timeq, freeq, timers := [], [], [];
    }

    /** `poll_entry_get`: a free entry, or a new one. */
    method EntryGet() returns (e: Node)
      requires Valid()
      modifies this`listFree, this`freeq, freeq`prev, freeq`next
      ensures Valid() && Outside(e)
      ensures fresh(e) || e in old(freeq)
      ensures freeq == if old(freeq) == [] then [] else old(freeq)[1..]
    {
      hide Ring, Shows;
      if listFree == null {
        e := new Item(PollEntry(Timer(0, 0, 0, false, 0, 0), false, 0, false));
        return;
      }
      Cut(freeq, 0);
      e := listFree;
      listFree := DeleteItem(listFree, e, freeq, 0);
      freeq := Rest(freeq, 0);
    }

    /** `poll_entry_put`. */
    method EntryPut(e: Node)
      requires Valid() && Outside(e)
      modifies this`listFree, this`freeq, e, freeq`prev, freeq`next
      ensures Valid() && freeq == old(freeq) + [e]
    {
      hide Ring, Shows;
      e.entry := e.entry.(armed := false);
      listFree := QueueItem(listFree, e, freeq);
      freeq := freeq + [e];
    }

    /** `poll_entry_unref`; `kept` is false once the entry is on the free list. */
    method EntryUnref(e: Node) returns (kept: bool)
      requires Valid() && Outside(e) && e.entry.refCount > 0
      modifies this`listFree, this`freeq, e, freeq`prev, freeq`next
      ensures Valid() && kept == (old(e.entry.refCount) > 1)
      ensures kept ==> e.entry == old(e.entry).(refCount := old(e.entry.refCount) - 1) && freeq == old(freeq)
      ensures !kept ==> freeq == old(freeq) + [e]
    {
      hide Ring, Shows;
      e.entry := e.entry.(refCount := e.entry.refCount - 1);
      if e.entry.refCount > 0 {
        return true;
      }
      EntryPut(e);
      kept := false;
    }

    /** The scan of `poll_insert_time` for the first entry that expires later. */
    method FindLater(expiry: nat) returns (li: Item?<PollEntry>, ghost i: nat)
      requires Ring(timeq) && listTime == First(timeq) && Shows(timeq, timers)
      ensures i == PositionAfter(timers, expiry, 0)
      ensures li == if i == |timeq| then null else timeq[i]
    {
      li := listTime;
      i := 0;
      while li != null
        invariant i <= |timeq| && li == if i == |timeq| then null else timeq[i]
        invariant PositionAfter(timers, expiry, 0) == PositionAfter(timers, expiry, i)
        decreases |timeq| - i
      {
        if expiry < li.entry.timer.expiry {
          return;
        }
        ItemLinks(timeq, i);
        assert i > 0 ==> timeq[i] != timeq[0];
        li := if li.next == listTime then null else li.next;
        i := i + 1;
      }
    }

    /** The links of `poll_insert_time`. */
    method Link(e: Node) returns (head: Item<PollEntry>, ghost i: nat)
      requires Ring(timeq) && listTime == First(timeq) && Shows(timeq, timers) && e !in timeq
      modifies timeq`prev, timeq`next, e`prev, e`next
      ensures i <= |timeq| && i == PositionAfter(timers, e.entry.timer.expiry, 0)
      ensures Ring(timeq[..i] + [e] + timeq[i..]) && head == (timeq[..i] + [e] + timeq[i..])[0]
    {
      hide Ring;
      ghost var s := timeq;
      if listTime == null {
        i := 0;
        head := QueueItem(listTime, e, s);
        assert s[..i] + [e] + s[i..] == s + [e];
        return;
      }
      if e.entry.timer.expiry < listTime.entry.timer.expiry {
        i := 0;
        head := PushItem(listTime, e, s);
        assert s[..i] + [e] + s[i..] == [e] + s;
        return;
      }
      var li;
      li, i := FindLater(e.entry.timer.expiry);
      head := listTime;
      if li == null {
        head := QueueItem(listTime, e, s);
        assert s[..i] + [e] + s[i..] == s + [e];
      } else {
        InsertBefore(e, li, s, i);
      }
    }

    /** `poll_insert_time`. */
    method InsertTime(e: Node)
      requires Valid() && Outside(e) && e.entry.refCount == 1 && e.entry.armed
      modifies this`listTime, this`timeq, this`timers, e, timeq`prev, timeq`next
      ensures Valid() && timers == Insert(old(timers), old(e.entry.timer))
      ensures forall x :: x in timeq <==> x == e || x in old(timeq)
    {
      hide Ring, Shows, PositionAfter;
      e.entry := e.entry.(queued := true);
      ghost var i;
      listTime, i := Link(e);
      Placed(timeq, freeq, timers, e, i);
      timers := timers[..i] + [e.entry.timer] + timers[i..];
      timeq := timeq[..i] + [e] + timeq[i..];
    }

    /** `poll_callback_time`. */
    method CallbackTime(time: nat, delay: nat, permanent: bool, callback: nat, data: nat)
      requires Valid()
      modifies this, Nodes()
      ensures Valid() && View() == Apply(old(View()), Add(time, delay, permanent, callback, data))
      ensures fresh(Nodes() - old(Nodes()))
    {
      hide Ring, Shows, Insert, Apart;
      var e := EntryGet();
      e.entry := PollEntry(Timer(nextId, callback, data, permanent, delay, time + delay), false, 1, true);
      nextId := nextId + 1;
      InsertTime(e);
    }

    /** The scan of `poll_callback_time_remove`. */
    method FindEntry(permanent: bool, callback: nat, data: nat) returns (li: Item?<PollEntry>, ghost i: nat)
      requires Ring(timeq) && listTime == First(timeq) && Shows(timeq, timers)
      ensures i == FindMatch(timers, permanent, callback, data, 0)
      ensures li == if i == |timeq| then null else timeq[i]
    {
      li := listTime;
      i := 0;
      while li != null
        invariant i <= |timeq| && li == if i == |timeq| then null else timeq[i]
        invariant FindMatch(timers, permanent, callback, data, 0) == FindMatch(timers, permanent, callback, data, i)
        decreases |timeq| - i
      {
        var t := li.entry.timer;
        if t.callback == callback && t.data == data && t.permanent == permanent {
          return;
        }
        ItemLinks(timeq, i);
        assert i > 0 ==> timeq[i] != timeq[0];
        li := if li.next == listTime then null else li.next;
        i := i + 1;
      }
    }

    /** Takes the entry at position `i` off the pending list. */
    method Dequeue(e: Node, ghost i: nat)
      requires Ring(timeq) && Ring(freeq) && listTime == First(timeq) && listFree == First(freeq)
      requires i < |timeq| == |timers| && timeq[i] == e
      requires Apart(timeq, freeq) && Shows(Rest(timeq, i), Rest(timers, i))
      modifies this`listTime, this`timeq, this`timers, timeq`prev, timeq`next
      ensures Valid() && timers == Rest(old(timers), i)
      ensures forall x :: x in timeq <==> x in old(timeq) && x != e
    {
      hide Ring, Shows;
      Cut(timeq, i);
      listTime := DeleteItem(listTime, e, timeq, i);
      timeq, timers := Rest(timeq, i), Rest(timers, i);
    }

    /** `poll_callback_time_remove`. */
    method CallbackTimeRemove(permanent: bool, callback: nat, data: nat) returns (found: bool)
      requires Valid()
      modifies this, Nodes()
      ensures Valid() && View() == Apply(old(View()), Remove(permanent, callback, data))
      ensures Nodes() <= old(Nodes())
      ensures found <==> FindMatch(old(View()).timers, permanent, callback, data, 0) < |old(View()).timers|
    {
      hide Ring;
      var e, i := FindEntry(permanent, callback, data);
      if e == null {
        return false;
      }
      Removed(timeq, timers, i);
      e.entry := e.entry.(queued := false);
      Dequeue(e, i);
      var kept := EntryUnref(e);
      found := true;
    }

    /** A callback: whatever it does to the timers, one operation after another. */
    method Fire(ops: seq<Op>)
      requires Valid()
      modifies this, Nodes()
      ensures Valid() && View() == ApplyAll(old(View()), ops, |ops|)
      ensures fresh(Nodes() - old(Nodes()))
    {
      hide Valid, Apply;
      for i := 0 to |ops|
        invariant Valid() && View() == ApplyAll(old(View()), ops, i)
        invariant fresh(Nodes() - old(Nodes()))
      {
        match ops[i]
        case Add(time, delay, permanent, callback, data) => CallbackTime(time, delay, permanent, callback, data);
        case Remove(permanent, callback, data) => var found := CallbackTimeRemove(permanent, callback, data);
      }
    }

    /** `poll_run_time_queue` takes the expired head with a reference of its own. */
    method TakeHead() returns (e: Node)
      requires Valid() && timeq != []
      modifies this`listTime, this`timeq, this`timers, timeq
      ensures Valid() && Outside(e) && e in old(timeq) && timers == old(timers)[1..]
      ensures e.entry.refCount == 2 && e.entry.armed && e.entry.timer == old(timers)[0]
      ensures forall x :: x in timeq ==> x in old(timeq)
    {
      hide Ring, Shows;
      e := listTime;
      Removed(timeq, timers, 0);
      e.entry := e.entry.(refCount := e.entry.refCount + 1);
      Dequeue(e, 0);
    }

    /** Drops that reference after the callback, and puts a permanent timer back. */
    method Settle(e: Node, time: nat)
      requires Valid() && Outside(e) && e.entry.refCount == 2 && e.entry.armed
      modifies this, e, Nodes()
      ensures Valid() && nextId == old(nextId) && Nodes() <= old(Nodes()) + {e}
      ensures var t := old(e.entry.timer);
        timers == if t.permanent then Insert(old(timers), t.(expiry := time + t.delay)) else old(timers)
    {
      hide Ring, Shows, Insert, Apart;
      var kept := EntryUnref(e);
      if !e.entry.timer.permanent {
        kept := EntryUnref(e);
      } else {
        e.entry := e.entry.(timer := e.entry.timer.(expiry := time + e.entry.timer.delay));
        InsertTime(e);
      }
    }

    /** One round of `poll_run_time_queue`; the timer is handed to its callback as it was then. */
    method FireHead(f: Firing) returns (fired: Timer)
      requires Valid() && timeq != []
      modifies this, Nodes()
      ensures fired == old(timers)[0]
      ensures Valid() && View() == AfterFiring(old(View()), f)
      ensures fresh(Nodes() - old(Nodes()))
    {
      hide Ring, ApplyAll, Insert, Shows, Apart;
      var e := TakeHead();
      fired := e.entry.timer;
      Fire(f.ops);
      Settle(e, f.time);
    }

    /** `poll_run_time_queue`: `fired` are the timers whose callbacks ran, in order. */
    method RunTimeQueue(now: nat, fire: nat -> Firing) returns (fired: seq<Timer>)
      requires Valid() && TimerQueue.Valid(View()) && AllSane(now, fire)
      modifies this, Nodes()
      ensures Valid() && View() == RunFrom(old(View()), now, fire, 0).queue
      ensures fired == RunFrom(old(View()), now, fire, 0).fired
    {
      hide TimerQueue.Valid, AfterFiring, Due, AllDueRemoved, Ring, AllSane, Sane;
      var k: nat := 0;
      ghost var removed := {};
      fired := [];
      while true
        invariant Valid() && TimerQueue.Valid(View())
        invariant fresh(Nodes() - old(Nodes()))
        invariant var r := RunFrom(View(), now, fire, k);
          RunFrom(old(View()), now, fire, 0) == Ran(r.queue, fired + r.fired, removed + r.removed)
        decreases |Due(View().timers, now)|
      {
        ghost var s := View();
        if listTime == null || listTime.entry.timer.expiry > now {
          assert fired + [] == fired && removed + {} == removed;
          return;
        }
        ghost var gone := StepOf(s, now, fire, k);
        var t := FireHead(fire(k));
        ghost var next := RunFrom(View(), now, fire, k + 1);
        assert fired + ([s.timers[0]] + next.fired) == fired + [s.timers[0]] + next.fired;
        assert removed + (gone + next.removed) == removed + gone + next.removed;
        fired, removed := fired + [t], removed + gone;
        k := k + 1;
      }
    }
  }

  /** One unfolding of a run. */
  lemma StepOf(s: Queue, now: nat, fire: nat -> Firing, k: nat) returns (gone: set<nat>)
    requires TimerQueue.Valid(s) && AllSane(now, fire) && s.timers != [] && s.timers[0].expiry <= now
    ensures TimerQueue.Valid(AfterFiring(s, fire(k)))
    ensures |Due(AfterFiring(s, fire(k)).timers, now)| < |Due(s.timers, now)|
    ensures var r := RunFrom(AfterFiring(s, fire(k)), now, fire, k + 1);
      RunFrom(s, now, fire, k) == Ran(r.queue, [s.timers[0]] + r.fired, gone + r.removed)
  {
    assert Sane(now, fire(k));
    FiringKeeps(s, fire(k), now);
    gone := AllDueRemoved(s.(timers := s.timers[1..]), fire(k).ops, |fire(k).ops|, now);
  }
}
