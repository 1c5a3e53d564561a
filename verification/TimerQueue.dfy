/**
 The timer queue of lib/poll/poll.c on values: timers in the order they will fire, and what one
 run of the queue fires when the callbacks themselves add and remove timers.
 */
module TimerQueue {

  /** A registered timer. Entries are recycled by the source; `id` tells registrations apart. */
  datatype Timer = Timer(id: nat, callback: nat, data: nat, permanent: bool, delay: nat, expiry: nat)

  datatype Queue = Queue(timers: seq<Timer>, nextId: nat)

  // ----- one operation -----

  /** The first position from `i` on whose timer expires after `x`. */
  function PositionAfter(q: seq<Timer>, x: nat, i: nat): (r: nat)
    requires i <= |q|
    ensures i <= r <= |q| && (r < |q| ==> x < q[r].expiry)
    ensures forall j :: i <= j < r ==> q[j].expiry <= x
    decreases |q| - i
  {
    if i == |q| || x < q[i].expiry then i else PositionAfter(q, x, i + 1)
  }

  /** `poll_insert_time`. */
  function Insert(q: seq<Timer>, t: Timer): (r: seq<Timer>)
    ensures |r| == |q| + 1
  {
    var i := PositionAfter(q, t.expiry, 0);
    q[..i] + [t] + q[i..]
  }

  /** Sorted by expiry. */
  ghost predicate Ordered(q: seq<Timer>) {
    forall i, j :: 0 <= i < j < |q| ==> q[i].expiry <= q[j].expiry
  }

  /** A timer goes after all that expire no later and before all that expire later, and the others
      keep their order: sorted, and first in first out among equals. */
  lemma InsertIsStable(q: seq<Timer>, t: Timer)
    requires Ordered(q)
    ensures Ordered(Insert(q, t))
    ensures var i := PositionAfter(q, t.expiry, 0);
      && Insert(q, t) == q[..i] + [t] + q[i..]
      && (forall j :: 0 <= j < i ==> q[j].expiry <= t.expiry) && (forall j :: i <= j < |q| ==> t.expiry < q[j].expiry)
  {
    var i := PositionAfter(q, t.expiry, 0);
    assert forall j :: i <= j < |q| ==> t.expiry < q[j].expiry;
    OrderedAround(q, t, i);
  }

  lemma OrderedAround(q: seq<Timer>, t: Timer, i: nat)
    requires Ordered(q) && i <= |q|
    requires (forall j :: 0 <= j < i ==> q[j].expiry <= t.expiry) && (forall j :: i <= j < |q| ==> t.expiry < q[j].expiry)
    ensures Ordered(q[..i] + [t] + q[i..])
  {
    var r := q[..i] + [t] + q[i..];
    forall a, b | 0 <= a < b < |r| ensures r[a].expiry <= r[b].expiry {
      assert a < i ==> r[a] == q[a];
      assert a > i ==> r[a] == q[a - 1];
      assert b < i ==> r[b] == q[b];
      assert b > i ==> r[b] == q[b - 1];
    }
  }

  predicate Matches(t: Timer, permanent: bool, callback: nat, data: nat) {
    t.callback == callback && t.data == data && t.permanent == permanent
  }

  function FindMatch(q: seq<Timer>, permanent: bool, callback: nat, data: nat, i: nat): (r: nat)
    requires i <= |q|
    ensures i <= r <= |q| && (r < |q| ==> Matches(q[r], permanent, callback, data))
    ensures forall j :: i <= j < r ==> !Matches(q[j], permanent, callback, data)
    decreases |q| - i
  {
    if i == |q| || Matches(q[i], permanent, callback, data) then i else FindMatch(q, permanent, callback, data, i + 1)
  }

  /** What a callback may do to the queue; `time` is the clock when it registers a timer. */
  datatype Op = Add(time: nat, delay: nat, permanent: bool, callback: nat, data: nat)
              | Remove(permanent: bool, callback: nat, data: nat)

  /** `poll_callback_time` and `poll_callback_time_remove`. */
  function Apply(s: Queue, op: Op): Queue {
    match op
    case Add(time, delay, permanent, callback, data) =>
      Queue(Insert(s.timers, Timer(s.nextId, callback, data, permanent, delay, time + delay)), s.nextId + 1)
    case Remove(permanent, callback, data) =>
      var i := FindMatch(s.timers, permanent, callback, data, 0);
      if i == |s.timers| then s else s.(timers := s.timers[..i] + s.timers[i + 1..])
  }

  /** A registration puts one timer in the queue, with what it was given, under a new id, and due after
      its delay; the others keep their order, and it stands behind those that expire no later. */
  lemma AddRegisters(s: Queue, time: nat, delay: nat, permanent: bool, callback: nat, data: nat) returns (i: nat)
    ensures var r := Apply(s, Add(time, delay, permanent, callback, data));
      && i <= |s.timers| && r.nextId == s.nextId + 1
      && r.timers == s.timers[..i] + [Timer(s.nextId, callback, data, permanent, delay, time + delay)] + s.timers[i..]
      && (forall j :: 0 <= j < i ==> s.timers[j].expiry <= time + delay)
      && (i < |s.timers| ==> time + delay < s.timers[i].expiry)
  {
    i := PositionAfter(s.timers, time + delay, 0);
  }

  /** A removal takes off the first timer with this callback, data and flag, or nothing if there is
      none. */
  lemma RemoveTakesFirst(s: Queue, permanent: bool, callback: nat, data: nat) returns (i: nat)
    ensures var r := Apply(s, Remove(permanent, callback, data));
      && i <= |s.timers| && r.nextId == s.nextId
      && (forall j :: 0 <= j < i ==>
            var t := s.timers[j]; t.permanent != permanent || t.callback != callback || t.data != data)
      && if i == |s.timers| then r.timers == s.timers
         else
           && r.timers == s.timers[..i] + s.timers[i + 1..]
           && var t := s.timers[i]; t.permanent == permanent && t.callback == callback && t.data == data
  {
    i := FindMatch(s.timers, permanent, callback, data, 0);
    assert forall j :: 0 <= j < i ==> !Matches(s.timers[j], permanent, callback, data);
  }

  function ApplyAll(s: Queue, ops: seq<Op>, n: nat): Queue
    requires n <= |ops|
  {
    if n == 0 then s else Apply(ApplyAll(s, ops, n - 1), ops[n - 1])
  }

  // ----- one run -----

  /** What the callback of a firing does, and the clock after it. */
  datatype Firing = Firing(ops: seq<Op>, time: nat)

  /** The clock never reads less than when the run started, and delays are positive. */
  ghost predicate Sane(now: nat, f: Firing) {
    f.time >= now && forall i :: 0 <= i < |f.ops| ==> SaneOp(now, f.ops[i])
  }

  ghost predicate SaneOp(now: nat, op: Op) {
    op.Add? ==> op.time >= now && op.delay > 0
  }

  ghost predicate AllSane(now: nat, fire: nat -> Firing) {
    forall k :: Sane(now, fire(k))
  }

  /** Sorted, registered under different ids, with positive delays. */
  ghost predicate Valid(s: Queue) {
    && Ordered(s.timers)
    && (forall i, j :: 0 <= i < j < |s.timers| ==> s.timers[i].id != s.timers[j].id)
    && (forall i :: 0 <= i < |s.timers| ==> s.timers[i].delay > 0 && s.timers[i].id < s.nextId)
  }

  /** The timers due at `now`. */
  ghost function Due(q: seq<Timer>, now: nat): (r: seq<Timer>)
    ensures |r| <= |q|
  {
    if q == [] then []
    else
      var last := q[|q| - 1];
      Due(q[..|q| - 1], now) + if last.expiry <= now then [last] else []
  }

  lemma {:induction false} DueConcat(a: seq<Timer>, b: seq<Timer>, now: nat)
    ensures Due(a + b, now) == Due(a, now) + Due(b, now)
  {
    if b == [] {
      assert a + b == a;
    } else {
      var n := |b| - 1;
      DueConcat(a, b[..n], now);
      assert (a + b)[..|a + b| - 1] == a + b[..n];
    }
  }

  lemma DueOne(t: Timer, now: nat)
    ensures Due([t], now) == if t.expiry <= now then [t] else []
  {
    assert [t][..0] == [];
    assert Due([], now) == [];
  }

  /** The ids that an operation takes off the queue while their timers are due. */
  ghost function DueRemoved(s: Queue, op: Op, now: nat): set<nat> {
    if op.Add? then {}
    else
      var i := FindMatch(s.timers, op.permanent, op.callback, op.data, 0);
      if i < |s.timers| && s.timers[i].expiry <= now then {s.timers[i].id} else {}
  }

  ghost function AllDueRemoved(s: Queue, ops: seq<Op>, n: nat, now: nat): set<nat>
    requires n <= |ops|
  {
    if n == 0 then {} else AllDueRemoved(s, ops, n - 1, now) + DueRemoved(ApplyAll(s, ops, n - 1), ops[n - 1], now)
  }

  /** The queue after its head was fired. */
  function AfterFiring(s: Queue, f: Firing): Queue
    requires s.timers != []
  {
    var e := s.timers[0];
    var r := ApplyAll(s.(timers := s.timers[1..]), f.ops, |f.ops|);
    if e.permanent then r.(timers := Insert(r.timers, e.(expiry := f.time + e.delay))) else r
  }

  /** What a run leaves: the queue, the timers it fired in order, and the ids that were taken off
      while due. */
  datatype Ran = Ran(queue: Queue, fired: seq<Timer>, removed: set<nat>)

  // ----- operations and the timers that are due -----

  /** Some of the timers, in their order. */
  ghost function Without(q: seq<Timer>, ids: set<nat>): (r: seq<Timer>)
    ensures |r| <= |q|
  {
    if q == [] then []
    else
      var last := q[|q| - 1];
      Without(q[..|q| - 1], ids) + if last.id in ids then [] else [last]
  }

  lemma {:induction false} WithoutConcat(a: seq<Timer>, b: seq<Timer>, ids: set<nat>)
    ensures Without(a + b, ids) == Without(a, ids) + Without(b, ids)
  {
    if b == [] {
      assert a + b == a;
    } else {
      var n := |b| - 1;
      WithoutConcat(a, b[..n], ids);
      assert (a + b)[..|a + b| - 1] == a + b[..n];
    }
  }

  lemma {:induction false} WithoutNone(q: seq<Timer>, ids: set<nat>)
    requires forall t :: t in q ==> t.id !in ids
    ensures Without(q, ids) == q
  {
    if q != [] {
      var n := |q| - 1;
      WithoutNone(q[..n], ids);
      assert q[n] in q && q == q[..n] + [q[n]];
    }
  }

  lemma WithoutSnoc(q: seq<Timer>, t: Timer, ids: set<nat>)
    ensures Without(q + [t], ids) == Without(q, ids) + if t.id in ids then [] else [t]
  {
    assert (q + [t])[..|q|] == q;
  }

  lemma {:induction false} WithoutTwice(q: seq<Timer>, a: set<nat>, b: set<nat>)
    ensures Without(Without(q, a), b) == Without(q, a + b)
  {
    if q != [] {
      var n := |q| - 1;
      WithoutTwice(q[..n], a, b);
      WithoutSnoc(Without(q[..n], a), q[n], b);
      assert Without(q[..n], a) + [] == Without(q[..n], a);
      assert Without(q[..n], a + b) + [] == Without(q[..n], a + b);
    }
  }

  lemma {:induction false} WithoutAre(q: seq<Timer>, ids: set<nat>)
    ensures forall t :: t in Without(q, ids) <==> t in q && t.id !in ids
  {
    if q != [] { WithoutAre(q[..|q| - 1], ids); }
  }

  lemma {:induction false} DueAre(q: seq<Timer>, now: nat)
    ensures forall t :: t in Due(q, now) <==> t in q && t.expiry <= now
  {
    if q != [] { DueAre(q[..|q| - 1], now); }
  }

  lemma {:induction false} WithoutEmpty(q: seq<Timer>)
    ensures Without(q, {}) == q
  {
    WithoutNone(q, {});
  }

  /** Putting in a timer that is not due. */
  lemma InsertDue(q: seq<Timer>, t: Timer, now: nat)
    requires t.expiry > now
    ensures Due(Insert(q, t), now) == Due(q, now)
  {
    var i := PositionAfter(q, t.expiry, 0);
    DueConcat(q[..i] + [t], q[i..], now);
    DueConcat(q[..i], [t], now);
    DueOne(t, now);
    DueConcat(q[..i], q[i..], now);
    assert q == q[..i] + q[i..];
    assert Due(q[..i], now) + [] == Due(q[..i], now);
  }

  /** Taking out a timer. */
  lemma TakeDue(q: seq<Timer>, i: nat, now: nat)
    requires i < |q| && DifferentIds(q)
    ensures Due(q[..i] + q[i + 1..], now) == Without(Due(q, now), if q[i].expiry <= now then {q[i].id} else {})
  {
    hide Due, Without;
    var pre, x, post := q[..i], q[i], q[i + 1..];
    assert q == pre + [x] + post;
    forall t | t in pre || t in post ensures t.id != x.id {
      if t in pre {
        var k :| 0 <= k < i && q[k] == t;
      } else {
        var k :| 0 <= k < |post| && post[k] == t;
        assert q[i + 1 + k] == t;
      }
    }
    DueConcat(pre + [x], post, now);
    DueConcat(pre, [x], now);
    DueOne(x, now);
    DueConcat(pre, post, now);
    if x.expiry <= now {
      WithoutConcat(Due(pre, now) + [x], Due(post, now), {x.id});
      WithoutSnoc(Due(pre, now), x, {x.id});
      DueAre(pre, now);
      DueAre(post, now);
      WithoutNone(Due(pre, now), {x.id});
      WithoutNone(Due(post, now), {x.id});
      assert Due(pre, now) + [] == Due(pre, now);
    } else {
      assert Due(pre, now) + [] == Due(pre, now);
      WithoutEmpty(Due(q, now));
    }
  }

  /** Where the timers of a queue come from. */
  ghost predicate From(r: Queue, s: Queue) {
    s.nextId <= r.nextId && forall t :: t in r.timers ==> t in s.timers || t.id >= s.nextId
  }

  /** Every id taken off belonged to a timer that was due. */
  ghost predicate AmongDue(ids: set<nat>, q: seq<Timer>, now: nat) {
    forall id :: id in ids ==> exists t :: t in Due(q, now) && t.id == id
  }

  lemma InsertMembers(q: seq<Timer>, t: Timer, i: nat)
    requires i <= |q|
    ensures forall x :: x in q[..i] + [t] + q[i..] <==> x in q || x == t
  {
    assert q == q[..i] + q[i..];
  }

  ghost predicate DifferentIds(q: seq<Timer>) {
    forall i, j :: 0 <= i < j < |q| ==> q[i].id != q[j].id
  }

  lemma InsertIds(q: seq<Timer>, t: Timer, i: nat)
    requires DifferentIds(q) && i <= |q| && forall k :: 0 <= k < |q| ==> q[k].id != t.id
    ensures DifferentIds(q[..i] + [t] + q[i..])
  {
    var r := q[..i] + [t] + q[i..];
    forall a, b | 0 <= a < b < |r| ensures r[a].id != r[b].id {
      assert a < i ==> r[a] == q[a];
      assert a > i ==> r[a] == q[a - 1];
      assert b < i ==> r[b] == q[b];
      assert b > i ==> r[b] == q[b - 1];
    }
  }

  lemma InsertValid(s: Queue, t: Timer, next: nat)
    requires Valid(s) && t.delay > 0 && t.id < next && s.nextId <= next && forall x :: x in s.timers ==> x.id != t.id
    ensures Valid(Queue(Insert(s.timers, t), next))
    ensures forall x :: x in Insert(s.timers, t) <==> x in s.timers || x == t
  {
    hide Ordered;
    var i, q := PositionAfter(s.timers, t.expiry, 0), s.timers;
    InsertIsStable(q, t);
    InsertMembers(q, t, i);
    assert DifferentIds(q);
    InsertIds(q, t, i);
    var r := Insert(q, t);
    assert DifferentIds(r);
    forall k | 0 <= k < |r| ensures r[k].delay > 0 && r[k].id < next {
      assert r[k] in r;
    }
  }

  lemma TakeValid(s: Queue, i: nat)
    requires Valid(s) && i < |s.timers|
    ensures Valid(s.(timers := s.timers[..i] + s.timers[i + 1..]))
    ensures forall x :: x in s.timers[..i] + s.timers[i + 1..] ==> x in s.timers
  {
    var q := s.timers;
    var r := q[..i] + q[i + 1..];
    forall a, b | 0 <= a < b < |r| ensures r[a].expiry <= r[b].expiry && r[a].id != r[b].id {
      assert r[a] == if a < i then q[a] else q[a + 1];
      assert r[b] == if b < i then q[b] else q[b + 1];
    }
    forall k | 0 <= k < |r| ensures r[k].delay > 0 && r[k].id < s.nextId {
      assert r[k] == if k < i then q[k] else q[k + 1];
    }
  }

  /** One operation of a callback. */
  lemma ApplyKeeps(s: Queue, op: Op, now: nat)
    requires Valid(s) && SaneOp(now, op)
    ensures Valid(Apply(s, op)) && From(Apply(s, op), s)
    ensures Due(Apply(s, op).timers, now) == Without(Due(s.timers, now), DueRemoved(s, op, now))
    ensures AmongDue(DueRemoved(s, op, now), s.timers, now)
  {
    hide Due, Without, Valid, Insert;
    match op
    case Add(time, delay, permanent, callback, data) =>
      var t := Timer(s.nextId, callback, data, permanent, delay, time + delay);
      NewId(s);
      InsertValid(s, t, s.nextId + 1);
      InsertDue(s.timers, t, now);
      WithoutEmpty(Due(s.timers, now));
    case Remove(permanent, callback, data) =>
      var i := FindMatch(s.timers, permanent, callback, data, 0);
      if i < |s.timers| {
        ValidIds(s);
        TakeDue(s.timers, i, now);
        TakeValid(s, i);
        DueAre(s.timers, now);
        assert s.timers[i] in s.timers;
      } else {
        WithoutEmpty(Due(s.timers, now));
      }
  }

  lemma NewId(s: Queue)
    requires Valid(s)
    ensures forall x :: x in s.timers ==> x.id != s.nextId
  {
  }

  lemma ValidIds(s: Queue)
    requires Valid(s)
    ensures DifferentIds(s.timers)
  {
  }

  /** All operations of a callback. */
  lemma {:induction false} ApplyAllKeeps(s: Queue, ops: seq<Op>, n: nat, now: nat)
    requires Valid(s) && n <= |ops| && forall i :: 0 <= i < |ops| ==> SaneOp(now, ops[i])
    ensures Valid(ApplyAll(s, ops, n)) && From(ApplyAll(s, ops, n), s)
    ensures Due(ApplyAll(s, ops, n).timers, now) == Without(Due(s.timers, now), AllDueRemoved(s, ops, n, now))
    ensures AmongDue(AllDueRemoved(s, ops, n, now), s.timers, now)
  {
    hide Due, Without, Valid, Apply, DueRemoved;
    if n == 0 {
      WithoutEmpty(Due(s.timers, now));
    } else {
      ApplyAllKeeps(s, ops, n - 1, now);
      var m := ApplyAll(s, ops, n - 1);
      ApplyKeeps(m, ops[n - 1], now);
      var a, b := AllDueRemoved(s, ops, n - 1, now), DueRemoved(m, ops[n - 1], now);
      WithoutTwice(Due(s.timers, now), a, b);
      WithoutAre(Due(s.timers, now), a);
    }
  }

  /** Firing the head of the queue. */
  lemma FiringKeeps(s: Queue, f: Firing, now: nat)
    requires Valid(s) && s.timers != [] && s.timers[0].expiry <= now && Sane(now, f)
    ensures var rest := s.(timers := s.timers[1..]);
      var gone := AllDueRemoved(rest, f.ops, |f.ops|, now);
      && Valid(AfterFiring(s, f))
      && Due(s.timers, now) == [s.timers[0]] + Due(rest.timers, now)
      && Due(AfterFiring(s, f).timers, now) == Without(Due(rest.timers, now), gone)
      && AmongDue(gone, rest.timers, now)
  {
    hide Due, Without, Apply, AllDueRemoved, Ordered;
    var e, rest := s.timers[0], s.(timers := s.timers[1..]);
    assert s.timers == [e] + rest.timers;
    DueConcat([e], rest.timers, now);
    DueOne(e, now);
    RestValid(s);
    ApplyAllKeeps(rest, f.ops, |f.ops|, now);
    var r := ApplyAll(rest, f.ops, |f.ops|);
    if e.permanent {
      var again := e.(expiry := f.time + e.delay);
      forall x | x in r.timers ensures x.id != again.id {
        if x in rest.timers {
          var i :| 0 <= i < |rest.timers| && rest.timers[i] == x;
          assert s.timers[i + 1] == x;
        }
      }
      InsertValid(r, again, r.nextId);
      InsertDue(r.timers, again, now);
    }
  }

  lemma RestValid(s: Queue)
    requires Valid(s) && s.timers != []
    ensures Valid(s.(timers := s.timers[1..]))
  {
  }

  /** `poll_run_time_queue` from its `k`th firing on: it ends, because every firing leaves fewer
      timers due. */
  ghost function RunFrom(s: Queue, now: nat, fire: nat -> Firing, k: nat): Ran
    requires Valid(s) && AllSane(now, fire)
    decreases |Due(s.timers, now)|
  {
    if s.timers == [] || s.timers[0].expiry > now then Ran(s, [], {})
    else
      assert Sane(now, fire(k));
      FiringKeeps(s, fire(k), now);
      var r := RunFrom(AfterFiring(s, fire(k)), now, fire, k + 1);
      var rest := s.(timers := s.timers[1..]);
      Ran(r.queue, [s.timers[0]] + r.fired, AllDueRemoved(rest, fire(k).ops, |fire(k).ops|, now) + r.removed)
  }

  /** One run fires the timers that were due when it started, each exactly once and in order,
      except those that a callback took off while they were due; what it leaves is sorted and
      expires later. */
  lemma {:induction false} RunFires(s: Queue, now: nat, fire: nat -> Firing, k: nat)
    requires Valid(s) && AllSane(now, fire)
    ensures var r := RunFrom(s, now, fire, k);
      && r.fired == Without(Due(s.timers, now), r.removed)
      && AmongDue(r.removed, s.timers, now)
      && Valid(r.queue) && forall i :: 0 <= i < |r.queue.timers| ==> r.queue.timers[i].expiry > now
    decreases |Due(s.timers, now)|
  {
    hide Due, Without, AllDueRemoved, AfterFiring;
    if s.timers == [] || s.timers[0].expiry > now {
      NothingDue(s.timers, now);
    } else {
      var f, e, rest := fire(k), s.timers[0], s.(timers := s.timers[1..]);
      assert Sane(now, f);
      FiringKeeps(s, f, now);
      var next := AfterFiring(s, f);
      RunFires(next, now, fire, k + 1);
      var gone, r := AllDueRemoved(rest, f.ops, |f.ops|, now), RunFrom(next, now, fire, k + 1);
      FiredOnce(s, e, rest, now, gone, r.removed);
    }
  }

  lemma NothingDue(q: seq<Timer>, now: nat)
    requires Ordered(q) && (q == [] || q[0].expiry > now)
    ensures Due(q, now) == [] && Without([], {}) == []
  {
    DueAre(q, now);
    assert forall t :: t in q ==> t.expiry > now;
    assert |Due(q, now)| > 0 ==> Due(q, now)[0] in Due(q, now);
  }

  /** The head comes first, and no callback can take it off any more. */
  lemma FiredOnce(s: Queue, e: Timer, rest: Queue, now: nat, gone: set<nat>, later: set<nat>)
    requires Valid(s) && s.timers != [] && e == s.timers[0] && rest.timers == s.timers[1..]
    requires Due(s.timers, now) == [e] + Due(rest.timers, now)
    requires AmongDue(gone, rest.timers, now)
    requires forall id :: id in later ==> exists t :: t in Without(Due(rest.timers, now), gone) && t.id == id
    ensures [e] + Without(Without(Due(rest.timers, now), gone), later) == Without(Due(s.timers, now), gone + later)
    ensures AmongDue(gone + later, s.timers, now)
  {
    hide Due, Without, Valid;
    var d := Due(rest.timers, now);
    DueAre(rest.timers, now);
    WithoutAre(d, gone);
    forall t | t in d ensures t.id != e.id {
      HeadDiffers(s, t);
    }
    WithoutTwice(d, gone, later);
    WithoutConcat([e], d, gone + later);
    WithoutNone([e], gone + later);
    assert forall t :: t in d ==> t in Due(s.timers, now);
  }

  lemma HeadDiffers(s: Queue, t: Timer)
    requires Valid(s) && s.timers != [] && t in s.timers[1..]
    ensures t.id != s.timers[0].id
  {
  }

  // ----- over many runs -----

  /** A fired timer is put back, due after its delay from the end of its callback, if it repeats, and
      is gone if it does not. */
  lemma FiredComesBack(s: Queue, f: Firing)
    requires Valid(s) && s.timers != [] && Sane(0, f)
    ensures var e, r := s.timers[0], AfterFiring(s, f);
      if e.permanent then e.(expiry := f.time + e.delay) in r.timers else forall t :: t in r.timers ==> t.id != e.id
  {
    hide Insert, ApplyAll, Due, Without, AllDueRemoved, Ordered;
    var e, rest := s.timers[0], s.(timers := s.timers[1..]);
    RestValid(s);
    ApplyAllKeeps(rest, f.ops, |f.ops|, 0);
    var r := ApplyAll(rest, f.ops, |f.ops|);
    if e.permanent {
      InsertHas(r.timers, e.(expiry := f.time + e.delay));
    } else {
      forall t | t in r.timers ensures t.id != e.id {
        if t in rest.timers { HeadDiffers(s, t); }
      }
    }
  }

  lemma InsertHas(q: seq<Timer>, t: Timer)
    ensures forall x :: x in Insert(q, t) <==> x in q || x == t
  {
    InsertMembers(q, t, PositionAfter(q, t.expiry, 0));
  }

  ghost function Ids(q: seq<Timer>): set<nat> {
    set t | t in q :: t.id
  }

  /** The ids that the first `n` operations take off the queue. */
  ghost function Taken(s: Queue, ops: seq<Op>, n: nat): set<nat>
    requires n <= |ops|
  {
    if n == 0 then {}
    else Taken(s, ops, n - 1) + (Ids(ApplyAll(s, ops, n - 1).timers) - Ids(ApplyAll(s, ops, n).timers))
  }

  /** The ids that callbacks take off the queue during a run, from its `k`th firing on. */
  ghost function RunTaken(s: Queue, now: nat, fire: nat -> Firing, k: nat): set<nat>
    requires Valid(s) && AllSane(now, fire)
    decreases |Due(s.timers, now)|
  {
    if s.timers == [] || s.timers[0].expiry > now then {}
    else
      assert Sane(now, fire(k));
      FiringKeeps(s, fire(k), now);
      Taken(s.(timers := s.timers[1..]), fire(k).ops, |fire(k).ops|) + RunTaken(AfterFiring(s, fire(k)), now, fire, k + 1)
  }

  lemma {:induction false} TakenOrStays(s: Queue, ops: seq<Op>, n: nat, now: nat, t: Timer)
    requires Valid(s) && n <= |ops| && (forall i :: 0 <= i < |ops| ==> SaneOp(now, ops[i])) && t in s.timers
    ensures t in ApplyAll(s, ops, n).timers || t.id in Taken(s, ops, n)
  {
    hide Valid, Apply, Due, Without, DueRemoved;
    if n > 0 {
      TakenOrStays(s, ops, n - 1, now, t);
      ApplyAllKeeps(s, ops, n - 1, now);
      var m, r := ApplyAll(s, ops, n - 1), ApplyAll(s, ops, n);
      ApplyKeeps(m, ops[n - 1], now);
      if t in m.timers && t.id in Ids(r.timers) {
        var x :| x in r.timers && x.id == t.id;
        SameTimer(m, x, t);
      }
    }
  }

  lemma SameTimer(s: Queue, x: Timer, t: Timer)
    requires Valid(s) && t in s.timers && x.id == t.id && (x in s.timers || x.id >= s.nextId)
    ensures x == t
  {
  }

  /** In a run every timer is fired, or taken off, or still there when it ends. */
  lemma {:induction false} RunAccounts(s: Queue, now: nat, fire: nat -> Firing, k: nat, t: Timer)
    requires Valid(s) && AllSane(now, fire) && t in s.timers
    ensures var r := RunFrom(s, now, fire, k);
      t in r.fired || t.id in RunTaken(s, now, fire, k) || t in r.queue.timers
    decreases |Due(s.timers, now)|
  {
    hide Due, Without, AllDueRemoved, Valid, ApplyAll, Insert;
    if s.timers != [] && s.timers[0].expiry <= now {
      var f, rest := fire(k), s.(timers := s.timers[1..]);
      assert Sane(now, f);
      FiringKeeps(s, f, now);
      if t != s.timers[0] {
        RestValid(s);
        assert t in rest.timers;
        TakenOrStays(rest, f.ops, |f.ops|, now, t);
        var r := ApplyAll(rest, f.ops, |f.ops|);
        InsertHas(r.timers, s.timers[0].(expiry := f.time + s.timers[0].delay));
        if t in r.timers {
          RunAccounts(AfterFiring(s, f), now, fire, k + 1, t);
        }
      }
    }
  }

  /** No run fires a timer that is not due. */
  lemma NotFiredEarly(s: Queue, now: nat, fire: nat -> Firing, t: Timer)
    requires Valid(s) && AllSane(now, fire) && t in s.timers && now < t.expiry
    ensures forall x :: x in RunFrom(s, now, fire, 0).fired ==> x.id != t.id
  {
    hide Due, Without, Valid, RunFrom;
    RunFires(s, now, fire, 0);
    var r := RunFrom(s, now, fire, 0);
    WithoutAre(Due(s.timers, now), r.removed);
    DueAre(s.timers, now);
    forall x | x in r.fired ensures x.id != t.id {
      if x.id == t.id { SameTimer(s, x, t); }
    }
  }

  /** What happens to the queue: an operation from outside, or a run at `now`. */
  datatype Event = Do(op: Op) | Turn(now: nat, fire: nat -> Firing)

  ghost predicate SaneEvent(e: Event) {
    match e
    case Do(op) => SaneOp(0, op)
    case Turn(now, fire) => AllSane(now, fire)
  }

  ghost predicate SaneEvents(es: seq<Event>) {
    forall k :: 0 <= k < |es| ==> SaneEvent(es[k])
  }

  ghost function Next(s: Queue, e: Event): (r: Queue)
    requires Valid(s) && SaneEvent(e)
    ensures Valid(r)
  {
    match e
    case Do(op) => ApplyKeeps(s, op, 0); Apply(s, op)
    case Turn(now, fire) => RunFires(s, now, fire, 0); RunFrom(s, now, fire, 0).queue
  }

  ghost function FiredBy(s: Queue, e: Event): seq<Timer>
    requires Valid(s) && SaneEvent(e)
  {
    match e
    case Do(op) => []
    case Turn(now, fire) => RunFrom(s, now, fire, 0).fired
  }

  /** The ids that are taken off by removals. */
  ghost function TakenBy(s: Queue, e: Event): set<nat>
    requires Valid(s) && SaneEvent(e)
  {
    match e
    case Do(op) => Taken(s, [op], 1)
    case Turn(now, fire) => RunTaken(s, now, fire, 0)
  }

  /** The queue after the first `n` events. */
  ghost function After(s: Queue, es: seq<Event>, n: nat): (r: Queue)
    requires Valid(s) && SaneEvents(es) && n <= |es|
    ensures Valid(r)
  {
    if n == 0 then s else Next(After(s, es, n - 1), es[n - 1])
  }

  /** A timer that is not due and not taken off stays, and does not fire. */
  lemma Waits(s: Queue, e: Event, t: Timer)
    requires Valid(s) && SaneEvent(e) && t in s.timers && t.id !in TakenBy(s, e) && (e.Turn? ==> e.now < t.expiry)
    ensures t in Next(s, e).timers && forall x :: x in FiredBy(s, e) ==> x.id != t.id
  {
    hide Valid, Apply, RunFrom, RunTaken;
    match e
    case Do(op) =>
      assert ApplyAll(s, [op], 0) == s && ApplyAll(s, [op], 1) == Apply(s, op);
      TakenOrStays(s, [op], 1, 0, t);
    case Turn(now, fire) =>
      NotFiredEarly(s, now, fire, t);
      RunAccounts(s, now, fire, 0, t);
  }

  /** Event `k` neither takes the timer off nor is a run at or after its expiry. */
  ghost predicate LeavesWaiting(s: Queue, es: seq<Event>, k: nat, t: Timer)
    requires Valid(s) && SaneEvents(es) && k < |es|
  {
    t.id !in TakenBy(After(s, es, k), es[k]) && (es[k].Turn? ==> es[k].now < t.expiry)
  }

  /** Event `k` is a run that fires a timer with this id. */
  ghost predicate Fires(s: Queue, es: seq<Event>, k: nat, id: nat)
    requires Valid(s) && SaneEvents(es) && k < |es|
  {
    exists x :: x in FiredBy(After(s, es, k), es[k]) && x.id == id
  }

  lemma {:induction false} WaitsUntil(s: Queue, es: seq<Event>, m: nat, n: nat, t: Timer)
    requires Valid(s) && SaneEvents(es) && m <= n <= |es| && t in After(s, es, m).timers
    requires forall k :: m <= k < n ==> LeavesWaiting(s, es, k, t)
    ensures t in After(s, es, n).timers && forall k :: m <= k < n ==> !Fires(s, es, k, t.id)
  {
    hide Valid, Next, FiredBy, TakenBy, LeavesWaiting, Fires, SaneEvent;
    if m < n {
      WaitsUntil(s, es, m, n - 1, t);
      assert LeavesWaiting(s, es, n - 1, t);
      WaitsOne(s, es, n - 1, t);
    }
  }

  lemma WaitsOne(s: Queue, es: seq<Event>, k: nat, t: Timer)
    requires Valid(s) && SaneEvents(es) && k < |es| && t in After(s, es, k).timers && LeavesWaiting(s, es, k, t)
    ensures t in After(s, es, k + 1).timers && !Fires(s, es, k, t.id)
  {
    hide Valid, Next, FiredBy, TakenBy;
    Waits(After(s, es, k), es[k], t);
  }

  /** The timer that event `m` registers: due after its delay. */
  ghost function RegisteredBy(s: Queue, es: seq<Event>, m: nat): Timer
    requires Valid(s) && SaneEvents(es) && m < |es| && es[m].Do? && es[m].op.Add?
  {
    var op := es[m].op;
    Timer(After(s, es, m).nextId, op.callback, op.data, op.permanent, op.delay, op.time + op.delay)
  }

  lemma Registered(s: Queue, es: seq<Event>, m: nat)
    requires Valid(s) && SaneEvents(es) && m < |es| && es[m].Do? && es[m].op.Add?
    ensures RegisteredBy(s, es, m) in After(s, es, m + 1).timers
  {
    hide Valid, Apply;
    var was, op := After(s, es, m), es[m].op;
    var i := AddRegisters(was, op.time, op.delay, op.permanent, op.callback, op.data);
    InsertMembers(was.timers, RegisteredBy(s, es, m), i);
    assert After(s, es, m + 1) == Next(was, es[m]);
  }

  /** A registered timer fires in the first run at or after the time of its registration plus its delay,
      and in none before, unless it is taken off. */
  lemma FiresOnTime(s: Queue, es: seq<Event>, m: nat, n: nat)
    requires Valid(s) && SaneEvents(es) && m < n < |es| && es[m].Do? && es[m].op.Add?
    requires forall k :: m < k < n ==> LeavesWaiting(s, es, k, RegisteredBy(s, es, m))
    requires es[n].Turn? && es[n].now >= es[m].op.time + es[m].op.delay
    requires RegisteredBy(s, es, m).id !in TakenBy(After(s, es, n), es[n])
    ensures RegisteredBy(s, es, m) in FiredBy(After(s, es, n), es[n])
    ensures forall k :: m < k < n ==> !Fires(s, es, k, RegisteredBy(s, es, m).id)
  {
    hide Valid, FiredBy, TakenBy, After, SaneEvent, LeavesWaiting, Fires;
    var t := RegisteredBy(s, es, m);
    Registered(s, es, m);
    WaitsUntil(s, es, m + 1, n, t);
    SaneAt(es, n);
    DueFires(After(s, es, n), es[n], t);
  }

  lemma SaneAt(es: seq<Event>, n: nat)
    requires SaneEvents(es) && n < |es|
    ensures SaneEvent(es[n])
  {
  }

  lemma DueFires(s: Queue, e: Event, t: Timer)
    requires Valid(s) && SaneEvent(e) && e.Turn? && t in s.timers && e.now >= t.expiry && t.id !in TakenBy(s, e)
    ensures t in FiredBy(s, e)
  {
    hide Valid, RunFrom, RunTaken;
    RunAccounts(s, e.now, e.fire, 0, t);
    RunFires(s, e.now, e.fire, 0);
  }

  /** A callback cannot stop its own repetition: its timer is off the queue while it fires, so the
      removal finds nothing, or another timer like it, and the timer is put back. */
  lemma SelfRemovalMisses(s: Queue, time: nat)
    requires Valid(s) && s.timers != [] && s.timers[0].permanent
    ensures var e := s.timers[0];
      var again := e.(expiry := time + e.delay);
      var r := AfterFiring(s, Firing([Remove(true, e.callback, e.data)], time));
      again in r.timers && |r.timers| == |s.timers| - if SomeOther(s) then 1 else 0
  {
    var e := s.timers[0];
    var rest, op := s.(timers := s.timers[1..]), Remove(true, e.callback, e.data);
    assert ApplyAll(rest, [op], 0) == rest;
    var r := ApplyAll(rest, [op], 1);
    InsertMembers(r.timers, e.(expiry := time + e.delay), PositionAfter(r.timers, time + e.delay, 0));
  }

  /** Another timer that the head's own removal would match. */
  predicate SomeOther(s: Queue)
    requires s.timers != []
  {
    var e := s.timers[0];
    FindMatch(s.timers[1..], true, e.callback, e.data, 0) < |s.timers| - 1
  }
}
