/**
 The chain of filter headers that `peergroup_handle_cfheaders` of core/peergroup.c builds in the
 store of core/cfheader-store.c: every header commits to its filter hash and the header before
 it, across batches, peers and restarts.
 */
module FilterHeaderChain {
  import opened Bytes
  import opened Outcomes
  import opened CfHeaderStore

  function Zeros(n: nat): (z: seq<byte>)
    ensures |z| == n && forall i :: 0 <= i < n ==> z[i] == 0
  {
    if n == 0 then [] else [0] + Zeros(n - 1)
  }

  const Zero: Bytes32 := Zeros(32)

  /** `hash256` of two hashes, one after the other; kept abstract. */
  type Combine = (Bytes32, Bytes32) -> Bytes32

  /** The store and `cfhdrPrevHeader`. */
  datatype Sync = Sync(store: Store, prev: Bytes32)

  /** What a sync that starts, or starts again, takes as the previous header. */
  function Begin(store: Store): Sync {
    var tip := Tip(store);
    var e := Find(store, tip);
    Sync(store, if tip >= 0 && e.Some? then e.value.header else Zero)
  }

  /** How many bytes of the record and of the file header reach the file in each append of a batch. */
  type Writes = nat -> (nat, nat)

  /** The append loop so far: the store, the header that comes next in the chain, and whether every
      append succeeded. */
  datatype Progress = Progress(store: Store, prev: Bytes32, ok: bool)

  function Next(combine: Combine, height: int32, hash: Bytes32, prev: Bytes32): Entry {
    Entry(height, combine(hash, prev), hash)
  }

  ghost function AppendNext(combine: Combine, at: Progress, height: int32, hash: Bytes32, w: (nat, nat)): (r: Progress)
    requires Valid(at.store) && |at.store.entries| + 1 < 0x8000_0000
    ensures Valid(r.store) && |r.store.entries| <= |at.store.entries| + 1
  {
    var e := Next(combine, height, hash, at.prev);
    AppendKeeps(at.store, e, w.0, w.1);
    var a := Append(at.store, e, w.0, w.1);
    Progress(a.0, if a.1 then e.header else at.prev, a.1)
  }

  /** The batch is one that the store can take: heights stay within an int. */
  ghost predicate Fits(store: Store, hashes: seq<Bytes32>) {
    && Valid(store) && 0 <= Tip(store) + 1 && Tip(store) + 1 + |hashes| < 0x8000_0000
    && |store.entries| + |hashes| < 0x8000_0000
  }

  /** The append loop over the first `n` hashes; it ends at the first append that fails. */
  ghost function AppendAll(combine: Combine, store: Store, prev: Bytes32, hashes: seq<Bytes32>, n: nat, ws: Writes): (r: Progress)
    requires Fits(store, hashes) && n <= |hashes|
    ensures Valid(r.store) && |r.store.entries| <= |store.entries| + n
  {
    if n == 0 then Progress(store, prev, true)
    else
      var r := AppendAll(combine, store, prev, hashes, n - 1, ws);
      if r.ok then AppendNext(combine, r, Tip(store) + n, hashes[n - 1], ws(n - 1)) else r
  }

  /** The batch does not continue what the sync knows. */
  predicate Refused(s: Sync, prevFilterHeader: Bytes32) {
    s.prev != Zero && prevFilterHeader != s.prev
  }

  /** `peergroup_handle_cfheaders`: the new state, and whether the peer is kept. What was appended
      before a failure stays, but the previous header is only updated at the end. */
  ghost function HandleHeaders(combine: Combine, s: Sync, prevFilterHeader: Bytes32, hashes: seq<Bytes32>, ws: Writes): (r: (Sync, bool))
    requires Fits(s.store, hashes)
    ensures Valid(r.0.store)
  {
    if Refused(s, prevFilterHeader) then (s, false)
    else
      var r := AppendAll(combine, s.store, prevFilterHeader, hashes, |hashes|, ws);
      (Sync(r.store, if r.ok then r.prev else s.prev), r.ok)
  }

  // ----- the invariant -----

  /** Each header is the hash of its filter hash and the header before it. */
  ghost predicate Linked(combine: Combine, es: seq<Entry>) {
    forall i, j :: 0 <= i < j <= i + 1 && j < |es| ==> es[j].header == combine(es[j].hash, es[i].header)
  }

  ghost predicate NoZero(es: seq<Entry>) {
    forall i :: 0 <= i < |es| ==> es[i].header != Zero
  }

  ghost predicate FromGenesis(s: Store) {
    if s.entries == [] then s.base <= 0 else s.entries[0].height == 0
  }

  ghost predicate Chained(combine: Combine, s: Sync) {
    && Valid(s.store) && FromGenesis(s.store) && Linked(combine, s.store.entries) && NoZero(s.store.entries)
    && (s.store.entries != [] ==> s.prev == s.store.entries[|s.store.entries| - 1].header)
  }

  ghost predicate NeverZero(combine: Combine) {
    forall a, b :: combine(a, b) != Zero
  }

  function LastHeader(prev: Bytes32, es: seq<Entry>): Bytes32 {
    if es == [] then prev else es[|es| - 1].header
  }

  /** The new headers, each computed from the one before it. */
  ghost function NewEntries(combine: Combine, start: nat, prev: Bytes32, hashes: seq<Bytes32>, n: nat): (es: seq<Entry>)
    requires n <= |hashes| && start + |hashes| < 0x8000_0000
    ensures |es| == n && forall i :: 0 <= i < n ==> es[i].hash == hashes[i] && es[i].height == start + i
    ensures Linked(combine, es) && (n > 0 ==> es[0].header == combine(hashes[0], prev))
    ensures NeverZero(combine) ==> NoZero(es)
  {
    if n == 0 then []
    else
      var es := NewEntries(combine, start, prev, hashes, n - 1);
      es + [Next(combine, start + n - 1, hashes[n - 1], LastHeader(prev, es))]
  }

  /** How many of the first `n` appends add an entry, and whether all of them succeed: one whose file
      header is cut short adds its entry and fails. */
  function Added(size: nat, ws: Writes, n: nat): (r: (nat, bool))
    ensures r.0 <= n && (r.1 ==> r.0 == n)
  {
    if n == 0 then (0, true)
    else
      var r := Added(size, ws, n - 1);
      if !r.1 then r
      else if ws(n - 1).0 < RECORD then (n - 1, false)
      else (n, ws(n - 1).1 >= size)
  }

  /** Both writes of an append reach the file whole. */
  ghost predicate Whole(size: nat, w: (nat, nat)) {
    w.0 >= 68 && w.1 >= size
  }

  /** All appends succeed exactly if all their writes are whole; else the first one that fails is the
      last one tried, and adds its entry exactly if its record was written. */
  lemma {:induction false} AddedExact(size: nat, ws: Writes, n: nat)
    ensures var r := Added(size, ws, n);
      && (r.1 <==> forall i :: 0 <= i < n ==> Whole(size, ws(i)))
      && (r.1 ==> r.0 == n)
      && (!r.1 ==> exists f :: 0 <= f < n && (forall i :: 0 <= i < f ==> Whole(size, ws(i))) && !Whole(size, ws(f))
                               && r.0 == if ws(f).0 < 68 then f else f + 1)
  {
    if n > 0 {
      AddedExact(size, ws, n - 1);
      var r := Added(size, ws, n - 1);
      if !r.1 {
        var f :| 0 <= f < n - 1 && (forall i :: 0 <= i < f ==> Whole(size, ws(i))) && !Whole(size, ws(f))
                 && r.0 == if ws(f).0 < 68 then f else f + 1;
      } else if !Whole(size, ws(n - 1)) {
        assert 0 <= n - 1 < n && (forall i :: 0 <= i < n - 1 ==> Whole(size, ws(i)));
      }
    }
  }

  /** The loop adds that many of the new headers, in order. */
  lemma {:induction false} AppendAllIs(combine: Combine, store: Store, prev: Bytes32, hashes: seq<Bytes32>, n: nat, ws: Writes)
    requires Fits(store, hashes) && FromGenesis(store) && n <= |hashes|
    ensures var r, a := AppendAll(combine, store, prev, hashes, n, ws), Added(store.size, ws, n);
      var es := NewEntries(combine, Tip(store) + 1, prev, hashes, a.0);
      && r.store.size == store.size && r.ok == a.1 && r.store.entries == store.entries + es && FromGenesis(r.store)
      && (r.ok ==> r.prev == LastHeader(prev, es))
  {
    hide AppendAll, Added, AppendNext, Valid, Linked, NeverZero, NoZero, FromGenesis, Fits, Tip, NewEntries;
    FitsTip(store, hashes);
    if n == 0 {
      LoopStart(combine, store, prev, hashes, ws);
    } else {
      AppendAllIs(combine, store, prev, hashes, n - 1, ws);
      LoopNext(combine, store, prev, hashes, n, ws);
      AddedNext(store.size, ws, n);
      var at, start := AppendAll(combine, store, prev, hashes, n - 1, ws), Tip(store) + 1;
      if at.ok {
        NewEntriesNext(combine, start, prev, hashes, n);
        GenesisTip(store);
        OneMore(combine, at, start + n - 1, hashes[n - 1], ws(n - 1));
        Regroup(store.entries, NewEntries(combine, start, prev, hashes, n - 1),
                Next(combine, start + n - 1, hashes[n - 1], at.prev));
      }
    }
  }

  lemma LoopStart(combine: Combine, store: Store, prev: Bytes32, hashes: seq<Bytes32>, ws: Writes)
    requires Fits(store, hashes)
    ensures AppendAll(combine, store, prev, hashes, 0, ws) == Progress(store, prev, true) && Added(store.size, ws, 0) == (0, true)
    ensures store.entries + NewEntries(combine, Tip(store) + 1, prev, hashes, 0) == store.entries
    ensures LastHeader(prev, NewEntries(combine, Tip(store) + 1, prev, hashes, 0)) == prev
  {
  }

  lemma LoopNext(combine: Combine, store: Store, prev: Bytes32, hashes: seq<Bytes32>, n: nat, ws: Writes)
    requires Fits(store, hashes) && 0 < n <= |hashes|
    ensures var at := AppendAll(combine, store, prev, hashes, n - 1, ws);
      AppendAll(combine, store, prev, hashes, n, ws) ==
        if at.ok then AppendNext(combine, at, Tip(store) + n, hashes[n - 1], ws(n - 1)) else at
  {
    hide AppendNext, Valid, Tip;
  }

  lemma AddedNext(size: nat, ws: Writes, n: nat)
    requires 0 < n
    ensures var a, w := Added(size, ws, n - 1), ws(n - 1);
      Added(size, ws, n) == if !a.1 then a else if w.0 < RECORD then (n - 1, false) else (n, w.1 >= size)
  {
  }

  lemma Regroup(a: seq<Entry>, b: seq<Entry>, e: Entry)
    ensures a + (b + [e]) == a + b + [e]
  {
  }

  lemma NewEntriesNext(combine: Combine, start: nat, prev: Bytes32, hashes: seq<Bytes32>, n: nat)
    requires 0 < n <= |hashes| && start + |hashes| < 0x8000_0000
    ensures var es := NewEntries(combine, start, prev, hashes, n - 1);
      var e := Next(combine, start + n - 1, hashes[n - 1], LastHeader(prev, es));
      && NewEntries(combine, start, prev, hashes, n) == es + [e]
      && LastHeader(prev, NewEntries(combine, start, prev, hashes, n)) == e.header
  {
  }

  lemma FitsTip(store: Store, hashes: seq<Bytes32>)
    requires Fits(store, hashes)
    ensures Valid(store) && 0 <= Tip(store) + 1 && Tip(store) + 1 + |hashes| < 0x8000_0000
    ensures |store.entries| + |hashes| < 0x8000_0000
  {
  }

  lemma OneMore(combine: Combine, at: Progress, height: int32, hash: Bytes32, w: (nat, nat))
    requires Valid(at.store) && FromGenesis(at.store) && |at.store.entries| + 1 < 0x8000_0000 && height == |at.store.entries|
    ensures var r, e := AppendNext(combine, at, height, hash, w), Next(combine, height, hash, at.prev);
      && r.store.size == at.store.size && FromGenesis(r.store)
      && r.store.entries == (if w.0 >= RECORD then at.store.entries + [e] else at.store.entries)
      && (r.ok <==> w.0 >= RECORD && w.1 >= at.store.size) && (r.ok ==> r.prev == e.header)
  {
    hide Valid, Record, HeaderBytes;
    GenesisTip(at.store);
    var e := Next(combine, height, hash, at.prev);
    ValidBase(at.store);
    AppendKeeps(at.store, e, w.0, w.1);
    var r := AppendNext(combine, at, height, hash, w);
    assert r.store.entries != [] ==> r.store.entries[0] == if at.store.entries == [] then e else at.store.entries[0];
  }

  lemma GenesisTip(s: Store)
    requires Valid(s) && FromGenesis(s)
    ensures Tip(s) == |s.entries| - 1 && (s.entries == [] ==> s.base == 0 || s.base == -1)
  {
    hide Valid;
    ValidBase(s);
  }

  lemma ValidBase(s: Store)
    requires Valid(s)
    ensures Sound(s) && s.base == BaseOf(s.size, s.entries) && s.size <= V2_SIZE
    ensures s.entries != [] ==> Tip(s) == s.entries[0].height + |s.entries| - 1
  {
  }

  /** A batch is refused, with nothing changed, if it does not continue the known header; with a
      stored tip that is exactly if it does not continue the tip. Else it appends its hashes up to
      the first failure, each header computed from the one before, and keeps the chain exactly if
      no append failed, or none added anything, or the new tip happens to have the old header. */
  lemma HandleKeeps(combine: Combine, s: Sync, prevFilterHeader: Bytes32, hashes: seq<Bytes32>, ws: Writes)
    requires Chained(combine, s) && NeverZero(combine) && Fits(s.store, hashes)
    ensures var r, a := HandleHeaders(combine, s, prevFilterHeader, hashes, ws), Added(s.store.size, ws, |hashes|);
      && (Refused(s, prevFilterHeader) ==> r == (s, false))
      && (Refused(s, prevFilterHeader) <==> s.prev != Zero && prevFilterHeader != s.prev)
      && (s.store.entries != [] ==>
            (Refused(s, prevFilterHeader) <==> prevFilterHeader != s.store.entries[|s.store.entries| - 1].header))
      && (!Refused(s, prevFilterHeader) ==>
            && r.1 == a.1
            && r.0.store.entries == s.store.entries + NewEntries(combine, Tip(s.store) + 1, prevFilterHeader, hashes, a.0)
            && (Chained(combine, r.0) <==>
                  a.1 || a.0 == 0 || r.0.store.entries[|r.0.store.entries| - 1].header == s.prev))
  {
    hide Chained, AppendAll, NeverZero, Valid, NewEntries, Added;
    if s.store.entries != [] { ChainedTip(combine, s); }
    if !Refused(s, prevFilterHeader) {
      TakenKeeps(combine, s, prevFilterHeader, hashes, ws);
    }
  }

  lemma ChainedTip(combine: Combine, s: Sync)
    requires Chained(combine, s) && s.store.entries != []
    ensures s.prev == s.store.entries[|s.store.entries| - 1].header != Zero
  {
  }

  /** A batch that continues the tip, or starts the chain. */
  lemma TakenKeeps(combine: Combine, s: Sync, prev: Bytes32, hashes: seq<Bytes32>, ws: Writes)
    requires Chained(combine, s) && NeverZero(combine) && Fits(s.store, hashes) && (s.store.entries != [] ==> prev == s.prev)
    ensures var r, a := AppendAll(combine, s.store, prev, hashes, |hashes|, ws), Added(s.store.size, ws, |hashes|);
      && r.ok == a.1
      && r.store.entries == s.store.entries + NewEntries(combine, Tip(s.store) + 1, prev, hashes, a.0)
      && (a.1 ==> Chained(combine, Sync(r.store, r.prev)))
      && (!a.1 ==> (Chained(combine, Sync(r.store, s.prev)) <==>
                      a.0 == 0 || r.store.entries[|r.store.entries| - 1].header == s.prev))
  {
    hide Valid, AppendAll, NeverZero, Linked, NoZero, FromGenesis, Tip, Added;
    AppendAllIs(combine, s.store, prev, hashes, |hashes|, ws);
    var es := NewEntries(combine, Tip(s.store) + 1, prev, hashes, Added(s.store.size, ws, |hashes|).0);
    LinkedConcat(combine, s.store.entries, es, prev);
  }

  lemma LinkedConcat(combine: Combine, a: seq<Entry>, b: seq<Entry>, prev: Bytes32)
    requires Linked(combine, a) && Linked(combine, b) && (a != [] ==> prev == a[|a| - 1].header)
    requires b != [] ==> b[0].header == combine(b[0].hash, prev)
    requires NoZero(a) && NoZero(b)
    ensures Linked(combine, a + b) && NoZero(a + b)
  {
  }

  // ----- runs -----

  datatype Event = Batch(prevFilterHeader: Bytes32, hashes: seq<Bytes32>, ws: Writes) | Restart(len: nat)

  /** A batch from some peer, or a restart after the file lost everything from some byte on. */
  ghost function Step(combine: Combine, s: Sync, ev: Event): (r: Sync)
    requires Valid(s.store) && |s.store.entries| + 1 < 0x8000_0000 && (ev.Batch? ==> Fits(s.store, ev.hashes))
    ensures Valid(r.store)
  {
    match ev
    case Batch(prevFilterHeader, hashes, ws) => HandleHeaders(combine, s, prevFilterHeader, hashes, ws).0
    case Restart(len) =>
      RestartValid(s.store, len);
      Begin(CfHeaderStore.Step(s.store, Restarts(len)))
  }

  lemma RestartValid(store: Store, len: nat)
    requires Valid(store) && |store.entries| + 1 < 0x8000_0000
    ensures Valid(CfHeaderStore.Step(store, Restarts(len)))
  {
    StepKeeps(store, Restarts(len));
  }

  lemma RestartKeeps(combine: Combine, s: Sync, len: nat)
    requires Chained(combine, s) && |s.store.entries| + 1 < 0x8000_0000
    ensures Chained(combine, Begin(CfHeaderStore.Step(s.store, Restarts(len))))
  {
    hide Valid, Append, Sound, Flushed, CfHeaderStore.Step, Surviving, Linked, NoZero;
    ValidBase(s.store);
    StepKeeps(s.store, Restarts(len));
    var r := CfHeaderStore.Step(s.store, Restarts(len));
    ValidBase(r);
    PrefixLinked(combine, s.store.entries, Surviving(s.store, len));
    if r.entries != [] {
      FindExact(r, Tip(r), r.entries[|r.entries| - 1]);
      NoZeroAt(r.entries, |r.entries| - 1);
    }
  }

  /** A sync starts from the header of the stored tip, and from zero if nothing is stored. */
  lemma BeginExact(store: Store)
    requires Valid(store)
    ensures Begin(store).store == store && (store.entries == [] ==> Begin(store).prev == Zero)
    ensures store.entries != [] && store.entries[0].height >= 0 ==> Begin(store).prev == store.entries[|store.entries| - 1].header
  {
    if store.entries != [] {
      FindExact(store, Tip(store), store.entries[|store.entries| - 1]);
    }
  }

  lemma PrefixLinked(combine: Combine, es: seq<Entry>, n: nat)
    requires Linked(combine, es) && NoZero(es) && n <= |es|
    ensures Linked(combine, es[..n]) && NoZero(es[..n])
  {
  }

  lemma NoZeroAt(es: seq<Entry>, i: nat)
    requires NoZero(es) && i < |es|
    ensures es[i].header != Zero
  {
  }

  /** No batch of the first `n` events fails half way: all its appends succeed, or the first adds
      nothing. */
  ghost predicate Legal(combine: Combine, s: Sync, evs: seq<Event>, n: nat)
    requires Valid(s.store) && n <= |evs|
    decreases n
  {
    n == 0 ||
    (&& Legal(combine, s, evs, n - 1)
     && var m := Run(combine, s, evs, n - 1);
        && |m.store.entries| + 1 < 0x8000_0000
        && (evs[n - 1].Batch? ==> Fits(m.store, evs[n - 1].hashes) && Clean(m.store.size, evs[n - 1])))
  }

  predicate Clean(size: nat, ev: Event)
    requires ev.Batch?
  {
    Added(size, ev.ws, |ev.hashes|).1 || Added(size, ev.ws, |ev.hashes|).0 == 0
  }

  ghost function Run(combine: Combine, s: Sync, evs: seq<Event>, n: nat): (r: Sync)
    requires Valid(s.store) && n <= |evs|
    ensures Valid(r.store)
    decreases n
  {
    if n == 0 then s
    else
      var m := Run(combine, s, evs, n - 1);
      var ev := evs[n - 1];
      if |m.store.entries| + 1 < 0x8000_0000 && (ev.Batch? ==> Fits(m.store, ev.hashes)) then
        Step(combine, m, ev)
      else m
  }

  /** Over any run of batches and restarts the stored headers stay linked, and the previous header
      is the one of the stored tip. */
  lemma {:induction false} RunStaysLinked(combine: Combine, s: Sync, evs: seq<Event>, n: nat)
    requires Chained(combine, s) && NeverZero(combine) && n <= |evs| && Legal(combine, s, evs, n)
    ensures Chained(combine, Run(combine, s, evs, n))
  {
    hide Chained, Step, HandleHeaders, Fits;
    assert Valid(s.store) by { ChainedValid(combine, s); }
    if n > 0 {
      RunStaysLinked(combine, s, evs, n - 1);
      OneStep(combine, Run(combine, s, evs, n - 1), evs[n - 1]);
    }
  }

  lemma ChainedValid(combine: Combine, s: Sync)
    requires Chained(combine, s)
    ensures Valid(s.store)
  {
  }

  lemma OneStep(combine: Combine, s: Sync, ev: Event)
    requires Chained(combine, s) && NeverZero(combine) && |s.store.entries| + 1 < 0x8000_0000
    requires ev.Batch? ==> Fits(s.store, ev.hashes) && Clean(s.store.size, ev)
    ensures Chained(combine, Step(combine, s, ev))
  {
    hide Valid, Added, NewEntries, Linked, NoZero;
    match ev
    case Batch(prevFilterHeader, hashes, ws) => HandleKeeps(combine, s, prevFilterHeader, hashes, ws);
    case Restart(len) => RestartKeeps(combine, s, len);
  }

  /** What a batch that fails half way leaves: the store's tip is ahead of the previous header, so
      from then on the batch that continues the tip is refused, or, if no header was known before,
      no batch is. */
  lemma FailedAppendLosesLink(combine: Combine, s: Sync, prevFilterHeader: Bytes32, hashes: seq<Bytes32>, ws: Writes, next: Bytes32)
    requires Chained(combine, s) && NeverZero(combine) && Fits(s.store, hashes) && !Refused(s, prevFilterHeader)
    requires var a := Added(s.store.size, ws, |hashes|); !a.1 && a.0 > 0
    ensures var r := HandleHeaders(combine, s, prevFilterHeader, hashes, ws).0;
      && r.store.entries != [] && r.prev == s.prev
      && var tip := r.store.entries[|r.store.entries| - 1].header;
         && (s.prev != Zero ==> (Refused(r, tip) <==> tip != s.prev))
         && (s.prev == Zero ==> tip != r.prev && !Refused(r, next))
  {
    hide Valid, Added, AppendAll, Chained;
    HandleKeeps(combine, s, prevFilterHeader, hashes, ws);
    var r := HandleHeaders(combine, s, prevFilterHeader, hashes, ws).0;
    var es := NewEntries(combine, Tip(s.store) + 1, prevFilterHeader, hashes, Added(s.store.size, ws, |hashes|).0);
    assert r.store.entries[|r.store.entries| - 1] == es[|es| - 1];
  }

  // ----- the handler in its own form -----

  class HeaderSync {
    const store: HeaderFile
    var prevHeader: Bytes32

    ghost function View(): Sync
      reads this, store
    {
      Sync(store.View(), prevHeader)
    }

    /** The previous header a sync starts from. */
    constructor (store: HeaderFile)
      ensures this.store == store && View() == Begin(store.View())
    {
      this.store := store;
      prevHeader := Zero;
      new;
      var tip := store.GetTipHeight();
      if tip >= 0 {
        var e := store.Get(tip);
        if e.Some? {
          prevHeader := e.value.header;
        }
      }
    }

    /** `peergroup_handle_cfheaders`; false if the peer is to be dropped. */
    method HandleCfheaders(combine: Combine, prevFilterHeader: Bytes32, hashes: seq<Bytes32>, ws: Writes) returns (ok: bool)
      requires Fits(store.View(), hashes)
      modifies this, store
      ensures (View(), ok) == HandleHeaders(combine, old(View()), prevFilterHeader, hashes, ws)
    {
      hide AppendNext, Valid, Tip, Zeros;
      if prevHeader != Zero && prevFilterHeader != prevHeader {
        return false;
      }
      ghost var was := store.View();
      var tip := store.GetTipHeight();
      var startHeight := tip + 1;
      var prev := prevFilterHeader;
      for i := 0 to |hashes|
        invariant AppendAll(combine, was, prevFilterHeader, hashes, i, ws) == Progress(store.View(), prev, true)
        invariant prevHeader == old(prevHeader)
      {
        AppendAllSize(combine, was, prevFilterHeader, hashes, i, ws);
        var header := combine(hashes[i], prev);
        var failed := AppendHere(startHeight + i, header, hashes[i], ws(i), combine, prev);
        if failed {
          StaysFailed(combine, was, prevFilterHeader, hashes, i + 1, |hashes|, ws);
          return false;
        }
        prev := header;
      }
      prevHeader := prev;
      ok := true;
    }

    method AppendHere(height: int32, header: Bytes32, hash: Bytes32, w: (nat, nat), ghost combine: Combine, ghost prev: Bytes32)
      returns (failed: bool)
      requires Valid(store.View()) && |store.entries| + 1 < 0x8000_0000 && header == combine(hash, prev)
      modifies store
      ensures Progress(store.View(), if failed then prev else header, !failed) ==
              AppendNext(combine, Progress(old(store.View()), prev, true), height, hash, w)
    {
      hide Append;
      ValidBase(store.View());
      failed := store.AppendEntry(height, header, hash, w.0, w.1);
    }
  }

  lemma AppendAllSize(combine: Combine, store: Store, prev: Bytes32, hashes: seq<Bytes32>, n: nat, ws: Writes)
    requires Fits(store, hashes) && n < |hashes|
    ensures var s := AppendAll(combine, store, prev, hashes, n, ws).store;
      Valid(s) && |s.entries| + 1 < 0x8000_0000
  {
  }

  lemma {:induction false} StaysFailed(combine: Combine, store: Store, prev: Bytes32, hashes: seq<Bytes32>, m: nat, n: nat, ws: Writes)
    requires Fits(store, hashes) && m <= n <= |hashes| && !AppendAll(combine, store, prev, hashes, m, ws).ok
    ensures AppendAll(combine, store, prev, hashes, n, ws) == AppendAll(combine, store, prev, hashes, m, ws)
  {
    hide AppendNext, Valid, Tip;
    if m < n { StaysFailed(combine, store, prev, hashes, m, n - 1, ws); }
  }
}
