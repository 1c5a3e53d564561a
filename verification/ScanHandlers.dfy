/**
 What each handler of the filter scan does, exactly: which chunks a tick or a lost peer takes back
 and who may have them next, what the scheduler leaves idle, what a filter, a block, a timeout and a
 "not found" answer change, and how far the resume height goes.
 */
module ScanHandlers {
  import opened Outcomes
  import opened FilterScan
  import opened ScanSafety

  // ----- handing chunks out -----

  /** A connected filter peer of the list. */
  ghost predicate Filtering(peers: seq<PeerInfo>, p: Peer) {
    exists k :: 0 <= k < |peers| && peers[k].id == p && peers[k].connected && peers[k].filters
  }

  /** A free chunk was given to a peer that may have it and that the request reached: it counts down
      from its size again, and the clock of its progress starts. */
  ghost predicate HandedTo(a: Segment, b: Segment, p: Peer, now: nat, sends: set<Peer>) {
    && a.owner == None && !a.done && a.avoid != Some(p) && p in sends
    && b == a.(owner := Some(p), avoid := None, remaining := a.end - a.start + 1, progressTS := now)
  }

  ghost predicate Handed(a: Segment, b: Segment, peers: seq<PeerInfo>, now: nat, sends: set<Peer>) {
    exists p :: Filtering(peers, p) && HandedTo(a, b, p, now, sends)
  }

  /** Nothing happened to a chunk but that it may have been handed out. */
  ghost predicate SameOrHanded(a: Segment, b: Segment, t: Trail, u: Trail, peers: seq<PeerInfo>, now: nat, sends: set<Peer>) {
    (b == a && u == t) || (Handed(a, b, peers, now, sends) && u == Trail(t.owners + [b.owner.value], []))
  }

  lemma AssignHands(s: Scan, i: nat, p: Peer, now: nat, sends: set<Peer>)
    requires Aligned(s) && i < |s.segs| && s.segs[i].owner == None && !s.segs[i].done && s.segs[i].avoid != Some(p)
    ensures var r := Assign(s, i, p, now, sends);
      && r.peers == s.peers && (forall j :: 0 <= j < |s.segs| && j != i ==> r.segs[j] == s.segs[j] && r.hist.trails[j] == s.hist.trails[j])
      && if s.segs[i].end == 0 || p !in sends then r == s
         else HandedTo(s.segs[i], r.segs[i], p, now, sends) && r.hist.trails[i] == Trail(s.hist.trails[i].owners + [p], [])
  {
  }

  lemma {:induction false} ScheduleHands(s: Scan, k: nat, inflight: nat, now: nat, sends: set<Peer>)
    requires Aligned(s) && k <= |s.peers|
    ensures var r := ScheduleFrom(s, k, inflight, now, sends);
      && r == s.(segs := r.segs, hist := s.hist.(trails := r.hist.trails)) && |r.segs| == |s.segs|
      && forall i :: 0 <= i < |s.segs| ==>
           SameOrHanded(s.segs[i], r.segs[i], s.hist.trails[i], r.hist.trails[i], s.peers, now, sends)
    decreases |s.peers| - k
  {
    hide Filtering, Assign;
    if k < |s.peers| && inflight < MAX_INFLIGHT {
      var p := s.peers[k];
      var i := FirstFree(s.segs, p.id, 0);
      if !p.connected || !p.filters || Busy(s.segs, p.id) || i == |s.segs| {
        ScheduleHands(s, k + 1, inflight, now, sends);
      } else {
        AssignHands(s, i, p.id, now, sends);
        AssignFrame(s, i, p.id, now, sends);
        IsFiltering(s.peers, k);
        ScheduleHands(Assign(s, i, p.id, now, sends), k + 1, inflight + 1, now, sends);
      }
    }
  }

  lemma AssignFrame(s: Scan, i: nat, p: Peer, now: nat, sends: set<Peer>)
    requires Aligned(s) && i < |s.segs|
    ensures var r := Assign(s, i, p, now, sends); r == s.(segs := r.segs, hist := s.hist.(trails := r.hist.trails))
  {
  }

  lemma IsFiltering(peers: seq<PeerInfo>, k: nat)
    requires k < |peers| && peers[k].connected && peers[k].filters
    ensures Filtering(peers, peers[k].id)
  {
  }

  /** The peer has a chunk, or there is none it may have. */
  ghost predicate Served(segs: seq<Segment>, p: Peer) {
    Busy(segs, p) || forall i :: 0 <= i < |segs| ==> !segs[i].FreeFor(p)
  }

  lemma ServedStays(s: Scan, k: nat, inflight: nat, now: nat, sends: set<Peer>, p: Peer)
    requires Aligned(s) && k <= |s.peers| && Served(s.segs, p)
    ensures Served(ScheduleFrom(s, k, inflight, now, sends).segs, p)
  {
    hide Filtering;
    ScheduleHands(s, k, inflight, now, sends);
    var r := ScheduleFrom(s, k, inflight, now, sends);
    if Busy(s.segs, p) {
      var i :| 0 <= i < |s.segs| && s.segs[i].owner == Some(p) && !s.segs[i].done;
      assert r.segs[i] == s.segs[i];
    } else {
      assert forall i :: 0 <= i < |s.segs| ==> !s.segs[i].FreeFor(p) && (r.segs[i].FreeFor(p) ==> r.segs[i] == s.segs[i]);
    }
  }

  /** Every request gets through, and no chunk ends at genesis, where none can be asked for. */
  ghost predicate AllReached(s: Scan, sends: set<Peer>) {
    (forall q :: q in s.peers ==> q.id in sends) && forall i :: 0 <= i < |s.segs| ==> s.segs[i].end != 0
  }

  lemma AssignCounts(s: Scan, i: nat, k: nat, now: nat, sends: set<Peer>)
    requires Aligned(s) && AllReached(s, sends) && k < |s.peers| && i < |s.segs| && s.segs[i].FreeFor(s.peers[k].id)
    ensures var m := Assign(s, i, s.peers[k].id, now, sends);
      && m.peers == s.peers && AllReached(m, sends) && |m.segs| == |s.segs|
      && Inflight(m.segs, |m.segs|) == Inflight(s.segs, |s.segs|) + 1 && Served(m.segs, s.peers[k].id)
  {
    assert s.peers[k] in s.peers;
    var m := Assign(s, i, s.peers[k].id, now, sends);
    InflightUpdate(s.segs, i, m.segs[i], |s.segs|);
    ServedOwner(m.segs, i, s.peers[k].id);
  }

  /** The scheduler leaves no work undone: if its requests get through, 64 chunks are owned
      afterwards, or every connected filter peer owns one or may have none of those that are left. */
  lemma {:induction false} ScheduleServes(s: Scan, k: nat, now: nat, sends: set<Peer>, j: nat)
    requires Aligned(s) && k <= j < |s.peers| && s.peers[j].connected && s.peers[j].filters && AllReached(s, sends)
    ensures var r := ScheduleFrom(s, k, Inflight(s.segs, |s.segs|), now, sends);
      Inflight(r.segs, |r.segs|) >= 64 || Served(r.segs, s.peers[j].id)
    decreases |s.peers| - k
  {
    hide Busy, Served, AllReached, Assign, Inflight;
    var inflight := Inflight(s.segs, |s.segs|);
    if inflight < MAX_INFLIGHT {
      var p := s.peers[k];
      var i := FirstFree(s.segs, p.id, 0);
      if !p.connected || !p.filters || Busy(s.segs, p.id) || i == |s.segs| {
        if k == j {
          ServedNow(s.segs, p.id);
          ServedStays(s, k + 1, inflight, now, sends, p.id);
        } else {
          ScheduleServes(s, k + 1, now, sends, j);
        }
      } else {
        var m := Assign(s, i, p.id, now, sends);
        AssignCounts(s, i, k, now, sends);
        if k == j {
          ServedStays(m, k + 1, inflight + 1, now, sends, p.id);
        } else {
          ScheduleServes(m, k + 1, now, sends, j);
        }
      }
    }
  }

  lemma ServedNow(segs: seq<Segment>, p: Peer)
    requires Busy(segs, p) || FirstFree(segs, p, 0) == |segs|
    ensures Served(segs, p)
  {
  }

  lemma ServedOwner(segs: seq<Segment>, i: nat, p: Peer)
    requires i < |segs| && segs[i].owner == Some(p) && !segs[i].done
    ensures Served(segs, p)
  {
  }

  // ----- taking chunks back -----

  /** An unfinished chunk without its owner, who is not to have it next. */
  ghost function TakenBack(a: Segment): Segment {
    a.(owner := None, avoid := a.owner, remaining := a.end - a.start + 1)
  }

  /** What became of a chunk: it was taken back if it was owned and picked, losing the filters counted
      for it, and then it may have been handed out; nothing else. */
  ghost predicate Became(a: Segment, b: Segment, t: Trail, u: Trail, picked: bool, peers: seq<PeerInfo>, now: nat, sends: set<Peer>) {
    if a.owner.Some? && !a.done && picked then
      SameOrHanded(TakenBack(a), b, t.(accepted := []), u, peers, now, sends)
    else
      SameOrHanded(a, b, t, u, peers, now, sends)
  }

  lemma RequeueExact(s: Scan, lost: Segment -> bool, now: nat, sends: set<Peer>)
    requires Aligned(s)
    ensures var r := RequeueAndSchedule(s, lost, now, sends);
      && r == s.(segs := r.segs, hist := s.hist.(trails := r.hist.trails)) && |r.segs| == |s.segs|
      && (forall i :: 0 <= i < |s.segs| ==>
            Became(s.segs[i], r.segs[i], s.hist.trails[i], r.hist.trails[i], lost(s.segs[i]), s.peers, now, sends))
      && (!AnyLost(s, lost) ==> r == s)
  {
    hide Handed, ScheduleFrom;
    var m := RequeueAll(s, |s.segs|, lost);
    RequeueAllIs(s, |s.segs|, lost);
    if AnyLost(s, lost) {
      ScheduleHands(m, 0, Inflight(m.segs, |m.segs|), now, sends);
    } else {
      assert m.segs == s.segs && m.hist.trails == s.hist.trails;
    }
  }

  /** The chunk is owned, and its owner has sent nothing for it for ten seconds. */
  ghost predicate Silent(seg: Segment, now: nat) {
    seg.owner.Some? && !seg.done && now - seg.progressTS >= 10_000_000
  }

  /** A tick takes back exactly the unfinished chunks whose owner has been silent for ten seconds: such a
      chunk starts over, free or with another peer. Any other chunk that is owned or done stays as it
      is, and a free one may be handed out, but only if some chunk was taken back. */
  lemma TickTakesBackExactly(s: Scan, now: nat, sends: set<Peer>, i: nat)
    requires Aligned(s) && i < |s.segs|
    ensures var r := CheckChunks(s, now, sends);
      r == s.(segs := r.segs, hist := s.hist.(trails := r.hist.trails)) && |r.segs| == |s.segs|
    ensures var r := CheckChunks(s, now, sends);
      var a, b, t, u := s.segs[i], r.segs[i], s.hist.trails[i], r.hist.trails[i];
      && (Silent(a, now) ==> SameOrHanded(TakenBack(a), b, t.(accepted := []), u, s.peers, now, sends) && b.owner != a.owner)
      && (!Silent(a, now) && (a.owner.Some? || a.done) ==> b == a && u == t)
      && (a.owner.None? && !a.done ==> SameOrHanded(a, b, t, u, s.peers, now, sends))
      && ((forall j :: 0 <= j < |s.segs| ==> !Silent(s.segs[j], now)) ==> r == s)
  {
    hide Filtering;
    RequeueExact(s, Stalled(now), now, sends);
    assert Stalled(now)(s.segs[i]) <==> now - s.segs[i].progressTS >= 10_000_000;
    if AnyLost(s, Stalled(now)) {
      var j :| 0 <= j < |s.segs| && s.segs[j].Owned() && Stalled(now)(s.segs[j]);
      assert Silent(s.segs[j], now);
    }
  }

  /** A peer that goes loses exactly its own unfinished chunks, which start over, free or with another
      peer; it leaves the list, and nobody else does. */
  lemma GoneTakesBackExactly(w: World, s: Scan, p: Peer, now: nat, sends: set<Peer>, i: nat)
    requires Valid(w, s) && Aligned(s) && i < |s.segs|
    ensures var r := PeerGone(s, p, now, sends);
      r == s.(segs := r.segs, hist := s.hist.(trails := r.hist.trails), peers := r.peers) && |r.segs| == |s.segs|
    ensures var r := PeerGone(s, p, now, sends);
      var a, b, t, u := s.segs[i], r.segs[i], s.hist.trails[i], r.hist.trails[i];
      && (forall q :: q in r.peers <==> q in s.peers && q.id != p)
      && (if a.owner == Some(p) && !a.done then
            SameOrHanded(TakenBack(a), b, t.(accepted := []), u, r.peers, now, sends) && b.owner != Some(p)
          else if a.owner.Some? || a.done then b == a && u == t
          else SameOrHanded(a, b, t, u, r.peers, now, sends) && b.owner != Some(p))
  {
    hide Valid, RequeueAndSchedule;
    var v := s.(peers := Disconnected(s.peers, p));
    var m := RequeueAndSchedule(v, OwnedBy(p), now, sends);
    RequeueExact(v, OwnedBy(p), now, sends);
    assert OwnedBy(p)(s.segs[i]) <==> s.segs[i].owner == Some(p);
    forall q: Peer | Filtering(v.peers, q) ensures q != p && Filtering(Without(v.peers, p), q) {
      var k :| 0 <= k < |v.peers| && v.peers[k].id == q && v.peers[k].connected && v.peers[k].filters;
      assert v.peers[k] in Without(v.peers, p);
    }
    WithoutDisconnected(s.peers, p);
  }

  lemma WithoutDisconnected(peers: seq<PeerInfo>, p: Peer)
    ensures forall q :: q in Without(Disconnected(peers, p), p) <==> q in peers && q.id != p
  {
    var d := Disconnected(peers, p);
    forall q | q in peers && q.id != p ensures q in d {
      var k :| 0 <= k < |peers| && peers[k] == q;
      assert d[k] == q;
    }
  }

  /** When anything was taken back, the scheduler leaves no work undone after it. */
  lemma RequeueServes(s: Scan, lost: Segment -> bool, now: nat, sends: set<Peer>, j: nat)
    requires Aligned(s) && AnyLost(s, lost) && AllReached(s, sends)
    requires j < |s.peers| && s.peers[j].connected && s.peers[j].filters
    ensures var r := RequeueAndSchedule(s, lost, now, sends);
      Inflight(r.segs, |r.segs|) >= 64 || Served(r.segs, s.peers[j].id)
  {
    RequeueAllIs(s, |s.segs|, lost);
    ScheduleServes(RequeueAll(s, |s.segs|, lost), 0, now, sends, j);
  }

  // ----- filters -----

  /** The stored hash of this height is known, and is not the filter's. */
  ghost predicate Forged(w: World, h: int, f: Filter) {
    h >= 0 && w.stored.Some? && h in w.stored.value && w.stored.value[h] != w.hash(f)
  }

  /** What a filter changes besides the chunks: nothing if it is refused; else it is noted as checked,
      and its block is asked from the peer that sent it if it matches. The peer is dropped exactly for
      a filter with the wrong hash, or if that request does not get through. */
  lemma FilterExact(w: World, s: Scan, p: Peer, h: int, f: Filter, now: nat, sends: set<Peer>)
    requires Aligned(s)
    ensures var (r, kept) := HandleFilter(w, s, p, h, f, now, sends);
      var accepted := h >= 0 && (w.stored.None? || (h in w.stored.value && w.stored.value[h] == w.hash(f)));
      && (kept <==> !Forged(w, h, f) && !(accepted && w.matches(h, f) && p !in sends))
      && (!accepted ==> r == s)
      && (accepted ==>
            && r.floor == s.floor && r.tip == s.tip && r.peers == s.peers
            && r.pending == s.pending + (if w.matches(h, f) then [Pending(h, p, now)] else [])
            && r.hist.recorded == s.hist.recorded + (if w.matches(h, f) then {h} else {})
            && r.hist.checked == s.hist.checked + (if w.stored.Some? then {(h, f)} else {})
            && r.hist.fed == s.hist.fed && r.hist.dropped == s.hist.dropped)
  {
    hide Assign;
    if Accepted(w, h, f) {
      var seen := if w.stored.Some? then s.(hist := s.hist.(checked := s.hist.checked + {(h, f)})) else s;
      BookkeepFrame(seen, p, h, now, sends);
    }
  }

  lemma BookkeepFrame(s: Scan, p: Peer, h: int, now: nat, sends: set<Peer>)
    requires Aligned(s)
    ensures var r := Bookkeep(s, p, h, now, sends);
      r == s.(segs := r.segs, contig := r.contig, last := r.last, hist := s.hist.(trails := r.hist.trails))
  {
    hide Assign;
    var idx := ChunkIndex(s.floor, h);
    if Mine(s.segs, idx, p) {
      var c := Count(s, idx, h, now);
      var d := AdvanceLast(c.(contig := DonePrefix(c.segs, c.contig)));
      var i := FirstFree(d.segs, p, 0);
      if i < |d.segs| { AssignFrame(d, i, p, now, sends); }
    }
  }

  /** A filter for a chunk that its sender does not own, or that is done, changes no chunk, not the
      watermark and not the resume height: a late or repeated answer does no harm. */
  lemma LateFilterIsHarmless(w: World, s: Scan, p: Peer, h: int, f: Filter, now: nat, sends: set<Peer>)
    requires Aligned(s)
    requires forall i :: 0 <= i < |s.segs| && i == ChunkIndex(s.floor, h) ==> s.segs[i].owner != Some(p) || s.segs[i].done
    ensures var r := HandleFilter(w, s, p, h, f, now, sends).0;
      r.segs == s.segs && r.contig == s.contig && r.last == s.last && r.hist.trails == s.hist.trails
  {
  }

  /** A filter from the owner of its chunk counts: one fewer is left and the clock of its progress starts
      again. Before the last one nothing else moves. */
  lemma FilterCounts(w: World, s: Scan, p: Peer, h: int, f: Filter, now: nat, sends: set<Peer>)
    requires Valid(w, s) && Aligned(s) && Accepted(w, h, f)
    requires var i := ChunkIndex(s.floor, h); 0 <= i < |s.segs| && s.segs[i].owner == Some(p) && !s.segs[i].done
    ensures var r, i := HandleFilter(w, s, p, h, f, now, sends).0, ChunkIndex(s.floor, h);
      var a := s.segs[i];
      && |r.segs| == |s.segs| && |r.hist.trails| == |s.segs|
      && r.hist.trails[i] == s.hist.trails[i].(accepted := s.hist.trails[i].accepted + [h])
      && r.segs[i] == a.(remaining := a.remaining - 1, progressTS := now, done := a.remaining == 1)
      && (a.remaining > 1 ==> r.segs == s.segs[i := r.segs[i]] && r.contig == s.contig && r.last == s.last)
  {
    hide Bookkeep, Covered, Single, OwnersLive, Fetches, LastBehind, MatchesRecorded;
    assert ChunkOk(w, s, ChunkIndex(s.floor, h));
    var seen := if w.stored.Some? then s.(hist := s.hist.(checked := s.hist.checked + {(h, f)})) else s;
    BookkeepCounts(seen, p, h, now, sends);
  }

  lemma BookkeepCounts(s: Scan, p: Peer, h: int, now: nat, sends: set<Peer>)
    requires Aligned(s)
    requires var i := ChunkIndex(s.floor, h);
      0 <= i < |s.segs| && s.segs[i].owner == Some(p) && !s.segs[i].done && s.segs[i].remaining >= 1
    ensures var r, i := Bookkeep(s, p, h, now, sends), ChunkIndex(s.floor, h);
      var a := s.segs[i];
      && |r.segs| == |s.segs| && |r.hist.trails| == |s.segs|
      && r.hist.trails[i] == s.hist.trails[i].(accepted := s.hist.trails[i].accepted + [h])
      && r.segs[i] == a.(remaining := a.remaining - 1, progressTS := now, done := a.remaining == 1)
      && (a.remaining > 1 ==> r.segs == s.segs[i := r.segs[i]] && r.contig == s.contig && r.last == s.last)
  {
    hide AdvanceLast, DonePrefix;
    var i := ChunkIndex(s.floor, h);
    var c := Count(s, i, h, now);
    if c.segs[i].done {
      AdvanceFrame(c.(contig := DonePrefix(c.segs, c.contig)));
    }
  }

  lemma AdvanceFrame(s: Scan)
    requires Aligned(s)
    ensures AdvanceLast(s) == s.(last := AdvanceLast(s).last)
  {
  }

  /** With the last one the chunk is done; its owner is given the first chunk it may have, if there is
      one and the request gets through, and no other chunk moves. */
  lemma LastFilterMovesOn(w: World, s: Scan, p: Peer, h: int, f: Filter, now: nat, sends: set<Peer>, j: nat)
    requires Valid(w, s) && Aligned(s) && Accepted(w, h, f) && j < |s.segs| && j != ChunkIndex(s.floor, h)
    requires var i := ChunkIndex(s.floor, h);
      0 <= i < |s.segs| && s.segs[i].owner == Some(p) && !s.segs[i].done && s.segs[i].remaining == 1
    ensures var r := HandleFilter(w, s, p, h, f, now, sends).0;
      && |r.segs| == |s.segs|
      && var first := s.segs[j].FreeFor(p) && forall k :: 0 <= k < j ==> !s.segs[k].FreeFor(p);
         if first && p in sends && s.segs[j].end != 0 then HandedTo(s.segs[j], r.segs[j], p, now, sends)
         else r.segs[j] == s.segs[j]
  {
    hide AdvanceLast, DonePrefix, Valid, Assign;
    var i := ChunkIndex(s.floor, h);
    var seen := if w.stored.Some? then s.(hist := s.hist.(checked := s.hist.checked + {(h, f)})) else s;
    var c := Count(seen, i, h, now);
    var d := AdvanceLast(c.(contig := DonePrefix(c.segs, c.contig)));
    AdvanceFrame(c.(contig := DonePrefix(c.segs, c.contig)));
    assert forall k :: 0 <= k < |s.segs| ==> (d.segs[k].FreeFor(p) <==> s.segs[k].FreeFor(p));
    var free := FirstFree(d.segs, p, 0);
    if free < |d.segs| { AssignHands(d, free, p, now, sends); }
  }

  // ----- how far the resume height goes -----

  /** A height that a resume height may reach: every chunk that starts at or below it is done, and no
      block at or below it is pending. */
  ghost predicate Passable(s: Scan, h: int) {
    && s.floor <= h <= s.tip
    && (forall i :: 0 <= i < |s.segs| && s.segs[i].start <= h ==> s.segs[i].done)
    && forall k :: 0 <= k < |s.pending| ==> h < s.pending[k].height
  }

  /** The resume height is as far as it may be. */
  ghost predicate Furthest(s: Scan) {
    forall h :: Passable(s, h) ==> h <= s.last
  }

  /** The resume height goes exactly as far as it may: if it moves it is passable, and nothing above it
      is. */
  lemma AdvanceIsFurthest(w: World, s: Scan)
    requires Consistent(w, s) && s.tip < 0x7fff_ffff
    ensures Furthest(AdvanceLast(s))
    ensures AdvanceLast(s).last != s.last ==> AdvanceLast(s).last > s.last && Passable(s, AdvanceLast(s).last)
  {
    hide Covered, Tended, Single, OwnersLive, Fetches;
    var r := AdvanceLast(s);
    assert s.contig < |s.segs| ==> ChunkOk(w, s, s.contig);
    forall h | Passable(r, h) ensures h <= r.last {
      var i := ChunkIndex(s.floor, h);
      assert ChunkOk(w, s, i);
      assert ChunkOk(w, s, s.contig - 1);
      assert h <= s.segs[s.contig - 1].end;
    }
    if r.last != s.last {
      assert ChunkOk(w, s, s.contig - 1);
      forall i | 0 <= i < |s.segs| && s.segs[i].start <= r.last ensures s.segs[i].done {
        assert ChunkOk(w, s, i);
      }
    }
  }

  /** A fetched block is fed, one fetch of it is no longer pending, nothing else about the fetches and the
      chunks changes, and the resume height is as far as it may be. */
  lemma BlockExact(w: World, s: Scan, h: int, x: int)
    requires Valid(w, s) && Aligned(s) && s.tip < 0x7fff_ffff
    ensures var r := HandleBlock(s, h);
      && r == s.(pending := r.pending, last := r.last, hist := s.hist.(fed := s.hist.fed + {h}))
      && Outstanding(r.pending, |r.pending|, x)
         == Outstanding(s.pending, |s.pending|, x) - (if x == h && IsPending(s.pending, h) then 1 else 0)
      && Furthest(r)
  {
    hide Consistent, AdvanceLast, RemovePending;
    RemoveKeeps(w, s, h, s.hist.fed + {h}, s.hist.dropped);
    RemoveOutstanding(s.pending, h, x);
    var m := s.(pending := RemovePending(s.pending, h), hist := s.hist.(fed := s.hist.fed + {h}));
    AdvanceFrame(m);
    AdvanceIsFurthest(w, m);
  }

  /** When a chunk is finished the resume height is as far as it may be. */
  lemma LastFilterIsFurthest(w: World, s: Scan, p: Peer, h: int, f: Filter, now: nat, sends: set<Peer>)
    requires Valid(w, s) && Aligned(s) && Accepted(w, h, f) && s.tip < 0x7fff_ffff
    requires var i := ChunkIndex(s.floor, h);
      0 <= i < |s.segs| && s.segs[i].owner == Some(p) && !s.segs[i].done && s.segs[i].remaining == 1
    ensures Furthest(HandleFilter(w, s, p, h, f, now, sends).0)
  {
    hide Consistent, Bookkeep;
    var seen := if w.stored.Some? then s.(hist := s.hist.(checked := s.hist.checked + {(h, f)})) else s;
    if w.stored.Some? { SeenKeeps(w, s, h, f); }
    BookkeepIsFurthest(w, seen, p, h, now, sends);
    var b, r := Bookkeep(seen, p, h, now, sends), HandleFilter(w, s, p, h, f, now, sends).0;
    forall x | Passable(r, x) ensures x <= r.last {
      assert forall k :: 0 <= k < |b.pending| ==> r.pending[k] == b.pending[k];
      assert Passable(b, x);
    }
  }

  lemma BookkeepIsFurthest(w: World, s: Scan, p: Peer, h: int, now: nat, sends: set<Peer>)
    requires Consistent(w, s) && Aligned(s) && s.tip < 0x7fff_ffff && (w.stored.Some? ==> Checked(s.hist.checked, h))
    requires var i := ChunkIndex(s.floor, h);
      0 <= i < |s.segs| && s.segs[i].owner == Some(p) && !s.segs[i].done && s.segs[i].remaining == 1
    ensures Furthest(Bookkeep(s, p, h, now, sends))
  {
    hide Consistent, AdvanceLast, AssignNext, DonePrefix, Checked;
    var i := ChunkIndex(s.floor, h);
    var c := Count(s, i, h, now);
    CountKeeps(w, s, i, p, h, now);
    var d := c.(contig := DonePrefix(c.segs, c.contig));
    AdvanceFrame(d);
    AdvanceIsFurthest(w, d);
    var a := AdvanceLast(d);
    FinishedFrame(a, p, now, sends);
    var b := AssignNext(a, p, now, sends);
    assert forall x :: Passable(b, x) ==> Passable(a, x);
  }

  lemma FinishedFrame(a: Scan, p: Peer, now: nat, sends: set<Peer>)
    requires Aligned(a)
    ensures var b := AssignNext(a, p, now, sends);
      b == a.(segs := b.segs, hist := a.hist.(trails := b.hist.trails)) && |b.segs| == |a.segs|
      && forall k :: 0 <= k < |a.segs| ==> b.segs[k].done == a.segs[k].done && b.segs[k].start == a.segs[k].start
  {
    var i := FirstFree(a.segs, p, 0);
    if i < |a.segs| { AssignFrame(a, i, p, now, sends); }
  }

  // ----- fetches that fail -----

  /** An expired fetch: nothing came for ten seconds. */
  ghost predicate Overdue(e: Pending, now: nat) {
    now - e.requestTS >= 10_000_000
  }

  /** A tick looks at the overdue fetches in their order, at most 64 of them: `at` is where they stand. */
  lemma {:induction false} ExpiredExactly(pending: seq<Pending>, n: nat, now: nat) returns (at: seq<nat>)
    requires n <= |pending|
    ensures var es := ExpiredAmong(pending, n, now);
      && |at| == |es| <= 64
      && (forall i :: 0 <= i < |at| ==> at[i] < n && es[i] == pending[at[i]] && Overdue(es[i], now))
      && (forall i, j :: 0 <= i < j < |at| ==> at[i] < at[j])
      && (forall k :: 0 <= k < n && Overdue(pending[k], now) && k !in at ==>
            |es| == 64 && forall i :: 0 <= i < |at| ==> at[i] < k)
  {
    at := [];
    if n > 0 {
      at := ExpiredExactly(pending, n - 1, now);
      if |at| < 64 && Overdue(pending[n - 1], now) {
        at := at + [n - 1];
      }
    }
  }

  /** A retry of a fetch that failed: the block is asked from the chosen peer from now on, if the request
      gets through. */
  lemma ExpiredRetries(s: Scan, e: Pending, now: nat, sends: set<Peer>)
    ensures var r, best := RetryExpired(s, e, now, sends), RetryPeer(s.peers, e.from);
      && r == s.(pending := r.pending, hist := r.hist)
      && r.pending == RemovePending(s.pending, e.height)
                      + (if best.Some? && best.value in sends then [Pending(e.height, best.value, now)] else [])
  {
  }

  /** A "not found" answer: each block it names is asked again, from one other peer and from now on, if
      the requests get through; no fetch is taken off the list, and nothing else changes. */
  lemma {:induction false} NotFoundExact(s: Scan, p: Peer, hs: seq<int>, n: nat, now: nat, sends: set<Peer>)
    requires n <= |hs|
    ensures var r, best := RetryAll(s, p, hs, n, now, sends), RetryPeer(s.peers, p);
      && r == s.(pending := r.pending, hist := s.hist.(recorded := r.hist.recorded))
      && r.pending == s.pending
                      + (if best.Some? && best.value in sends then seq(n, k requires 0 <= k < n => Pending(hs[k], best.value, now)) else [])
  {
    hide RetryPeer;
    if n > 0 {
      NotFoundExact(s, p, hs, n - 1, now, sends);
      assert s.hist.(recorded := s.hist.recorded) == s.hist;
    }
  }
}
