/**
 The filter scan over whole runs: the invariant that every event keeps, what the resume height
 promises when it moves, and when it promises less than its description says.
 */
module ScanSafety {
  import opened Outcomes
  import opened FilterScan

  // ----- the invariant -----

  ghost predicate Checked(checked: set<(int, Filter)>, h: int) {
    exists f :: (h, f) in checked
  }

  ghost predicate Distinct(xs: seq<int>) {
    forall i, j :: 0 <= i < j < |xs| ==> xs[i] != xs[j]
  }

  /** No peer is given the same chunk twice in a row. */
  ghost predicate Alternate(owners: seq<Peer>) {
    forall i, j :: 0 <= i < j <= i + 1 && j < |owners| ==> owners[i] != owners[j]
  }

  ghost function LastOf(owners: seq<Peer>): Option<Peer> {
    if owners == [] then None else Some(owners[|owners| - 1])
  }

  ghost predicate Laid(floor: int, tip: int, i: nat, seg: Segment) {
    && seg.start == floor + i * BATCH && seg.end == Min(seg.start + BATCH - 1, tip) && seg.start <= seg.end
  }

  /** What the counter and the owner of a chunk say. */
  ghost predicate Tended(seg: Segment, t: Trail) {
    && Alternate(t.owners)
    && (seg.done ==> |t.accepted| == seg.Size())
    && (!seg.done ==>
          && 1 <= seg.remaining <= seg.Size()
          && seg.remaining == seg.Size() - |t.accepted|
          && LastOf(t.owners) == (if seg.owner.Some? then seg.owner else seg.avoid)
          && (seg.owner.Some? ==> seg.avoid == None))
  }

  /** Every counted filter was compared with the stored hash. */
  ghost predicate Covered(w: World, t: Trail, checked: set<(int, Filter)>) {
    w.stored.Some? ==> forall i :: 0 <= i < |t.accepted| ==> Checked(checked, t.accepted[i])
  }

  ghost predicate ChunkOk(w: World, s: Scan, i: nat)
    requires Aligned(s) && i < |s.segs|
  {
    && Laid(s.floor, s.tip, i, s.segs[i]) && Tended(s.segs[i], s.hist.trails[i])
    && Covered(w, s.hist.trails[i], s.hist.checked)
  }

  ghost predicate Chunks(w: World, s: Scan) {
    && Aligned(s) && 0 <= s.floor && |s.segs| == ChunkCount(s.floor, s.tip)
    && forall i :: 0 <= i < |s.segs| ==> ChunkOk(w, s, i)
  }

  /** Each peer owns at most one unfinished chunk, and at most 64 are owned at once. */
  ghost predicate Single(segs: seq<Segment>) {
    && (forall i, j :: 0 <= i < j < |segs| && segs[i].Owned() && segs[j].Owned() ==> segs[i].owner != segs[j].owner)
    && Inflight(segs, |segs|) <= MAX_INFLIGHT
  }

  ghost predicate IsLive(peers: seq<PeerInfo>, p: Peer) {
    exists k :: 0 <= k < |peers| && peers[k].id == p && peers[k].connected
  }

  /** No unfinished chunk is owned by a peer that is gone. */
  ghost predicate OwnersLive(segs: seq<Segment>, peers: seq<PeerInfo>) {
    forall i :: 0 <= i < |segs| && segs[i].Owned() ==> IsLive(peers, segs[i].owner.value)
  }

  /** The first `contig` chunks are done. */
  ghost predicate PrefixDone(segs: seq<Segment>, contig: nat) {
    contig <= |segs| && forall i :: 0 <= i < contig ==> segs[i].done
  }

  /** The watermark is the length of the longest done prefix. */
  ghost predicate Watermark(segs: seq<Segment>, contig: nat) {
    PrefixDone(segs, contig) && (contig < |segs| ==> !segs[contig].done)
  }

  ghost predicate IsPending(pending: seq<Pending>, h: int) {
    exists i :: 0 <= i < |pending| && pending[i].height == h
  }

  /** Every recorded block is pending, was fed, or was dropped. */
  ghost predicate Fetches(s: Scan) {
    && (forall i :: 0 <= i < |s.pending| ==> s.pending[i].height in s.hist.recorded)
    && (forall h :: h in s.hist.recorded ==> IsPending(s.pending, h) || h in s.hist.fed || h in s.hist.dropped)
  }

  ghost predicate Matched(w: World, recorded: set<int>, c: (int, Filter)) {
    Genuine(w, c.0, c.1) && (w.matches(c.0, c.1) ==> c.0 in recorded)
  }

  /** The resume height starts on the floor; once it has moved off, it is inside the range and every
      chunk that starts at or below it is done. */
  ghost predicate LastBehind(segs: seq<Segment>, floor: int, tip: int, last: int) {
    && floor <= last
    && (last > floor ==> last <= tip && forall i :: 0 <= i < |segs| && segs[i].start <= last ==> segs[i].done)
  }

  ghost predicate Consistent(w: World, s: Scan) {
    && Chunks(w, s) && Single(s.segs) && OwnersLive(s.segs, s.peers) && Watermark(s.segs, s.contig)
    && Fetches(s) && LastBehind(s.segs, s.floor, s.tip, s.last)
  }

  /** Every filter that was checked and matches had its block recorded. */
  ghost predicate MatchesRecorded(w: World, hist: History) {
    forall c :: c in hist.checked ==> Matched(w, hist.recorded, c)
  }

  ghost predicate Valid(w: World, s: Scan) {
    Consistent(w, s) && MatchesRecorded(w, s.hist)
  }

  // ----- one chunk -----

  lemma {:induction false} InflightUpdate(segs: seq<Segment>, i: nat, seg: Segment, n: nat)
    requires i < |segs| && n <= |segs|
    ensures Inflight(segs[i := seg], n) == Inflight(segs, n)
      + (if i < n then (if seg.Owned() then 1 else 0) - (if segs[i].Owned() then 1 else 0) else 0)
  {
    if n > 0 { InflightUpdate(segs, i, seg, n - 1); }
  }

  /** What giving out a chunk needs. */
  ghost predicate Assignable(s: Scan, i: nat, p: Peer) {
    && Aligned(s) && i < |s.segs| && s.segs[i].FreeFor(p) && !Busy(s.segs, p) && IsLive(s.peers, p)
    && Inflight(s.segs, |s.segs|) < MAX_INFLIGHT
  }

  lemma AssignKeeps(w: World, s: Scan, i: nat, p: Peer, now: nat, sends: set<Peer>)
    requires Consistent(w, s) && Assignable(s, i, p)
    ensures Consistent(w, Assign(s, i, p, now, sends))
  {
    hide Covered, Fetches, Checked, Alternate;
    var r := Assign(s, i, p, now, sends);
    InflightUpdate(s.segs, i, r.segs[i], |s.segs|);
    AssignChunkOk(w, s, i, p, now, sends);
    forall j | 0 <= j < |r.segs| ensures ChunkOk(w, r, j) {
      assert ChunkOk(w, s, j);
    }
    assert Fetches(r) by { FetchesFrame(s, r); }
  }

  lemma AssignChunkOk(w: World, s: Scan, i: nat, p: Peer, now: nat, sends: set<Peer>)
    requires Aligned(s) && i < |s.segs| && ChunkOk(w, s, i) && s.segs[i].FreeFor(p)
    ensures ChunkOk(w, Assign(s, i, p, now, sends), i)
  {
    var owners := s.hist.trails[i].owners;
    assert (owners + [p])[|owners|] == p;
  }

  /** The fetches only depend on the pending list and the history of blocks. */
  lemma FetchesFrame(s: Scan, r: Scan)
    requires Fetches(s) && r.pending == s.pending && r.hist.recorded == s.hist.recorded
    requires r.hist.fed == s.hist.fed && r.hist.dropped == s.hist.dropped
    ensures Fetches(r)
  {
  }

  // ----- scheduling -----

  lemma {:induction false} ScheduleKeeps(w: World, s: Scan, k: nat, inflight: nat, now: nat, sends: set<Peer>)
    requires Consistent(w, s) && k <= |s.peers| && Inflight(s.segs, |s.segs|) <= inflight
    ensures Consistent(w, ScheduleFrom(s, k, inflight, now, sends))
    ensures Unmoved(s, ScheduleFrom(s, k, inflight, now, sends))
    decreases |s.peers| - k
  {
    hide Consistent;
    ConsistentAligned(w, s);
    if k < |s.peers| && inflight < MAX_INFLIGHT {
      var p := s.peers[k];
      var i := FirstFree(s.segs, p.id, 0);
      if !p.connected || !p.filters || Busy(s.segs, p.id) || i == |s.segs| {
        ScheduleKeeps(w, s, k + 1, inflight, now, sends);
      } else {
        AssignKeeps(w, s, i, p.id, now, sends);
        var r := Assign(s, i, p.id, now, sends);
        InflightUpdate(s.segs, i, r.segs[i], |s.segs|);
        AssignUnmoved(s, i, p.id, now, sends);
        ScheduleKeeps(w, r, k + 1, inflight + 1, now, sends);
      }
    }
  }

  /** Nothing but who owns which chunk differs, and done chunks stay as they are. */
  ghost predicate Unmoved(s: Scan, r: Scan) {
    && r.floor == s.floor && r.tip == s.tip && r.contig == s.contig && r.pending == s.pending && r.last == s.last
    && r.peers == s.peers
    && r.hist == s.hist.(trails := r.hist.trails)
    && |r.segs| == |s.segs| && forall i :: 0 <= i < |s.segs| ==>
         r.segs[i].done == s.segs[i].done && r.segs[i].start == s.segs[i].start && r.segs[i].end == s.segs[i].end
  }

  lemma AssignUnmoved(s: Scan, i: nat, p: Peer, now: nat, sends: set<Peer>)
    requires Aligned(s) && i < |s.segs|
    ensures Unmoved(s, Assign(s, i, p, now, sends))
  {
  }

  lemma AssignNextKeeps(w: World, s: Scan, p: Peer, now: nat, sends: set<Peer>)
    requires Consistent(w, s) && !Busy(s.segs, p) && IsLive(s.peers, p) && Inflight(s.segs, |s.segs|) < MAX_INFLIGHT
    ensures Consistent(w, AssignNext(s, p, now, sends)) && Unmoved(s, AssignNext(s, p, now, sends))
  {
    hide Consistent;
    var i := FirstFree(s.segs, p, 0);
    ConsistentAligned(w, s);
    if i < |s.segs| {
      AssignKeeps(w, s, i, p, now, sends);
      AssignUnmoved(s, i, p, now, sends);
    }
  }

  lemma ConsistentAligned(w: World, s: Scan)
    requires Consistent(w, s)
    ensures Aligned(s)
  {
  }

  // ----- requeueing -----

  ghost function RequeuedSeg(seg: Segment): Segment {
    seg.(avoid := seg.owner, owner := None, remaining := seg.Size())
  }

  lemma {:induction false} RequeueAllIs(s: Scan, n: nat, lost: Segment -> bool)
    requires Aligned(s) && n <= |s.segs|
    ensures var r := RequeueAll(s, n, lost);
      && r == s.(segs := r.segs, hist := s.hist.(trails := r.hist.trails))
      && (forall i :: 0 <= i < |s.segs| ==>
            var taken := i < n && s.segs[i].Owned() && lost(s.segs[i]);
            && r.segs[i] == (if taken then RequeuedSeg(s.segs[i]) else s.segs[i])
            && r.hist.trails[i] == (if taken then s.hist.trails[i].(accepted := []) else s.hist.trails[i]))
  {
    if n > 0 { RequeueAllIs(s, n - 1, lost); }
  }

  lemma {:induction false} InflightShrinks(a: seq<Segment>, b: seq<Segment>, n: nat)
    requires |a| == |b| && n <= |a| && forall i :: 0 <= i < n && b[i].Owned() ==> a[i].Owned()
    ensures Inflight(b, n) <= Inflight(a, n)
  {
    if n > 0 { InflightShrinks(a, b, n - 1); }
  }

  /** Owners that are no longer live lose their chunks. */
  ghost predicate KeepsLive(lost: Segment -> bool, before: seq<PeerInfo>, after: seq<PeerInfo>) {
    forall seg: Segment :: seg.Owned() && !lost(seg) && IsLive(before, seg.owner.value) ==> IsLive(after, seg.owner.value)
  }

  lemma RequeuedOk(w: World, seg: Segment, t: Trail, checked: set<(int, Filter)>)
    requires seg.Owned() && seg.start <= seg.end && Tended(seg, t) && Covered(w, t, checked)
    ensures Tended(RequeuedSeg(seg), t.(accepted := []))
    ensures Covered(w, t.(accepted := []), checked)
  {
  }

  lemma RequeueAllKeeps(w: World, s: Scan, lost: Segment -> bool, peers: seq<PeerInfo>)
    requires Consistent(w, s.(peers := peers)) && KeepsLive(lost, peers, s.peers)
    ensures Consistent(w, RequeueAll(s, |s.segs|, lost)) && Unmoved(s, RequeueAll(s, |s.segs|, lost))
  {
    hide Fetches, Covered, Tended, IsLive, KeepsLive, OwnersLive, Single, RequeueAll;
    var v := s.(peers := peers);
    var r := RequeueAll(s, |s.segs|, lost);
    RequeueAllIs(s, |s.segs|, lost);
    forall i | 0 <= i < |r.segs| ensures ChunkOk(w, r, i) {
      assert ChunkOk(w, v, i);
      if s.segs[i].Owned() {
        RequeuedOk(w, s.segs[i], s.hist.trails[i], s.hist.checked);
      }
    }
    RequeueOwners(s.segs, r.segs, lost, peers, s.peers);
    FetchesFrame(v, r);
  }

  lemma RequeueOwners(a: seq<Segment>, b: seq<Segment>, lost: Segment -> bool, before: seq<PeerInfo>, after: seq<PeerInfo>)
    requires Single(a) && OwnersLive(a, before) && KeepsLive(lost, before, after) && |a| == |b|
    requires forall i :: 0 <= i < |a| ==> b[i] == if a[i].Owned() && lost(a[i]) then RequeuedSeg(a[i]) else a[i]
    ensures Single(b) && OwnersLive(b, after)
  {
    hide IsLive;
    InflightShrinks(a, b, |a|);
  }

  lemma RequeueKeeps(w: World, s: Scan, lost: Segment -> bool, peers: seq<PeerInfo>, now: nat, sends: set<Peer>)
    requires Consistent(w, s.(peers := peers)) && Aligned(s)
    requires KeepsLive(lost, peers, s.peers)
    ensures Consistent(w, RequeueAndSchedule(s, lost, now, sends)) && Unmoved(s, RequeueAndSchedule(s, lost, now, sends))
  {
    hide Consistent;
    RequeueAllKeeps(w, s, lost, peers);
    var r := RequeueAll(s, |s.segs|, lost);
    ScheduleKeeps(w, r, 0, Inflight(r.segs, |r.segs|), now, sends);
  }

  lemma CheckChunksKeeps(w: World, s: Scan, now: nat, sends: set<Peer>)
    requires Consistent(w, s)
    ensures Consistent(w, CheckChunks(s, now, sends)) && Unmoved(s, CheckChunks(s, now, sends))
  {
    hide Consistent;
    ConsistentAligned(w, s);
    assert s.(peers := s.peers) == s;
    RequeueKeeps(w, s, Stalled(now), s.peers, now, sends);
  }

  /** A peer that is gone leaves none of its chunks unfinished in its name. */
  lemma PeerGoneKeeps(w: World, s: Scan, p: Peer, now: nat, sends: set<Peer>)
    requires Consistent(w, s)
    ensures var r := PeerGone(s, p, now, sends);
      Consistent(w, r) && Unmoved(s.(peers := r.peers), r) && !Busy(r.segs, p)
  {
    var v := s.(peers := Disconnected(s.peers, p));
    assert v.(peers := s.peers) == s;
    LiveDisconnected(s.peers, p);
    RequeueKeeps(w, v, OwnedBy(p), s.peers, now, sends);
    var m := RequeueAndSchedule(v, OwnedBy(p), now, sends);
    LiveWithout(m.peers, p);
    PeerGoneFrame(w, m, p);
  }

  lemma PeerGoneFrame(w: World, m: Scan, p: Peer)
    requires Consistent(w, m) && forall q :: IsLive(m.peers, q) ==> IsLive(Without(m.peers, p), q) && q != p
    ensures Consistent(w, m.(peers := Without(m.peers, p))) && !Busy(m.segs, p)
  {
    var r := m.(peers := Without(m.peers, p));
    assert forall i :: 0 <= i < |m.segs| && m.segs[i].Owned() ==> IsLive(m.peers, m.segs[i].owner.value);
    assert forall i :: 0 <= i < |m.segs| ==> (ChunkOk(w, r, i) <==> ChunkOk(w, m, i));
    FetchesFrame(m, r);
  }

  lemma LiveDisconnected(peers: seq<PeerInfo>, p: Peer)
    ensures forall q: Peer :: q != p && IsLive(peers, q) ==> IsLive(Disconnected(peers, p), q)
    ensures !IsLive(Disconnected(peers, p), p)
    ensures KeepsLive(OwnedBy(p), peers, Disconnected(peers, p))
    ensures forall k :: 0 <= k < |peers| && Disconnected(peers, p)[k].id == p ==> !Disconnected(peers, p)[k].connected
  {
    forall q: Peer | q != p && IsLive(peers, q) ensures IsLive(Disconnected(peers, p), q) {
      var k :| 0 <= k < |peers| && peers[k].id == q && peers[k].connected;
      assert Disconnected(peers, p)[k] == peers[k];
    }
  }

  lemma LiveWithout(peers: seq<PeerInfo>, p: Peer)
    requires !IsLive(peers, p)
    ensures forall q: Peer :: IsLive(peers, q) ==> q != p && IsLive(Without(peers, p), q)
  {
    var r := Without(peers, p);
    forall q: Peer | IsLive(peers, q) ensures q != p && IsLive(r, q) {
      var k :| 0 <= k < |peers| && peers[k].id == q && peers[k].connected;
      assert peers[k] in r;
      var j :| 0 <= j < |r| && r[j] == peers[k];
    }
  }

  // ----- filters -----

  /** Counting a filter; the watermark is brought up to date separately. */
  lemma CountKeeps(w: World, s: Scan, idx: nat, p: Peer, h: int, now: nat)
    requires Consistent(w, s) && Mine(s.segs, idx, p) && (w.stored.Some? ==> Checked(s.hist.checked, h))
    ensures var c := Count(s, idx, h, now);
      && (var d := c.(contig := DonePrefix(c.segs, c.contig)); Consistent(w, d))
      && (!c.segs[idx].done ==> Consistent(w, c))
      && (c.segs[idx].done ==> !Busy(c.segs, p) && Inflight(c.segs, |c.segs|) < MAX_INFLIGHT)
      && forall i :: 0 <= i < |s.segs| && s.segs[i].done ==> c.segs[i].done
  {
    hide Fetches, Checked, Covered, Tended;
    var c := Count(s, idx, h, now);
    InflightUpdate(s.segs, idx, c.segs[idx], |s.segs|);
    assert ChunkOk(w, s, idx);
    CountOk(w, s, idx, h, now);
    forall i | 0 <= i < |c.segs| ensures ChunkOk(w, c, i) {
      assert ChunkOk(w, s, i);
    }
    FetchesFrame(s, c);
    var d := c.(contig := DonePrefix(c.segs, c.contig));
    assert forall i :: 0 <= i < |c.segs| ==> (ChunkOk(w, d, i) <==> ChunkOk(w, c, i));
    FetchesFrame(c, d);
  }

  lemma CountOk(w: World, s: Scan, idx: nat, h: int, now: nat)
    requires Aligned(s) && idx < |s.segs| && ChunkOk(w, s, idx) && s.segs[idx].Owned()
    requires w.stored.Some? ==> Checked(s.hist.checked, h)
    ensures ChunkOk(w, Count(s, idx, h, now), idx)
  {
    hide Checked;
  }

  /** As many different heights as the range has are all of them. */
  lemma AllHeights(xs: seq<int>, lo: int, hi: int)
    requires Distinct(xs) && (forall i :: 0 <= i < |xs| ==> lo <= xs[i] <= hi) && |xs| >= hi - lo + 1
    ensures forall h :: lo <= h <= hi ==> h in xs
  {
    hide Range;
    if lo <= hi {
      DistinctSet(xs);
      SubsetFull(Elements(xs), Range(lo, hi));
      forall h | lo <= h <= hi ensures h in xs {
        assert h in Range(lo, hi);
        assert h in Elements(xs);
      }
    }
  }

  ghost function Elements(xs: seq<int>): set<int> {
    set x | x in xs
  }

  lemma {:induction false} DistinctSet(xs: seq<int>)
    requires Distinct(xs)
    ensures |Elements(xs)| == |xs|
  {
    if xs != [] {
      var n := |xs| - 1;
      DistinctSet(xs[..n]);
      assert Elements(xs) == Elements(xs[..n]) + {xs[n]};
    }
  }

  ghost function Range(lo: int, hi: int): (r: set<int>)
    requires lo <= hi + 1
    ensures |r| == hi - lo + 1 && forall h :: h in r <==> lo <= h <= hi
    decreases hi - lo
  {
    if lo > hi then {} else Range(lo, hi - 1) + {hi}
  }

  lemma SubsetFull(a: set<int>, b: set<int>)
    requires a <= b && |a| >= |b|
    ensures a == b
  {
    assert b == a + (b - a);
  }

  /** The resume height moves strictly up, below every pending block, inside the done prefix. */
  lemma AdvanceKeeps(w: World, s: Scan)
    requires Consistent(w, s)
    ensures var r := AdvanceLast(s);
      && Consistent(w, r) && r == s.(last := r.last)
      && (r.last != s.last ==>
            && s.last < r.last && s.contig > 0 && s.floor <= r.last <= s.segs[s.contig - 1].end
            && forall i :: 0 <= i < |s.pending| ==> r.last < s.pending[i].height)
  {
    hide Fetches, Covered, Tended;
    var r := AdvanceLast(s);
    assert forall i :: 0 <= i < |s.segs| ==> ChunkOk(w, s, i) && (ChunkOk(w, r, i) <==> ChunkOk(w, s, i));
    FetchesFrame(s, r);
    if r.last != s.last {
      assert ChunkOk(w, s, s.contig - 1);
      forall i | s.contig <= i < |s.segs| ensures s.segs[i].start > r.last {
        assert ChunkOk(w, s, i);
      }
    }
  }

  lemma BookkeepKeeps(w: World, s: Scan, p: Peer, h: int, now: nat, sends: set<Peer>)
    requires Consistent(w, s) && IsLive(s.peers, p) && (w.stored.Some? ==> Checked(s.hist.checked, h))
    ensures var r := Bookkeep(s, p, h, now, sends);
      && Consistent(w, r) && r.pending == s.pending && r.peers == s.peers && r.floor == s.floor && r.tip == s.tip
      && r.hist == s.hist.(trails := r.hist.trails)
      && |r.segs| == |s.segs| && (forall i :: 0 <= i < |s.segs| && s.segs[i].done ==> r.segs[i].done)
      && LastMoved(s, r, s.pending)
  {
    hide Consistent, IsLive, Checked, Busy, Inflight, AssignNext;
    ConsistentAligned(w, s);
    var idx := ChunkIndex(s.floor, h);
    if Mine(s.segs, idx, p) {
      var c := Count(s, idx, h, now);
      CountKeeps(w, s, idx, p, h, now);
      if c.segs[idx].done {
        var d := c.(contig := DonePrefix(c.segs, c.contig));
        AdvanceKeeps(w, d);
        AssignNextKeeps(w, AdvanceLast(d), p, now, sends);
      }
    }
  }

  /** What the resume height promises when it moves from `s` to `r` with these blocks pending. */
  ghost predicate LastMoved(s: Scan, r: Scan, pending: seq<Pending>) {
    r.last != s.last ==>
      && s.last < r.last && 0 < r.contig <= |r.segs| && r.floor <= r.last <= r.segs[r.contig - 1].end
      && forall i :: 0 <= i < |pending| ==> r.last < pending[i].height
  }

  /** A further filter was compared with the stored hash. */
  lemma SeenKeeps(w: World, s: Scan, h: int, f: Filter)
    requires Consistent(w, s)
    ensures var seen := s.(hist := s.hist.(checked := s.hist.checked + {(h, f)}));
      && Consistent(w, seen) && Checked(seen.hist.checked, h)
  {
    hide Covered;
    var seen := s.(hist := s.hist.(checked := s.hist.checked + {(h, f)}));
    assert (h, f) in seen.hist.checked;
    forall i | 0 <= i < |s.segs| ensures ChunkOk(w, seen, i) {
      assert ChunkOk(w, s, i);
      CoveredMore(w, s.hist.trails[i], s.hist.checked, seen.hist.checked);
    }
    FetchesFrame(s, seen);
  }

  lemma CoveredMore(w: World, t: Trail, was: set<(int, Filter)>, now: set<(int, Filter)>)
    requires Covered(w, t, was) && was <= now
    ensures Covered(w, t, now)
  {
    assert forall h :: Checked(was, h) ==> Checked(now, h) by {
      forall h | Checked(was, h) ensures Checked(now, h) {
        var f :| (h, f) in was;
        assert (h, f) in now;
      }
    }
  }

  /** Adding an entry to the pending list. */
  lemma RecordKeeps(w: World, s: Scan, h: int, p: Peer, now: nat)
    requires Consistent(w, s)
    ensures Consistent(w, Record(s, h, p, now))
  {
    hide Covered, Tended;
    var r := Record(s, h, p, now);
    assert forall i :: 0 <= i < |s.segs| ==> ChunkOk(w, s, i) && (ChunkOk(w, r, i) <==> ChunkOk(w, s, i));
    assert r.pending[|s.pending|].height == h;
    forall x | x in r.hist.recorded ensures IsPending(r.pending, x) || x in r.hist.fed || x in r.hist.dropped {
      PendingMore(s.pending, r.pending[|s.pending|], x);
    }
  }

  lemma PendingMore(pending: seq<Pending>, e: Pending, x: int)
    ensures IsPending(pending + [e], x) <==> IsPending(pending, x) || x == e.height
  {
    var all := pending + [e];
    if IsPending(pending, x) {
      var i :| 0 <= i < |pending| && pending[i].height == x;
      assert all[i] == pending[i];
    }
    assert all[|pending|] == e;
  }

  /** What a handler owes besides the invariant: done chunks stay done, and if the resume height moved
      it moved as it should. */
  ghost predicate Progress(s: Scan, r: Scan) {
    && r.floor == s.floor && r.tip == s.tip && |r.segs| == |s.segs|
    && (forall i :: 0 <= i < |s.segs| && s.segs[i].done ==> r.segs[i].done)
    && s.hist.recorded <= r.hist.recorded && s.hist.fed <= r.hist.fed && s.hist.dropped <= r.hist.dropped
    && (r.last != s.last ==>
          && s.last < r.last && 0 < r.contig <= |r.segs| && r.floor <= r.last <= r.segs[r.contig - 1].end
          && forall h :: h in s.hist.recorded && h <= r.last ==> h in r.hist.fed || h in r.hist.dropped)
  }

  lemma HandleFilterKeeps(w: World, s: Scan, p: Peer, h: int, f: Filter, now: nat, sends: set<Peer>)
    requires Valid(w, s) && IsLive(s.peers, p)
    ensures Valid(w, HandleFilter(w, s, p, h, f, now, sends).0)
    ensures Progress(s, HandleFilter(w, s, p, h, f, now, sends).0)
  {
    hide Consistent, Bookkeep, IsLive, Checked;
    ConsistentAligned(w, s);
    if h < 0 || (w.stored.Some? && (h !in w.stored.value || w.stored.value[h] != w.hash(f))) {
    } else {
      var seen := if w.stored.Some? then s.(hist := s.hist.(checked := s.hist.checked + {(h, f)})) else s;
      if w.stored.Some? { SeenKeeps(w, s, h, f); }
      BookkeepKeeps(w, seen, p, h, now, sends);
      var b := Bookkeep(seen, p, h, now, sends);
      ConsistentFetches(w, b);
      RecordKeeps(w, b, h, p, now);
      forall c | c in b.hist.checked && (c != (h, f) || !w.matches(h, f) || w.stored.None?)
        ensures Matched(w, s.hist.recorded, c) {
        assert c in s.hist.checked || c == (h, f);
      }
    }
  }

  lemma ConsistentFetches(w: World, s: Scan)
    requires Consistent(w, s)
    ensures forall h :: h in s.hist.recorded ==> IsPending(s.pending, h) || h in s.hist.fed || h in s.hist.dropped
  {
  }

  // ----- block fetches -----

  /** Removing the first entry of a block loses no other block. */
  lemma RemoveKeepsOthers(pending: seq<Pending>, h: int)
    ensures var r := RemovePending(pending, h);
      && (forall e :: e in r ==> e in pending)
      && (forall x :: x != h && IsPending(pending, x) ==> IsPending(r, x))
  {
    var i, n := FindPending(pending, h, 0), |pending|;
    var r := RemovePending(pending, h);
    if i < n {
      forall k | 0 <= k < |r| ensures r[k] in pending {
        assert r[k] == if k == i then pending[n - 1] else pending[k];
      }
      forall x | x != h && IsPending(pending, x) ensures IsPending(r, x) {
        var k :| 0 <= k < n && pending[k].height == x;
        assert k != i;
        assert r[if k == n - 1 then i else k].height == x;
      }
    }
  }

  /** Taking an entry off the list when its block is fed or dropped. */
  lemma RemoveKeeps(w: World, s: Scan, h: int, fed: set<int>, dropped: set<int>)
    requires Consistent(w, s) && s.hist.fed <= fed && s.hist.dropped <= dropped && h in fed + dropped
    ensures Consistent(w, s.(pending := RemovePending(s.pending, h), hist := s.hist.(fed := fed, dropped := dropped)))
  {
    hide Covered, Tended, IsPending;
    var r := s.(pending := RemovePending(s.pending, h), hist := s.hist.(fed := fed, dropped := dropped));
    RemoveKeepsOthers(s.pending, h);
    assert forall i :: 0 <= i < |r.pending| ==> r.pending[i] in s.pending;
    assert forall i :: 0 <= i < |s.segs| ==> ChunkOk(w, s, i) && (ChunkOk(w, r, i) <==> ChunkOk(w, s, i));
  }

  lemma HandleBlockKeeps(w: World, s: Scan, h: int)
    requires Valid(w, s)
    ensures Valid(w, HandleBlock(s, h)) && Progress(s, HandleBlock(s, h))
  {
    hide Consistent;
    ConsistentAligned(w, s);
    RemoveKeeps(w, s, h, s.hist.fed + {h}, s.hist.dropped);
    var m := s.(pending := RemovePending(s.pending, h), hist := s.hist.(fed := s.hist.fed + {h}));
    AdvanceKeeps(w, m);
    ConsistentFetches(w, m);
  }

  /** Removing an entry and recording its block again. */
  lemma RemoveRecordKeeps(w: World, s: Scan, h: int, p: Peer, now: nat)
    requires Consistent(w, s)
    ensures Consistent(w, Record(s.(pending := RemovePending(s.pending, h)), h, p, now))
  {
    hide Covered, Tended, IsPending;
    var m := s.(pending := RemovePending(s.pending, h));
    var r := Record(m, h, p, now);
    RemoveKeepsOthers(s.pending, h);
    assert forall i :: 0 <= i < |m.pending| ==> m.pending[i] in s.pending;
    forall x | x in r.hist.recorded ensures IsPending(r.pending, x) || x in r.hist.fed || x in r.hist.dropped {
      PendingMore(m.pending, r.pending[|m.pending|], x);
    }
    assert forall i :: 0 <= i < |s.segs| ==> ChunkOk(w, s, i) && (ChunkOk(w, r, i) <==> ChunkOk(w, s, i));
  }

  lemma RetryExpiredKeeps(w: World, s: Scan, e: Pending, now: nat, sends: set<Peer>)
    requires Valid(w, s)
    ensures Valid(w, RetryExpired(s, e, now, sends)) && Progress(s, RetryExpired(s, e, now, sends))
  {
    hide Consistent, RemovePending;
    var best := RetryPeer(s.peers, e.from);
    if best.Some? && best.value in sends {
      RemoveRecordKeeps(w, s, e.height, best.value, now);
    } else {
      RemoveKeeps(w, s, e.height, s.hist.fed, s.hist.dropped + {e.height});
      assert s.hist.(fed := s.hist.fed, dropped := s.hist.dropped + {e.height}) == s.hist.(dropped := s.hist.dropped + {e.height});
    }
  }

  lemma {:induction false} RetryEachKeeps(w: World, s: Scan, es: seq<Pending>, n: nat, now: nat, sends: set<Peer>)
    requires Valid(w, s) && n <= |es|
    ensures Valid(w, RetryEach(s, es, n, now, sends)) && Progress(s, RetryEach(s, es, n, now, sends))
    ensures RetryEach(s, es, n, now, sends).last == s.last
  {
    hide Valid, RetryExpired;
    if n > 0 {
      RetryEachKeeps(w, s, es, n - 1, now, sends);
      var m := RetryEach(s, es, n - 1, now, sends);
      RetryExpiredKeeps(w, m, es[n - 1], now, sends);
      RetryExpiredStill(m, es[n - 1], now, sends);
    }
  }

  lemma RetryExpiredStill(s: Scan, e: Pending, now: nat, sends: set<Peer>)
    ensures var r := RetryExpired(s, e, now, sends);
      r.last == s.last && r.segs == s.segs && r.peers == s.peers && r.contig == s.contig
  {
  }

  lemma {:induction false} RetryAllKeeps(w: World, s: Scan, failed: Peer, hs: seq<int>, n: nat, now: nat, sends: set<Peer>)
    requires Valid(w, s) && n <= |hs|
    ensures Valid(w, RetryAll(s, failed, hs, n, now, sends)) && Progress(s, RetryAll(s, failed, hs, n, now, sends))
    ensures RetryAll(s, failed, hs, n, now, sends).last == s.last
  {
    hide Consistent;
    if n > 0 {
      RetryAllKeeps(w, s, failed, hs, n - 1, now, sends);
      var m := RetryAll(s, failed, hs, n - 1, now, sends);
      var best := RetryPeer(m.peers, failed);
      if best.Some? && best.value in sends {
        RecordKeeps(w, m, hs[n - 1], best.value, now);
      }
    }
  }

  // ----- runs -----

  /** Blocks are given by height. A peer that connects before the filter headers are there is only
      listed; when they are, work is handed out, and later peers get some as they join. */
  datatype Event =
    | FilterArrives(peer: Peer, height: int, filter: Filter)
    | BlockArrives(height: int)
    | ChunkTick
    | BlockTick
    | Connects(info: PeerInfo)
    | HeadersSynced
    | Joins(info: PeerInfo)
    | Gone(peer: Peer)
    | NotFound(peer: Peer, heights: seq<int>)

  /** An event with the time and the peers a send succeeds to. */
  datatype Timed = Timed(event: Event, now: nat, sends: set<Peer>)

  /** Filters come from peers that are connected. */
  ghost predicate Possible(s: Scan, t: Timed) {
    t.event.FilterArrives? ==> IsLive(s.peers, t.event.peer)
  }

  ghost function Step(w: World, s: Scan, t: Timed): (r: Scan)
    requires Aligned(s)
    ensures Aligned(r)
  {
    match t.event
    case FilterArrives(p, h, f) => HandleFilter(w, s, p, h, f, t.now, t.sends).0
    case BlockArrives(h) => HandleBlock(s, h)
    case ChunkTick => CheckChunks(s, t.now, t.sends)
    case BlockTick => CheckBlocks(s, t.now, t.sends)
    case Connects(info) => s.(peers := s.peers + [info])
    case HeadersSynced => Schedule(s, t.now, t.sends)
    case Joins(info) => Schedule(s.(peers := s.peers + [info]), t.now, t.sends)
    case Gone(p) => PeerGone(s, p, t.now, t.sends)
    case NotFound(p, hs) => RetryAll(s, p, hs, |hs|, t.now, t.sends)
  }

  lemma UnmovedProgress(s: Scan, r: Scan)
    requires Unmoved(s.(peers := r.peers), r)
    ensures Progress(s, r) && r.hist == s.hist.(trails := r.hist.trails)
  {
  }

  lemma JoinKeeps(w: World, s: Scan, info: PeerInfo)
    requires Consistent(w, s)
    ensures Consistent(w, s.(peers := s.peers + [info]))
  {
    hide Covered, Tended, IsLive;
    var r := s.(peers := s.peers + [info]);
    forall p: Peer | IsLive(s.peers, p) ensures IsLive(r.peers, p) {
      LiveMore(s.peers, info, p);
    }
    assert forall i :: 0 <= i < |s.segs| ==> ChunkOk(w, s, i) && (ChunkOk(w, r, i) <==> ChunkOk(w, s, i));
    FetchesFrame(s, r);
  }

  lemma ConnectKeeps(w: World, s: Scan, info: PeerInfo)
    requires Valid(w, s)
    ensures Valid(w, s.(peers := s.peers + [info])) && Progress(s, s.(peers := s.peers + [info]))
  {
    hide Consistent, MatchesRecorded;
    JoinKeeps(w, s, info);
  }

  lemma LiveMore(peers: seq<PeerInfo>, info: PeerInfo, p: Peer)
    requires IsLive(peers, p)
    ensures IsLive(peers + [info], p)
  {
    var k :| 0 <= k < |peers| && peers[k].id == p && peers[k].connected;
    assert (peers + [info])[k] == peers[k];
  }

  /** Every event keeps the invariant, undoes no chunk, and moves the resume height, if at all, strictly
      up to a height inside the done prefix such that every block recorded before at or below it
      was fed or dropped. */
  lemma StepKeeps(w: World, s: Scan, t: Timed)
    requires Valid(w, s) && Possible(s, t)
    ensures Aligned(s) && Valid(w, Step(w, s, t)) && Progress(s, Step(w, s, t))
  {
    hide Consistent, Progress, Unmoved;
    ConsistentAligned(w, s);
    var r := Step(w, s, t);
    match t.event
    case FilterArrives(p, h, f) => HandleFilterKeeps(w, s, p, h, f, t.now, t.sends);
    case BlockArrives(h) => HandleBlockKeeps(w, s, h);
    case ChunkTick =>
      CheckChunksKeeps(w, s, t.now, t.sends);
      assert s.(peers := r.peers) == s by { UnmovedPeers(s, r); }
      UnmovedProgress(s, r);
    case BlockTick =>
      var es := ExpiredAmong(s.pending, |s.pending|, t.now);
      RetryEachKeeps(w, s, es, |es|, t.now, t.sends);
    case Connects(info) => ConnectKeeps(w, s, info);
    case HeadersSynced =>
      ScheduleKeeps(w, s, 0, Inflight(s.segs, |s.segs|), t.now, t.sends);
      assert s.(peers := r.peers) == s by { UnmovedPeers(s, r); }
      UnmovedProgress(s, r);
    case Joins(info) =>
      JoinKeeps(w, s, info);
      var j := s.(peers := s.peers + [info]);
      ScheduleKeeps(w, j, 0, Inflight(s.segs, |s.segs|), t.now, t.sends);
      assert s.(peers := r.peers) == j by { UnmovedPeers(j, r); }
      UnmovedProgress(s, r);
    case Gone(p) =>
      PeerGoneKeeps(w, s, p, t.now, t.sends);
      UnmovedProgress(s, r);
    case NotFound(p, hs) => RetryAllKeeps(w, s, p, hs, |hs|, t.now, t.sends);
  }

  lemma UnmovedPeers(s: Scan, r: Scan)
    requires Unmoved(s, r)
    ensures r.peers == s.peers
  {
  }

  lemma StartValid(w: World, floor: int, tip: int, peers: seq<PeerInfo>)
    requires 0 <= floor
    ensures Valid(w, Start(floor, tip, peers))
  {
    var s := Start(floor, tip, peers);
    InflightNone(s.segs, |s.segs|);
    forall i | 0 <= i < |s.segs| ensures ChunkOk(w, s, i) {
      assert s.segs[i] == NewSegment(floor, tip, i);
    }
  }

  lemma {:induction false} InflightNone(segs: seq<Segment>, n: nat)
    requires n <= |segs| && forall i :: 0 <= i < |segs| ==> !segs[i].Owned()
    ensures Inflight(segs, n) == 0
  {
    if n > 0 { InflightNone(segs, n - 1); }
  }

  /** The state after the first `n` events. */
  ghost function Run(w: World, s: Scan, ts: seq<Timed>, n: nat): (r: Scan)
    requires Aligned(s) && n <= |ts|
    ensures Aligned(r)
  {
    if n == 0 then s else Step(w, Run(w, s, ts, n - 1), ts[n - 1])
  }

  ghost predicate Legal(w: World, s: Scan, ts: seq<Timed>)
    requires Aligned(s)
  {
    forall n :: 0 <= n < |ts| ==> Possible(Run(w, s, ts, n), ts[n])
  }

  /** Every state of every run is valid, and every event makes progress only. */
  lemma {:induction false} RunKeeps(w: World, s: Scan, ts: seq<Timed>, n: nat)
    requires Valid(w, s) && Aligned(s) && Legal(w, s, ts) && n <= |ts|
    ensures Valid(w, Run(w, s, ts, n))
    ensures n > 0 ==> Progress(Run(w, s, ts, n - 1), Run(w, s, ts, n))
    ensures s.hist.recorded <= Run(w, s, ts, n).hist.recorded && s.last <= Run(w, s, ts, n).last
    ensures Run(w, s, ts, n).floor == s.floor && Run(w, s, ts, n).tip == s.tip
  {
    hide Valid, Step;
    if n > 0 {
      RunKeeps(w, s, ts, n - 1);
      StepKeeps(w, Run(w, s, ts, n - 1), ts[n - 1]);
    }
  }

  // ----- what the invariant means -----

  /** A block recorded at any time is later still pending, or was fed, or was dropped. */
  lemma RecordedIsAccountedFor(w: World, s: Scan, ts: seq<Timed>, n: nat, h: int)
    requires Valid(w, s) && Aligned(s) && Legal(w, s, ts) && n <= |ts| && h in s.hist.recorded
    ensures var r := Run(w, s, ts, n); IsPending(r.pending, h) || h in r.hist.fed || h in r.hist.dropped
  {
    hide Run, Legal;
    RunKeeps(w, s, ts, n);
  }

  /** The filters counted in a chunk's last assignment are for different heights, all its own. */
  ghost predicate Proper(seg: Segment, t: Trail) {
    Distinct(t.accepted) && forall i :: 0 <= i < |t.accepted| ==> seg.start <= t.accepted[i] <= seg.end
  }

  /** A chunk that is done counted as many filters as it has heights in its last assignment. They
      cover it exactly if they were for different heights, all its own. */
  lemma DoneCoversExactly(w: World, s: Scan, i: nat)
    requires Valid(w, s) && Aligned(s) && i < |s.segs| && s.segs[i].done
    ensures var seg, acc := s.segs[i], s.hist.trails[i].accepted;
      (forall h :: seg.start <= h <= seg.end ==> h in acc) <==> Proper(seg, s.hist.trails[i])
  {
    assert ChunkOk(w, s, i);
    var seg, acc := s.segs[i], s.hist.trails[i].accepted;
    if Proper(seg, s.hist.trails[i]) {
      AllHeights(acc, seg.start, seg.end);
    } else if forall h :: seg.start <= h <= seg.end ==> h in acc {
      NoRepeats(acc, seg.start, seg.end);
    }
  }

  /** As many heights as the range has, all of the range among them, are different and its own. */
  lemma NoRepeats(xs: seq<int>, lo: int, hi: int)
    requires lo <= hi && |xs| == hi - lo + 1 && forall h :: lo <= h <= hi ==> h in xs
    ensures Distinct(xs) && forall i :: 0 <= i < |xs| ==> lo <= xs[i] <= hi
  {
    var r, e := Range(lo, hi), Elements(xs);
    assert r <= e;
    ElementsFew(xs);
    SubsetFull(r, e) by { SubsetSmaller(r, e); }
    assert forall i :: 0 <= i < |xs| ==> xs[i] in e;
    forall i, j | 0 <= i < j < |xs| ensures xs[i] != xs[j] {
      if xs[i] == xs[j] {
        var ys := xs[..j] + xs[j + 1..];
        ElementsFew(ys);
        assert forall k :: 0 <= k < |xs| && k != j ==> xs[k] == ys[if k < j then k else k - 1];
        assert e <= Elements(ys);
        SubsetSmaller(e, Elements(ys));
      }
    }
  }

  lemma {:induction false} ElementsFew(xs: seq<int>)
    ensures |Elements(xs)| <= |xs|
  {
    if xs != [] {
      var n := |xs| - 1;
      ElementsFew(xs[..n]);
      assert Elements(xs) == Elements(xs[..n]) + {xs[n]};
    }
  }

  lemma SubsetSmaller(a: set<int>, b: set<int>)
    requires a <= b
    ensures |a| <= |b|
  {
    assert b == a + (b - a);
  }

  /** Every height counted in a chunk had a filter with the stored hash, and its block was recorded
      if that filter matched. */
  lemma CountedIsVerified(w: World, s: Scan, i: nat, h: int)
    requires Valid(w, s) && Aligned(s) && w.stored.Some? && i < |s.segs| && h in s.hist.trails[i].accepted
    ensures exists f :: Genuine(w, h, f) && (w.matches(h, f) ==> h in s.hist.recorded)
  {
    assert ChunkOk(w, s, i);
    assert Checked(s.hist.checked, h);
    var f :| (h, f) in s.hist.checked;
    assert Matched(w, s.hist.recorded, (h, f));
  }

  /** So every height of a done chunk is verified, if its last assignment was proper. */
  lemma DoneIsVerified(w: World, s: Scan, i: nat, h: int)
    requires Valid(w, s) && Aligned(s) && w.stored.Some?
    requires i < |s.segs| && s.segs[i].done && Proper(s.segs[i], s.hist.trails[i]) && s.segs[i].start <= h <= s.segs[i].end
    ensures exists f :: Genuine(w, h, f) && (w.matches(h, f) ==> h in s.hist.recorded)
  {
    hide Valid, Genuine;
    DoneCoversExactly(w, s, i);
    CountedIsVerified(w, s, i, h);
  }

  /** The chunk of a height of the range. */
  lemma ChunkOfHeight(w: World, s: Scan, h: int)
    requires Valid(w, s) && Aligned(s) && s.floor <= h <= s.tip
    ensures var i := ChunkIndex(s.floor, h); 0 <= i < |s.segs| && s.segs[i].start <= h <= s.segs[i].end
  {
    var i := ChunkIndex(s.floor, h);
    assert 0 <= i < |s.segs|;
    assert ChunkOk(w, s, i);
  }

  /** The chunk of a height is behind the watermark, or behind a resume height that has moved. */
  ghost predicate Behind(s: Scan, h: int) {
    (0 < s.contig <= |s.segs| && h <= s.segs[s.contig - 1].end) || (s.last > s.floor && h <= s.last)
  }

  lemma BehindIsDone(w: World, s: Scan, h: int)
    requires Valid(w, s) && Aligned(s) && s.floor <= h <= s.tip && Behind(s, h)
    ensures var i := ChunkIndex(s.floor, h); 0 <= i < |s.segs| && s.segs[i].done && s.segs[i].start <= h <= s.segs[i].end
  {
    hide Covered, Tended, Single, Fetches;
    ChunkOfHeight(w, s, h);
    var i := ChunkIndex(s.floor, h);
    assert ChunkOk(w, s, i);
    if 0 < s.contig <= |s.segs| && h <= s.segs[s.contig - 1].end {
      assert ChunkOk(w, s, s.contig - 1);
      assert i < s.contig;
    }
  }

  /** The last assignment of the chunk of a height was proper. */
  ghost predicate ProperAt(s: Scan, h: int) {
    var i := ChunkIndex(s.floor, h);
    0 <= i < |s.segs| && |s.hist.trails| == |s.segs| && Proper(s.segs[i], s.hist.trails[i])
  }

  /** The watermark: every height from the floor to the end of the done prefix, and every height up
      to a resume height that has moved, is verified if its own chunk's last assignment was proper,
      whatever happened in other chunks or in earlier assignments. */
  lemma WatermarkIsVerified(w: World, s: Scan, h: int)
    requires Valid(w, s) && Aligned(s) && w.stored.Some? && s.floor <= h <= s.tip && Behind(s, h) && ProperAt(s, h)
    ensures exists f :: Genuine(w, h, f) && (w.matches(h, f) ==> h in s.hist.recorded)
  {
    hide Valid, Genuine, Behind;
    BehindIsDone(w, s, h);
    DoneIsVerified(w, s, ChunkIndex(s.floor, h), h);
  }

  /** A scan that is over has fed the block of a height whose filter matched, or dropped it, if the
      height's chunk was proper. */
  lemma CompleteScan(w: World, s: Scan, h: int)
    requires Valid(w, s) && Aligned(s) && w.stored.Some? && s.contig == |s.segs| && s.pending == []
    requires s.floor <= h <= s.tip && ProperAt(s, h)
    ensures exists f :: Genuine(w, h, f) && (w.matches(h, f) ==> h in s.hist.fed || h in s.hist.dropped)
  {
    hide Genuine, Proper, Covered, Tended, Single;
    ChunkOfHeight(w, s, h);
    var i := ChunkIndex(s.floor, h);
    DoneIsVerified(w, s, i, h);
  }

  /** Two assignments in a row of one chunk go to different peers, an unfinished chunk counts
      down from its size, and no two unfinished chunks have the same owner. */
  lemma SchedulerSafe(w: World, s: Scan, i: nat, j: nat)
    requires Valid(w, s) && i < |s.segs| && j < |s.segs|
    ensures Alternate(s.hist.trails[i].owners)
    ensures !s.segs[i].done ==> 1 <= s.segs[i].remaining <= s.segs[i].Size() <= 1000
    ensures s.segs[i].Owned() ==> IsLive(s.peers, s.segs[i].owner.value)
    ensures i != j && s.segs[i].Owned() && s.segs[j].Owned() ==> s.segs[i].owner != s.segs[j].owner
    ensures Inflight(s.segs, |s.segs|) <= 64
  {
    hide Covered, IsLive;
    assert ChunkOk(w, s, i) && ChunkOk(w, s, j);
  }

  // ----- a crash, and the scan that starts from the resume height -----

  /** A scan that starts again covers exactly the heights from the resume height on. */
  lemma RestartCovers(last: int, tip: int, peers: seq<PeerInfo>, h: int)
    ensures var segs := Start(last, tip, peers).segs;
      (exists i :: 0 <= i < |segs| && segs[i].start <= h <= segs[i].end) <==> last <= h <= tip
  {
    var segs := Start(last, tip, peers).segs;
    if last <= h <= tip {
      var i := ChunkIndex(last, h);
      assert 0 <= i < |segs| && segs[i] == NewSegment(last, tip, i);
    }
    assert forall i :: 0 <= i < |segs| ==> segs[i] == NewSegment(last, tip, i);
  }

  /** What a crash needs: no pending block is below the resume height, from which the next scan
      starts. */
  ghost predicate PendingAbove(s: Scan) {
    forall i :: 0 <= i < |s.pending| ==> s.last <= s.pending[i].height
  }

  predicate Accepted(w: World, h: int, f: Filter) {
    h >= 0 && (w.stored.None? || Genuine(w, h, f))
  }

  /** A filter for `h` from `p` is the last one missing in the done prefix, which then goes on past
      `h`: the filter's chunk is the first that is not done and lacks one filter, and `h` is not its
      last height, or the next chunk is done. */
  predicate Completes(s: Scan, p: Peer, h: int) {
    var i := ChunkIndex(s.floor, h);
    && Mine(s.segs, i, p) && s.segs[i].remaining == 1 && (forall j :: 0 <= j < i ==> s.segs[j].done)
    && (h < s.segs[i].end || (i + 1 < |s.segs| && s.segs[i + 1].done))
  }

  /** The resume height is past `h`, or will be once the filter is counted. */
  predicate Overtaken(s: Scan, p: Peer, h: int) {
    h < s.last || (h <= s.tip && Completes(s, p, h) && forall k :: 0 <= k < |s.pending| ==> h + 1 < s.pending[k].height)
  }

  /** Where the resume height stands after the bookkeeping for a filter. */
  ghost function LastAfter(s: Scan, p: Peer, h: int): int
    requires Aligned(s)
  {
    var idx := ChunkIndex(s.floor, h);
    if !Mine(s.segs, idx, p) || s.segs[idx].remaining > 1 then s.last
    else
      var contig := DonePrefix(s.segs[idx := s.segs[idx].(done := true)], s.contig);
      if contig == 0 then s.last
      else
        var safe := Min(s.segs[contig - 1].end, MinPending(s.pending, |s.pending|) - 1);
        if safe < s.floor || safe <= s.last || !Reachable(safe) then s.last else safe
  }

  lemma OvertakenExact(w: World, s: Scan, p: Peer, h: int)
    requires Valid(w, s) && Aligned(s) && s.tip < INT_MAX
    ensures h < LastAfter(s, p, h) <==> Overtaken(s, p, h)
  {
    hide Covered, Fetches, Single, OwnersLive, MatchesRecorded;
    var idx := ChunkIndex(s.floor, h);
    if s.last <= h && Mine(s.segs, idx, p) && s.segs[idx].remaining <= 1 {
      assert ChunkOk(w, s, idx);
      var segs := s.segs[idx := s.segs[idx].(done := true)];
      var contig := DonePrefix(segs, s.contig);
      assert s.contig <= idx;
      if contig > 0 { assert ChunkOk(w, s, contig - 1); }
      if idx == s.contig {
        assert contig > idx;
        assert contig > idx + 1 ==> segs[idx + 1].done;
        assert idx + 1 < |segs| && segs[idx + 1].done ==> contig > idx + 1;
      } else {
        assert contig == s.contig;
      }
    } else if Mine(s.segs, idx, p) {
      assert ChunkOk(w, s, idx);
    }
  }

  lemma {:induction false} DonePrefixSame(a: seq<Segment>, b: seq<Segment>, i: nat)
    requires |a| == |b| && i <= |a| && forall j :: 0 <= j < |a| ==> a[j].done == b[j].done
    ensures DonePrefix(a, i) == DonePrefix(b, i)
    decreases |a| - i
  {
    if i < |a| && a[i].done { DonePrefixSame(a, b, i + 1); }
  }

  lemma LastAfterIs(w: World, s: Scan, p: Peer, h: int, now: nat, sends: set<Peer>)
    requires Aligned(s)
    ensures Bookkeep(s, p, h, now, sends).last == LastAfter(s, p, h)
    ensures Bookkeep(s, p, h, now, sends).pending == s.pending
  {
    var idx := ChunkIndex(s.floor, h);
    if Mine(s.segs, idx, p) {
      var c := Count(s, idx, h, now);
      DonePrefixSame(c.segs, s.segs[idx := s.segs[idx].(done := c.segs[idx].done)], s.contig);
    }
  }

  /** The handler moves the resume height before it matches the filter, so it leaves a block to fetch
      below it exactly if the filter matches at a height that is overtaken. */
  lemma FilterKeepsPendingAbove(w: World, s: Scan, p: Peer, h: int, f: Filter, now: nat, sends: set<Peer>)
    requires Valid(w, s) && Aligned(s) && IsLive(s.peers, p) && PendingAbove(s) && s.tip < INT_MAX
    ensures PendingAbove(HandleFilter(w, s, p, h, f, now, sends).0) <==>
            !(Accepted(w, h, f) && w.matches(h, f) && Overtaken(s, p, h))
  {
    hide Consistent, Bookkeep, IsLive, MatchesRecorded, Overtaken, LastAfter;
    if Accepted(w, h, f) {
      OvertakenExact(w, s, p, h);
      var seen := if w.stored.Some? then s.(hist := s.hist.(checked := s.hist.checked + {(h, f)})) else s;
      if w.stored.Some? { SeenKeeps(w, s, h, f); }
      BookkeepKeeps(w, seen, p, h, now, sends);
      LastAfterIs(w, seen, p, h, now, sends);
      LastAfterSame(s, seen, p, h);
      var b := Bookkeep(seen, p, h, now, sends);
      var r := Record(b, h, p, now);
      assert r.pending[|s.pending|].height == h;
      assert forall i :: 0 <= i < |s.pending| ==> r.pending[i] == s.pending[i];
    }
  }

  lemma LastAfterSame(s: Scan, r: Scan, p: Peer, h: int)
    requires Aligned(s) && Aligned(r) && r == s.(hist := r.hist)
    ensures LastAfter(r, p, h) == LastAfter(s, p, h)
  {
  }

  /** Every other event leaves none below it, if "not found" answers name pending blocks. */
  lemma OthersKeepPendingAbove(w: World, s: Scan, t: Timed)
    requires Valid(w, s) && Aligned(s) && PendingAbove(s) && !t.event.FilterArrives?
    requires t.event.NotFound? ==> forall h :: h in t.event.heights ==> IsPending(s.pending, h)
    ensures PendingAbove(Step(w, s, t))
  {
    hide Consistent, MatchesRecorded, IsPending;
    match t.event
    case BlockArrives(h) =>
      RemoveKeeps(w, s, h, s.hist.fed + {h}, s.hist.dropped);
      var m := s.(pending := RemovePending(s.pending, h), hist := s.hist.(fed := s.hist.fed + {h}));
      RemoveKeepsOthers(s.pending, h);
      AdvanceKeeps(w, m);
      assert forall i :: 0 <= i < |m.pending| ==> m.pending[i] in s.pending;
    case ChunkTick => CheckChunksKeeps(w, s, t.now, t.sends);
    case BlockTick =>
      var es := ExpiredAmong(s.pending, |s.pending|, t.now);
      assert forall k :: 0 <= k < |es| ==> es[k] in s.pending;
      RetryEachAbove(s, es, |es|, t.now, t.sends);
    case Connects(info) =>
    case HeadersSynced => ScheduleKeeps(w, s, 0, Inflight(s.segs, |s.segs|), t.now, t.sends);
    case Joins(info) =>
      JoinKeeps(w, s, info);
      ScheduleKeeps(w, s.(peers := s.peers + [info]), 0, Inflight(s.segs, |s.segs|), t.now, t.sends);
    case Gone(p) => PeerGoneKeeps(w, s, p, t.now, t.sends);
    case NotFound(p, hs) =>
      forall k | 0 <= k < |hs| ensures s.last <= hs[k] {
        assert IsPending(s.pending, hs[k]);
        PendingIsAbove(s, hs[k]);
      }
      RetryAllAbove(s, p, hs, |hs|, t.now, t.sends);
  }

  /** No matching filter arrives for a height that is overtaken, and "not found" answers name blocks
      that were requested. */
  ghost predicate Gentle(w: World, s: Scan, t: Timed) {
    match t.event
    case FilterArrives(p, h, f) => !(Accepted(w, h, f) && w.matches(h, f) && Overtaken(s, p, h))
    case NotFound(p, hs) => forall h :: h in hs ==> IsPending(s.pending, h)
    case _ => true
  }

  /** Then a crash at any time of the run loses no block that is still to be fetched. */
  lemma {:induction false} RunKeepsPendingAbove(w: World, s: Scan, ts: seq<Timed>, n: nat)
    requires Valid(w, s) && Aligned(s) && Legal(w, s, ts) && n <= |ts| && PendingAbove(s) && s.tip < INT_MAX
    requires forall k :: 0 <= k < n ==> Gentle(w, Run(w, s, ts, k), ts[k])
    ensures PendingAbove(Run(w, s, ts, n))
  {
    hide Valid, PendingAbove, Gentle, Possible, Step;
    if n > 0 {
      RunKeepsPendingAbove(w, s, ts, n - 1);
      RunKeeps(w, s, ts, n - 1);
      StepKeepsPendingAbove(w, Run(w, s, ts, n - 1), ts[n - 1]);
    }
  }

  lemma StepKeepsPendingAbove(w: World, s: Scan, t: Timed)
    requires Valid(w, s) && Aligned(s) && Possible(s, t) && PendingAbove(s) && s.tip < INT_MAX && Gentle(w, s, t)
    ensures PendingAbove(Step(w, s, t))
  {
    hide Valid, PendingAbove, Overtaken, Accepted, HandleFilter;
    if t.event.FilterArrives? {
      FilterKeepsPendingAbove(w, s, t.event.peer, t.event.height, t.event.filter, t.now, t.sends);
    } else {
      OthersKeepPendingAbove(w, s, t);
    }
  }

  lemma PendingIsAbove(s: Scan, h: int)
    requires PendingAbove(s) && IsPending(s.pending, h)
    ensures s.last <= h
  {
  }

  lemma {:induction false} RetryEachAbove(s: Scan, es: seq<Pending>, n: nat, now: nat, sends: set<Peer>)
    requires PendingAbove(s) && n <= |es| && forall k :: 0 <= k < |es| ==> s.last <= es[k].height
    ensures PendingAbove(RetryEach(s, es, n, now, sends)) && RetryEach(s, es, n, now, sends).last == s.last
  {
    hide RetryPeer, RemovePending;
    if n > 0 {
      RetryEachAbove(s, es, n - 1, now, sends);
      var m := RetryEach(s, es, n - 1, now, sends);
      RemoveKeepsOthers(m.pending, es[n - 1].height);
      var left := RemovePending(m.pending, es[n - 1].height);
      assert forall i :: 0 <= i < |left| ==> left[i] in m.pending;
    }
  }

  lemma {:induction false} RetryAllAbove(s: Scan, p: Peer, hs: seq<int>, n: nat, now: nat, sends: set<Peer>)
    requires PendingAbove(s) && n <= |hs| && forall k :: 0 <= k < |hs| ==> s.last <= hs[k]
    ensures PendingAbove(RetryAll(s, p, hs, n, now, sends)) && RetryAll(s, p, hs, n, now, sends).last == s.last
  {
    if n > 0 { RetryAllAbove(s, p, hs, n - 1, now, sends); }
  }

  /** A chunk of two heights whose filters arrive in the other order: the last one, for height 1,
      matches, but the resume height is at 2 before its fetch is recorded. After a crash now no scan
      looks at height 1 again. */
  lemma LastPassesMatch(w: World, f: Filter, g: Filter, tip: int, peers: seq<PeerInfo>)
    requires w.stored == Some(map[1 := w.hash(f), 2 := w.hash(g)]) && w.matches(1, f) && !w.matches(2, g)
    ensures var s := Start(1, 2, []);
      var peer := PeerInfo(0, true, true, true, false);
      var ts := [Timed(Joins(peer), 0, {0}), Timed(FilterArrives(0, 2, g), 0, {0}), Timed(FilterArrives(0, 1, f), 0, {0})];
      && Legal(w, s, ts)
      && var r := Run(w, s, ts, 3);
         r.last == 2 && IsPending(r.pending, 1) && r.hist.fed == {}
         && forall i :: 0 <= i < |Start(r.last, tip, peers).segs| ==> Start(r.last, tip, peers).segs[i].start > 1
  {
    var s := Start(1, 2, []);
    var peer := PeerInfo(0, true, true, true, false);
    var ts := [Timed(Joins(peer), 0, {0}), Timed(FilterArrives(0, 2, g), 0, {0}), Timed(FilterArrives(0, 1, f), 0, {0})];
    OnePeer(w, s, peer);
    Steps(w, s, ts);
    var one, two, three := Run(w, s, ts, 1), Run(w, s, ts, 2), Run(w, s, ts, 3);
    OwnFilter(w, one, 2, g);
    OwnFilter(w, two, 1, f);
    assert three.pending[0].height == 1;
    forall n | 0 <= n < |ts| ensures Possible(Run(w, s, ts, n), ts[n]) {
      assert n == 0 || n == 1 || n == 2;
    }
  }

  lemma Steps(w: World, s: Scan, ts: seq<Timed>)
    requires Aligned(s) && |ts| >= 2
    ensures Run(w, s, ts, 0) == s && Run(w, s, ts, 1) == Step(w, s, ts[0])
    ensures Run(w, s, ts, 2) == Step(w, Run(w, s, ts, 1), ts[1])
    ensures |ts| >= 3 ==> Run(w, s, ts, 3) == Step(w, Run(w, s, ts, 2), ts[2])
    ensures |ts| >= 4 ==> Run(w, s, ts, 4) == Step(w, Run(w, s, ts, 3), ts[3])
  {
    hide Step;
  }

  /** A single filter peer that joins a scan of one chunk is given that chunk. */
  lemma OnePeer(w: World, s: Scan, peer: PeerInfo)
    requires Aligned(s) && s.peers == [] && |s.segs| == 1 && s.segs[0].FreeFor(peer.id) && peer.connected && peer.filters
    ensures var j := s.(peers := [peer]);
      Step(w, s, Timed(Joins(peer), 0, {peer.id})) == Assign(j, 0, peer.id, 0, {peer.id})
      && IsLive(j.peers, peer.id)
  {
    var j := s.(peers := [peer]);
    assert s.peers + [peer] == [peer];
    assert j.peers[0] == peer;
    assert Inflight(s.segs, 1) == 0 by { assert Inflight(s.segs, 0) == 0; }
    assert FirstFree(s.segs, peer.id, 0) == 0;
    var a := Assign(j, 0, peer.id, 0, {peer.id});
    assert ScheduleFrom(a, 1, 1, 0, {peer.id}) == a;
    assert ScheduleFrom(j, 0, 0, 0, {peer.id}) == a;
  }

  /** What an improper assignment does: an owner that sends one filter three times finishes a chunk
      of three heights. Nobody ever checked height 2, and a scan that starts again does not either. */
  lemma DuplicateFinishesChunk(w: World, f: Filter, tip: int, peers: seq<PeerInfo>)
    requires w.stored.Some? && Genuine(w, 1, f) && !w.matches(1, f)
    ensures var s := Start(1, 3, []);
      var peer := PeerInfo(0, true, true, true, false);
      var same := Timed(FilterArrives(0, 1, f), 0, {0});
      var ts := [Timed(Joins(peer), 0, {0}), same, same, same];
      && Legal(w, s, ts)
      && var r := Run(w, s, ts, 4);
         |r.segs| == 1 && r.segs[0].done && !Checked(r.hist.checked, 2) && r.last == 3
         && forall i :: 0 <= i < |Start(r.last, tip, peers).segs| ==> Start(r.last, tip, peers).segs[i].start > 2
  {
    var s := Start(1, 3, []);
    var peer := PeerInfo(0, true, true, true, false);
    var same := Timed(FilterArrives(0, 1, f), 0, {0});
    var ts := [Timed(Joins(peer), 0, {0}), same, same, same];
    OnePeer(w, s, peer);
    Steps(w, s, ts);
    var one, two, three := Run(w, s, ts, 1), Run(w, s, ts, 2), Run(w, s, ts, 3);
    OwnFilter(w, one, 1, f);
    OwnFilter(w, two, 1, f);
    OwnFilter(w, three, 1, f);
    forall n | 0 <= n < |ts| ensures Possible(Run(w, s, ts, n), ts[n]) {
      assert n == 0 || n == 1 || n == 2 || n == 3;
    }
  }

  /** The owner of the only chunk sends a filter for one of its heights. */
  lemma OwnFilter(w: World, s: Scan, h: int, f: Filter)
    requires Aligned(s) && s.floor == 1 && |s.segs| == 1 && 1 <= h <= s.segs[0].end && 2 <= s.segs[0].end <= BATCH
    requires Mine(s.segs, 0, 0) && Genuine(w, h, f) && s.contig == 0 && s.pending == [] && s.last == 1
    ensures var r := HandleFilter(w, s, 0, h, f, 0, {0}).0;
      && r.hist.checked == s.hist.checked + {(h, f)} && |r.segs| == 1 && r.floor == 1 && r.peers == s.peers
      && r.segs[0].end == s.segs[0].end && r.segs[0].owner == Some(0) && r.segs[0].remaining == s.segs[0].remaining - 1
      && r.pending == (if w.matches(h, f) then [Pending(h, 0, 0)] else []) && r.hist.fed == s.hist.fed
      && if s.segs[0].remaining <= 1 then r.segs[0].done && r.last == s.segs[0].end
         else !r.segs[0].done && r.contig == 0 && r.last == 1
  {
    var seen := s.(hist := s.hist.(checked := s.hist.checked + {(h, f)}));
    assert ChunkIndex(1, h) == 0;
    var c := Count(seen, 0, h, 0);
    if c.segs[0].done {
      var d := c.(contig := DonePrefix(c.segs, c.contig));
      assert FirstFree(c.segs, 0, 0) == 1;
      assert AssignNext(AdvanceLast(d), 0, 0, {0}) == AdvanceLast(d);
    }
  }

  // ----- any number of crashes -----

  /** One start of the program: the scan begins at `floor`, and these events happen before the program
      ends in some way. */
  datatype Session = Session(w: World, floor: int, tip: int, peers: seq<PeerInfo>, ts: seq<Timed>)

  ghost function StartOf(x: Session): (s: Scan)
    ensures Aligned(s)
  {
    Start(x.floor, x.tip, x.peers)
  }

  ghost function EndOf(x: Session): (s: Scan)
    ensures Aligned(s)
  {
    Run(x.w, StartOf(x), x.ts, |x.ts|)
  }

  /** Each session starts at a resume height that the one before it reached, not always the last. */
  ghost predicate Successive(ss: seq<Session>) {
    && (forall k :: 0 <= k < |ss| ==> 0 <= ss[k].floor && Legal(ss[k].w, StartOf(ss[k]), ss[k].ts))
    && forall k, m :: 0 <= k < m <= k + 1 && m < |ss| ==> ss[k].floor <= ss[m].floor <= EndOf(ss[k]).last
  }

  lemma SessionValid(x: Session)
    requires 0 <= x.floor && Legal(x.w, StartOf(x), x.ts)
    ensures Valid(x.w, EndOf(x)) && EndOf(x).floor == x.floor && EndOf(x).tip == x.tip
  {
    hide Legal, Run, Valid;
    StartValid(x.w, x.floor, x.tip, x.peers);
    RunKeeps(x.w, StartOf(x), x.ts, |x.ts|);
  }

  /** The last session that started at or below a height. */
  lemma {:induction false} SessionOf(ss: seq<Session>, n: nat, h: int) returns (k: nat)
    requires 0 < n <= |ss| && ss[0].floor <= h
    ensures k < n && ss[k].floor <= h && (k + 1 < n ==> h < ss[k + 1].floor)
  {
    if ss[n - 1].floor <= h { return n - 1; }
    k := SessionOf(ss, n - 1, h);
  }

  /** What became of a height in a session: a filter with the stored hash was checked, and if it
      matched, its block was fed or dropped, or is being fetched. */
  ghost predicate Settled(x: Session, h: int) {
    exists f :: Genuine(x.w, h, f) &&
      (x.w.matches(h, f) ==> h in EndOf(x).hist.fed || h in EndOf(x).hist.dropped || IsPending(EndOf(x).pending, h))
  }

  /** Over any number of crashes, each followed by a scan from a resume height that was saved, until
      a scan is over: every height is settled in the last session that started at or below it, if its
      chunk was proper there. A match is only lost if it was dropped, or if a crash found it pending
      below the resume height, which `FilterKeepsPendingAbove` says when it happens. */
  lemma CrashesLoseOnlyPendingBelow(ss: seq<Session>, h: int) returns (k: nat)
    requires ss != [] && Successive(ss) && ss[0].floor <= h <= ss[|ss| - 1].tip
    requires var r := EndOf(ss[|ss| - 1]); r.contig == |r.segs| && r.pending == []
    ensures k < |ss| && ss[k].floor <= h <= ss[k].tip && (k + 1 < |ss| ==> h < ss[k + 1].floor <= EndOf(ss[k]).last)
    ensures ss[k].w.stored.Some? && ProperAt(EndOf(ss[k]), h) ==> Settled(ss[k], h)
    ensures PendingAbove(EndOf(ss[k])) ==> !IsPending(EndOf(ss[k]).pending, h)
  {
    hide Run, Legal, Genuine, ProperAt;
    k := SessionOf(ss, |ss|, h);
    var x, r := ss[k], EndOf(ss[k]);
    SessionValid(x);
    assert k + 1 < |ss| ==> x.floor <= ss[k + 1].floor <= r.last;
    InsideSession(x, h, k + 1 == |ss|);
    if x.w.stored.Some? && ProperAt(r, h) {
      WatermarkIsVerified(x.w, r, h);
      ConsistentFetches(x.w, r);
    }
  }

  /** A height that the next session does not look at, or that a finished scan covered, is behind the
      watermark or the resume height. */
  lemma InsideSession(x: Session, h: int, over: bool)
    requires var r := EndOf(x);
      && Valid(x.w, r) && r.floor == x.floor && r.tip == x.tip && x.floor <= h
      && if over then r.contig == |r.segs| && h <= x.tip else h < r.last
    ensures h <= x.tip && Behind(EndOf(x), h)
  {
    hide Run, Covered, Tended, Single, Fetches, MatchesRecorded, OwnersLive;
    var r := EndOf(x);
    if over {
      ChunkOfHeight(x.w, r, h);
      assert ChunkOk(x.w, r, |r.segs| - 1);
    }
  }

  // ----- what a tick forgets -----

  /** How many of the first `n` fetches are for a block. */
  ghost function Outstanding(ps: seq<Pending>, n: nat, h: int): nat
    requires n <= |ps|
  {
    if n == 0 then 0 else Outstanding(ps, n - 1, h) + if ps[n - 1].height == h then 1 else 0
  }

  /** A new request for the block reaches another peer. */
  ghost predicate Resent(s: Scan, e: Pending, sends: set<Peer>) {
    RetryPeer(s.peers, e.from).Some? && RetryPeer(s.peers, e.from).value in sends
  }

  /** How many of the first `n` expired fetches were for a block and cannot be sent again. */
  ghost function Lost(s: Scan, es: seq<Pending>, n: nat, h: int, sends: set<Peer>): nat
    requires n <= |es|
  {
    if n == 0 then 0
    else Lost(s, es, n - 1, h, sends) + if es[n - 1].height == h && !Resent(s, es[n - 1], sends) then 1 else 0
  }

  lemma {:induction false} OutstandingUpdate(ps: seq<Pending>, i: nat, e: Pending, n: nat, h: int)
    requires i < |ps| && n <= |ps|
    ensures Outstanding(ps[i := e], n, h) == Outstanding(ps, n, h)
      + (if i < n then (if e.height == h then 1 else 0) - (if ps[i].height == h then 1 else 0) else 0)
  {
    if n > 0 { OutstandingUpdate(ps, i, e, n - 1, h); }
  }

  lemma {:induction false} OutstandingPrefix(a: seq<Pending>, b: seq<Pending>, n: nat, h: int)
    requires n <= |a| && n <= |b| && forall i :: 0 <= i < n ==> a[i] == b[i]
    ensures Outstanding(a, n, h) == Outstanding(b, n, h)
  {
    if n > 0 { OutstandingPrefix(a, b, n - 1, h); }
  }

  /** A removal takes out one fetch for its block, if there is one, and none for another block. */
  lemma RemoveOutstanding(ps: seq<Pending>, x: int, h: int)
    ensures var r := RemovePending(ps, x);
      Outstanding(r, |r|, h) == Outstanding(ps, |ps|, h) - if x == h && IsPending(ps, h) then 1 else 0
  {
    var i, n := FindPending(ps, x, 0), |ps|;
    if i < n {
      OutstandingUpdate(ps, i, ps[n - 1], n - 1, h);
      OutstandingPrefix(ps[i := ps[n - 1]], RemovePending(ps, x), n - 1, h);
    }
  }

  lemma {:induction false} OutstandingIsPending(ps: seq<Pending>, n: nat, h: int)
    requires n <= |ps| && Outstanding(ps, n, h) > 0
    ensures IsPending(ps, h)
  {
    if ps[n - 1].height != h { OutstandingIsPending(ps, n - 1, h); }
  }

  /** What was found expired is among what is pending. */
  lemma {:induction false} ExpiredOutstanding(ps: seq<Pending>, n: nat, now: nat, h: int)
    requires n <= |ps|
    ensures var es := ExpiredAmong(ps, n, now); Outstanding(es, |es|, h) <= Outstanding(ps, n, h)
  {
    if n > 0 {
      ExpiredOutstanding(ps, n - 1, now, h);
      var was, es := ExpiredAmong(ps, n - 1, now), ExpiredAmong(ps, n, now);
      OutstandingPrefix(was, es, |was|, h);
    }
  }

  lemma {:induction false} LostFew(s: Scan, es: seq<Pending>, n: nat, h: int, sends: set<Peer>)
    requires n <= |es|
    ensures Lost(s, es, n, h, sends) <= Outstanding(es, n, h)
  {
    if n > 0 { LostFew(s, es, n - 1, h, sends); }
  }

  lemma {:induction false} OutstandingGrows(es: seq<Pending>, m: nat, n: nat, h: int)
    requires m <= n <= |es|
    ensures Outstanding(es, m, h) <= Outstanding(es, n, h)
  {
    if m < n { OutstandingGrows(es, m, n - 1, h); }
  }

  lemma RetryExpiredOutstanding(s: Scan, e: Pending, now: nat, sends: set<Peer>, h: int)
    requires IsPending(s.pending, e.height)
    ensures var r := RetryExpired(s, e, now, sends);
      && Outstanding(r.pending, |r.pending|, h) ==
         Outstanding(s.pending, |s.pending|, h) - (if e.height == h && !Resent(s, e, sends) then 1 else 0)
      && (if e.height == h && !Resent(s, e, sends) then h in r.hist.dropped else h in s.hist.dropped ==> h in r.hist.dropped)
  {
    hide RemovePending, RetryPeer;
    RemoveOutstanding(s.pending, e.height, h);
    var removed, r := RemovePending(s.pending, e.height), RetryExpired(s, e, now, sends);
    OutstandingPrefix(removed, r.pending, |removed|, h);
  }

  lemma {:induction false} RetryEachOutstanding(s: Scan, es: seq<Pending>, n: nat, now: nat, sends: set<Peer>, h: int)
    requires n <= |es| && forall x :: Outstanding(es, |es|, x) <= Outstanding(s.pending, |s.pending|, x)
    ensures var r := RetryEach(s, es, n, now, sends);
      && r.peers == s.peers
      && Outstanding(r.pending, |r.pending|, h) == Outstanding(s.pending, |s.pending|, h) - Lost(s, es, n, h, sends)
      && (Lost(s, es, n, h, sends) > 0 ==> h in r.hist.dropped)
  {
    hide RetryExpired, RetryPeer;
    if n > 0 {
      var m, e := RetryEach(s, es, n - 1, now, sends), es[n - 1];
      RetryEachOutstanding(s, es, n - 1, now, sends, h);
      RetryEachOutstanding(s, es, n - 1, now, sends, e.height);
      LostFew(s, es, n - 1, e.height, sends);
      OutstandingGrows(es, n, |es|, e.height);
      OutstandingIsPending(m.pending, |m.pending|, e.height);
      RetryExpiredOutstanding(m, e, now, sends, h);
      RetryExpiredStill(m, e, now, sends);
    }
  }

  /** A tick forgets exactly those of the expired fetches it looked at that cannot be sent again,
      because no other connected full node is left or the request does not go out; the
      description of the retry has them stay pending. */
  lemma TimeoutForgets(s: Scan, now: nat, sends: set<Peer>, h: int)
    ensures var r, es := CheckBlocks(s, now, sends), ExpiredAmong(s.pending, |s.pending|, now);
      && Outstanding(r.pending, |r.pending|, h) == Outstanding(s.pending, |s.pending|, h) - Lost(s, es, |es|, h, sends)
      && (Lost(s, es, |es|, h, sends) > 0 ==> h in r.hist.dropped)
  {
    var es := ExpiredAmong(s.pending, |s.pending|, now);
    forall x ensures Outstanding(es, |es|, x) <= Outstanding(s.pending, |s.pending|, x) {
      ExpiredOutstanding(s.pending, |s.pending|, now, x);
    }
    RetryEachOutstanding(s, es, |es|, now, sends, h);
  }

  /** A connected full node other than the one that failed. */
  ghost predicate CanServe(q: PeerInfo, failed: Peer) {
    q.id != failed && q.connected && q.network
  }

  /** A retry finds no peer exactly if there is no other connected full node, and goes to a limited
      one only if all of them are limited; of those it may go to, it goes to the first. */
  lemma RetryPrefersFull(peers: seq<PeerInfo>, failed: Peer)
    ensures RetryPeer(peers, failed).None? <==> forall k :: 0 <= k < |peers| ==> !CanServe(peers[k], failed)
    ensures RetryPeer(peers, failed).Some? ==>
      exists k :: 0 <= k < |peers| && peers[k].id == RetryPeer(peers, failed).value && CanServe(peers[k], failed)
                  && (peers[k].limited ==> forall j :: 0 <= j < |peers| && CanServe(peers[j], failed) ==> peers[j].limited)
                  && forall j :: 0 <= j < k && CanServe(peers[j], failed) ==> peers[j].limited && !peers[k].limited
  {
    var full := FirstPeer(peers, failed, false, 0);
    var any := FirstPeer(peers, failed, true, 0);
    assert forall j :: 0 <= j < |peers| ==>
      (CanServe(peers[j], failed) <==> Candidate(peers[j], failed, true))
      && (CanServe(peers[j], failed) && !peers[j].limited <==> Candidate(peers[j], failed, false));
    assert full < |peers| ==> CanServe(peers[full], failed) && !peers[full].limited;
    assert any < |peers| ==> CanServe(peers[any], failed);
  }
}
