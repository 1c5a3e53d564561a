/**
 The parallel BIP157 filter scan of core/peergroup.c on values: chunks of heights handed to
 peers, lost, handed out again and finished out of order, a contiguous watermark behind a resume
 height, and the block fetches that hold the resume height back. One function per handler;
 ScanSafety says what every event keeps and what that means over whole runs.

 The main chain does not change during a scan, so a block on it is its height; a handler that is
 given any other block ends the program before it changes anything. Times are inputs, and so is
 the set of peers that a send succeeds to.
 */
module FilterScan {
  import opened Outcomes

  type Peer = nat
  type Hash = nat
  type BlockHash = nat
  type Filter = seq<nat>

  const BATCH := 1000
  const MAX_INFLIGHT := 64
  const MAX_EXPIRED := 64
  const STALL := 10_000_000
  const INT_MAX := 0x7fff_ffff

  /** What does not change during a scan: the heights of the main chain's blocks, the stored filter
      hashes by height (none if the store did not open), the hash of a filter, and whether a filter
      of a height matches the wallet. */
  datatype World = World(heights: map<BlockHash, nat>, stored: Option<map<int, Hash>>, hash: Filter -> Hash,
                         matches: (int, Filter) -> bool)

  /** `blockstore_get_block_height`: the zero hash counts as genesis, and a block that is not on the
      main chain ends the program. */
  function HeightOf(w: World, blk: BlockHash): Outcome<nat> {
    if blk == 0 then Returned(0) else if blk in w.heights then Returned(w.heights[blk]) else Stopped
  }

  datatype Segment = Segment(start: int, end: int, remaining: int, owner: Option<Peer>, avoid: Option<Peer>,
                             done: bool, progressTS: nat) {
    predicate Owned() { owner.Some? && !done }

    predicate FreeFor(p: Peer) { owner.None? && !done && avoid != Some(p) }

    function Size(): int { end - start + 1 }
  }

  datatype Pending = Pending(height: int, from: Peer, requestTS: nat)

  datatype PeerInfo = PeerInfo(id: Peer, connected: bool, filters: bool, network: bool, limited: bool)

  /** What happened to one chunk: who it was given to, in order, and the heights counted since
      it was last given out. */
  datatype Trail = Trail(owners: seq<Peer>, accepted: seq<int>)

  /** What happened in a run: the filters whose hash was compared with the stored one, and the blocks
      recorded for fetching, fed to the wallet, and dropped by a retry. */
  datatype History = History(trails: seq<Trail>, checked: set<(int, Filter)>, recorded: set<int>,
                             fed: set<int>, dropped: set<int>)

  datatype Scan = Scan(floor: int, tip: int, segs: seq<Segment>, contig: nat, pending: seq<Pending>,
                       last: int, peers: seq<PeerInfo>, hist: History)

  // ----- chunks -----

  function Min(a: int, b: int): int { if a < b then a else b }

  /** C's division, which rounds toward zero. */
  function TruncDiv(a: int, b: int): int
    requires b > 0
  {
    if a >= 0 then a / b else -((-a) / b)
  }

  /** The chunk covering a height: CF_CHUNK_INDEX. */
  function ChunkIndex(floor: int, h: int): int {
    TruncDiv(h - floor, BATCH)
  }

  function ChunkCount(floor: int, tip: int): nat {
    if tip >= floor then (tip - floor) / BATCH + 1 else 0
  }

  function NewSegment(floor: int, tip: int, i: nat): Segment {
    var start := floor + i * BATCH;
    var end := Min(start + BATCH - 1, tip);
    Segment(start, end, end - start + 1, None, None, false, 0)
  }

  /** The chunks cover [floor, tip] without overlap, and the index of a height is exact there.
      Outside it is not: rounding toward zero sends the BATCH - 1 heights below the floor to
      chunk 0, and the heights above the tip, up to a full last chunk, to the last one. */
  lemma ChunkIndexExact(floor: int, tip: int, h: int, i: nat)
    requires floor <= tip && i < ChunkCount(floor, tip)
    ensures floor <= h <= tip ==>
      (ChunkIndex(floor, h) == i <==> NewSegment(floor, tip, i).start <= h <= NewSegment(floor, tip, i).end)
    ensures 0 <= ChunkIndex(floor, h) < ChunkCount(floor, tip) <==> floor - 1000 < h < floor + ChunkCount(floor, tip) * 1000
    ensures floor - 1000 < h < floor ==> ChunkIndex(floor, h) == 0
    ensures var seg, n := NewSegment(floor, tip, i), ChunkCount(floor, tip);
      && seg.start == floor + i * 1000 && seg.end == (if i + 1 < n then seg.start + 999 else tip)
      && seg.start <= seg.end && seg.remaining == seg.end - seg.start + 1
      && seg.owner == None && seg.avoid == None && !seg.done && seg.progressTS == 0
  {
  }

  function Inflight(segs: seq<Segment>, n: nat): (c: nat)
    requires n <= |segs|
    ensures c <= n
  {
    if n == 0 then 0 else Inflight(segs, n - 1) + if segs[n - 1].Owned() then 1 else 0
  }

  predicate Busy(segs: seq<Segment>, p: Peer) {
    exists i :: 0 <= i < |segs| && segs[i].owner == Some(p) && !segs[i].done
  }

  /** The first chunk from `i` on that `p` may be given. */
  function FirstFree(segs: seq<Segment>, p: Peer, i: nat): (r: nat)
    requires i <= |segs|
    ensures i <= r <= |segs| && (r < |segs| ==> segs[r].FreeFor(p))
    ensures forall j :: i <= j < r ==> !segs[j].FreeFor(p)
    decreases |segs| - i
  {
    if i == |segs| || segs[i].FreeFor(p) then i else FirstFree(segs, p, i + 1)
  }

  /** Length of the done prefix, known to be at least `i`. */
  function DonePrefix(segs: seq<Segment>, i: nat): (r: nat)
    requires i <= |segs|
    ensures i <= r <= |segs| && (r < |segs| ==> !segs[r].done)
    ensures forall j :: i <= j < r ==> segs[j].done
    decreases |segs| - i
  {
    if i == |segs| || !segs[i].done then i else DonePrefix(segs, i + 1)
  }

  /** `blockstore_get_block_at_height` walks from the tip to genesis and misses genesis. */
  predicate Reachable(h: int) { h != 0 }

  ghost function SetSeg(s: Scan, i: nat, seg: Segment, trail: Trail): Scan
    requires i < |s.segs| && |s.hist.trails| == |s.segs|
  {
    s.(segs := s.segs[i := seg], hist := s.hist.(trails := s.hist.trails[i := trail]))
  }

  /** The state arrays and their history line up. */
  ghost predicate Aligned(s: Scan) { |s.hist.trails| == |s.segs| && s.contig <= |s.segs| }

  /** The state when the scan of [floor, tip] starts: the resume height is put on the floor. */
  ghost function Start(floor: int, tip: int, peers: seq<PeerInfo>): (s: Scan)
    ensures Aligned(s)
  {
    var n := ChunkCount(floor, tip);
    Scan(floor, tip, seq(n, i requires 0 <= i < n => NewSegment(floor, tip, i)), 0, [], floor, peers,
         History(seq(n, _ => Trail([], [])), {}, {}, {}, {}))
  }

  /** `peergroup_assign_chunk`. */
  ghost function Assign(s: Scan, i: nat, p: Peer, now: nat, sends: set<Peer>): (r: Scan)
    requires Aligned(s) && i < |s.segs|
    ensures Aligned(r) && |r.segs| == |s.segs|
  {
    if !Reachable(s.segs[i].end) || p !in sends then s
    else
      SetSeg(s, i, s.segs[i].(owner := Some(p), avoid := None, remaining := s.segs[i].Size(), progressTS := now),
             Trail(s.hist.trails[i].owners + [p], []))
  }

  /** `peergroup_assign_next_chunk_to`. */
  ghost function AssignNext(s: Scan, p: Peer, now: nat, sends: set<Peer>): (r: Scan)
    requires Aligned(s)
    ensures Aligned(r)
  {
    var i := FirstFree(s.segs, p, 0);
    if i < |s.segs| then Assign(s, i, p, now, sends) else s
  }

  /** The peer loop of `peergroup_schedule_cfilters` from the `k`th peer on. */
  ghost function ScheduleFrom(s: Scan, k: nat, inflight: nat, now: nat, sends: set<Peer>): (r: Scan)
    requires Aligned(s) && k <= |s.peers|
    ensures Aligned(r)
    decreases |s.peers| - k
  {
    if k == |s.peers| || inflight >= MAX_INFLIGHT then s
    else
      var p := s.peers[k];
      var i := FirstFree(s.segs, p.id, 0);
      if !p.connected || !p.filters || Busy(s.segs, p.id) || i == |s.segs| then ScheduleFrom(s, k + 1, inflight, now, sends)
      else ScheduleFrom(Assign(s, i, p.id, now, sends), k + 1, inflight + 1, now, sends)
  }

  ghost function Schedule(s: Scan, now: nat, sends: set<Peer>): (r: Scan)
    requires Aligned(s)
    ensures Aligned(r)
  {
    ScheduleFrom(s, 0, Inflight(s.segs, |s.segs|), now, sends)
  }

  /** Takes a chunk back from its owner. */
  ghost function Requeue(s: Scan, i: nat): (r: Scan)
    requires Aligned(s) && i < |s.segs|
    ensures Aligned(r) && |r.segs| == |s.segs|
  {
    SetSeg(s, i, s.segs[i].(avoid := s.segs[i].owner, owner := None, remaining := s.segs[i].Size()),
           s.hist.trails[i].(accepted := []))
  }

  /** The requeue loops: takes back every owned chunk among the first `n` that `lost` picks. */
  ghost function RequeueAll(s: Scan, n: nat, lost: Segment -> bool): (r: Scan)
    requires Aligned(s) && n <= |s.segs|
    ensures Aligned(r) && |r.segs| == |s.segs|
    ensures forall i :: n <= i < |s.segs| ==> r.segs[i] == s.segs[i]
  {
    if n == 0 then s
    else
      var r := RequeueAll(s, n - 1, lost);
      if s.segs[n - 1].Owned() && lost(s.segs[n - 1]) then Requeue(r, n - 1) else r
  }

  ghost predicate AnyLost(s: Scan, lost: Segment -> bool) {
    exists i :: 0 <= i < |s.segs| && s.segs[i].Owned() && lost(s.segs[i])
  }

  ghost function RequeueAndSchedule(s: Scan, lost: Segment -> bool, now: nat, sends: set<Peer>): (r: Scan)
    requires Aligned(s)
    ensures Aligned(r)
  {
    var r := RequeueAll(s, |s.segs|, lost);
    if AnyLost(s, lost) then Schedule(r, now, sends) else r
  }

  function Stalled(now: nat): Segment -> bool {
    (seg: Segment) => now >= seg.progressTS && now - seg.progressTS >= STALL
  }

  function OwnedBy(p: Peer): Segment -> bool {
    (seg: Segment) => seg.owner == Some(p)
  }

  /** `peergroup_check_pending_chunks`. */
  ghost function CheckChunks(s: Scan, now: nat, sends: set<Peer>): (r: Scan)
    requires Aligned(s)
    ensures Aligned(r)
  {
    RequeueAndSchedule(s, Stalled(now), now, sends)
  }

  /** `peer_destroy` as far as the scan goes: the peer is marked as gone before its chunks are
      requeued, and leaves the list after. */
  ghost function PeerGone(s: Scan, p: Peer, now: nat, sends: set<Peer>): (r: Scan)
    requires Aligned(s)
    ensures Aligned(r)
  {
    var r := RequeueAndSchedule(s.(peers := Disconnected(s.peers, p)), OwnedBy(p), now, sends);
    r.(peers := Without(r.peers, p))
  }

  function Disconnected(peers: seq<PeerInfo>, p: Peer): (r: seq<PeerInfo>)
    ensures |r| == |peers|
    ensures forall i :: 0 <= i < |r| ==> r[i] == if peers[i].id == p then peers[i].(connected := false) else peers[i]
  {
    seq(|peers|, i requires 0 <= i < |peers| => if peers[i].id == p then peers[i].(connected := false) else peers[i])
  }

  function Without(peers: seq<PeerInfo>, p: Peer): (r: seq<PeerInfo>)
    ensures forall q :: q in r <==> q in peers && q.id != p
  {
    if peers == [] then []
    else if peers[0].id == p then Without(peers[1..], p)
    else [peers[0]] + Without(peers[1..], p)
  }

  // ----- the resume height -----

  function MinPending(pending: seq<Pending>, n: nat): (m: int)
    requires n <= |pending|
    ensures forall i :: 0 <= i < n ==> m <= pending[i].height
    ensures m == INT_MAX || exists i :: 0 <= i < n && pending[i].height == m
  {
    if n == 0 then INT_MAX
    else
      var m := MinPending(pending, n - 1);
      if pending[n - 1].height < m then pending[n - 1].height else m
  }

  /** `peergroup_advance_lastblk`. */
  ghost function AdvanceLast(s: Scan): (r: Scan)
    requires Aligned(s)
    ensures Aligned(r)
  {
    if s.contig == 0 then s
    else
      var safe := Min(s.segs[s.contig - 1].end, MinPending(s.pending, |s.pending|) - 1);
      if safe < s.floor || safe <= s.last || !Reachable(safe) then s else s.(last := safe)
  }

  // ----- filters -----

  /** The filter hash is the stored one for this height. */
  predicate Genuine(w: World, h: int, f: Filter) {
    w.stored.Some? && h in w.stored.value && w.stored.value[h] == w.hash(f)
  }

  ghost function Record(s: Scan, h: int, p: Peer, now: nat): (r: Scan)
    ensures Aligned(s) ==> Aligned(r)
  {
    s.(pending := s.pending + [Pending(h, p, now)], hist := s.hist.(recorded := s.hist.recorded + {h}))
  }

  /** One filter of its own chunk counted for a peer. */
  ghost function Count(s: Scan, i: nat, h: int, now: nat): (r: Scan)
    requires Aligned(s) && i < |s.segs|
    ensures Aligned(r) && |r.segs| == |s.segs|
  {
    var seg, t := s.segs[i], s.hist.trails[i];
    SetSeg(s, i, seg.(remaining := seg.remaining - 1, progressTS := now, done := seg.remaining - 1 <= 0),
           t.(accepted := t.accepted + [h]))
  }

  /** The filter counts for the chunk at this index. */
  predicate Mine(segs: seq<Segment>, idx: int, p: Peer) {
    0 <= idx < |segs| && segs[idx].owner == Some(p) && !segs[idx].done
  }

  /** The chunk bookkeeping of `peergroup_handle_cfilter`; the resume height moves in here. */
  ghost function Bookkeep(s: Scan, p: Peer, h: int, now: nat, sends: set<Peer>): (r: Scan)
    requires Aligned(s)
    ensures Aligned(r)
  {
    var idx := ChunkIndex(s.floor, h);
    if !Mine(s.segs, idx, p) then s
    else
      var c := Count(s, idx, h, now);
      if !c.segs[idx].done then c
      else AssignNext(AdvanceLast(c.(contig := DonePrefix(c.segs, c.contig))), p, now, sends)
  }

  /** `peergroup_handle_cfilter`: the new state, and whether the peer is kept. Its test for a
      negative height, meant for unknown blocks, is never met. */
  ghost function HandleFilter(w: World, s: Scan, p: Peer, h: int, f: Filter, now: nat, sends: set<Peer>): (r: (Scan, bool))
    requires Aligned(s)
    ensures Aligned(r.0)
  {
    if h < 0 then (s, true)
    else if w.stored.Some? && h !in w.stored.value then (s, true)
    else if w.stored.Some? && w.stored.value[h] != w.hash(f) then (s, false)
    else
      var seen := if w.stored.Some? then s.(hist := s.hist.(checked := s.hist.checked + {(h, f)})) else s;
      var b := Bookkeep(seen, p, h, now, sends);
      if w.matches(h, f) then (Record(b, h, p, now), p in sends) else (b, true)
  }

  // ----- block fetches -----

  /** Position of the first pending entry for a block. */
  function FindPending(pending: seq<Pending>, h: int, i: nat): (r: nat)
    requires i <= |pending|
    ensures i <= r <= |pending| && (r < |pending| ==> pending[r].height == h)
    ensures forall j :: i <= j < r ==> pending[j].height != h
    decreases |pending| - i
  {
    if i == |pending| || pending[i].height == h then i else FindPending(pending, h, i + 1)
  }

  /** `peergroup_remove_pending_block`: the last entry takes the place of the first match. */
  function RemovePending(pending: seq<Pending>, h: int): seq<Pending> {
    var i, n := FindPending(pending, h, 0), |pending|;
    if i == n then pending else pending[i := pending[n - 1]][..n - 1]
  }

  /** `peergroup_handle_block`. */
  ghost function HandleBlock(s: Scan, h: int): (r: Scan)
    requires Aligned(s)
    ensures Aligned(r)
  {
    AdvanceLast(s.(pending := RemovePending(s.pending, h), hist := s.hist.(fed := s.hist.fed + {h})))
  }

  /** The peer a retry goes to: the first other connected full node that is not limited, else
      the first other connected full node. */
  function RetryPeer(peers: seq<PeerInfo>, failed: Peer): Option<Peer> {
    var full := FirstPeer(peers, failed, false, 0);
    if full < |peers| then Some(peers[full].id)
    else
      var any := FirstPeer(peers, failed, true, 0);
      if any < |peers| then Some(peers[any].id) else None
  }

  predicate Candidate(q: PeerInfo, failed: Peer, limited: bool) {
    q.id != failed && q.connected && q.network && (limited || !q.limited)
  }

  function FirstPeer(peers: seq<PeerInfo>, failed: Peer, limited: bool, i: nat): (r: nat)
    requires i <= |peers|
    ensures i <= r <= |peers| && (r < |peers| ==> Candidate(peers[r], failed, limited))
    ensures forall j :: i <= j < r ==> !Candidate(peers[j], failed, limited)
    decreases |peers| - i
  {
    if i == |peers| || Candidate(peers[i], failed, limited) then i else FirstPeer(peers, failed, limited, i + 1)
  }

  /** `peergroup_retry_block_fetch` for one block. */
  ghost function Retry(s: Scan, failed: Peer, h: int, now: nat, sends: set<Peer>): (r: Scan)
    ensures Aligned(s) ==> Aligned(r)
  {
    var best := RetryPeer(s.peers, failed);
    if best.Some? && best.value in sends then Record(s, h, best.value, now) else s
  }

  ghost function RetryAll(s: Scan, failed: Peer, hs: seq<int>, n: nat, now: nat, sends: set<Peer>): (r: Scan)
    requires n <= |hs|
    ensures Aligned(s) ==> Aligned(r)
  {
    if n == 0 then s else Retry(RetryAll(s, failed, hs, n - 1, now, sends), failed, hs[n - 1], now, sends)
  }

  predicate Expired(p: Pending, now: nat) { now >= p.requestTS && now - p.requestTS >= STALL }

  /** The read-only scan: the first 64 expired entries. */
  function ExpiredAmong(pending: seq<Pending>, n: nat, now: nat): (r: seq<Pending>)
    requires n <= |pending|
    ensures |r| <= MAX_EXPIRED && forall p :: p in r ==> p in pending
  {
    if n == 0 then []
    else
      var r := ExpiredAmong(pending, n - 1, now);
      if |r| < MAX_EXPIRED && Expired(pending[n - 1], now) then r + [pending[n - 1]] else r
  }

  /** An expired fetch: removed first, then retried. */
  ghost function RetryExpired(s: Scan, e: Pending, now: nat, sends: set<Peer>): (r: Scan)
    ensures Aligned(s) ==> Aligned(r)
  {
    var removed := s.(pending := RemovePending(s.pending, e.height));
    var best := RetryPeer(s.peers, e.from);
    if best.Some? && best.value in sends then Retry(removed, e.from, e.height, now, sends)
    else removed.(hist := removed.hist.(dropped := removed.hist.dropped + {e.height}))
  }

  ghost function RetryEach(s: Scan, es: seq<Pending>, n: nat, now: nat, sends: set<Peer>): (r: Scan)
    requires n <= |es|
    ensures Aligned(s) ==> Aligned(r)
  {
    if n == 0 then s else RetryExpired(RetryEach(s, es, n - 1, now, sends), es[n - 1], now, sends)
  }

  /** `peergroup_check_pending_blocks`. */
  ghost function CheckBlocks(s: Scan, now: nat, sends: set<Peer>): (r: Scan)
    ensures Aligned(s) ==> Aligned(r)
  {
    var es := ExpiredAmong(s.pending, |s.pending|, now);
    RetryEach(s, es, |es|, now, sends)
  }
}
