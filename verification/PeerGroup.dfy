/**
 The filter scan of core/peergroup.c in its own form: one shared object whose chunk array,
 pending list, watermark and resume height the handlers update in loops. Each method is proved
 to compute the function of FilterScan for its handler, so what ScanSafety proves of runs of
 those functions holds of runs of these methods.
 */
module PeerGroup {
  import opened Outcomes
  import opened FilterScan

  class Group {
    const w: World
    const floor: int
    const tip: int
    const seg: array<Segment>
    var doneContig: nat
    var pending: seq<Pending>
    var lastBlk: int
    var peers: seq<PeerInfo>
    ghost var hist: History

    ghost function View(): Scan
      reads this, seg
    {
      Scan(floor, tip, seg[..], doneContig, pending, lastBlk, peers, hist)
    }

    /** The chunk carving of `peergroup_download_filtered_blocks`. */
    constructor (w: World, floor: int, tip: int, peers: seq<PeerInfo>)
      ensures fresh(seg) && this.w == w && View() == Start(floor, tip, peers)
    {
      this.w, this.floor, this.tip, this.peers := w, floor, tip, peers;
      this.doneContig, this.pending, this.lastBlk := 0, [], floor;
      var n := if tip >= floor then (tip - floor) / BATCH + 1 else 0;
      this.seg := new Segment[n];
      hist := Start(floor, tip, peers).hist;
      new;
      for i := 0 to n
        modifies seg
        invariant forall k :: 0 <= k < i ==> seg[k] == NewSegment(floor, tip, k)
      {
        var start := floor + i * BATCH;
        var end := Min(start + BATCH - 1, tip);
        seg[i] := Segment(start, end, end - start + 1, None, None, false, 0);
      }
      assert seg[..] == Start(floor, tip, peers).segs;
    }

    /** `peergroup_assign_chunk`: the request must reach the peer before the chunk is its. */
    method AssignChunk(p: Peer, i: nat, now: nat, sends: set<Peer>)
      requires Aligned(View()) && i < seg.Length
      modifies seg, this`hist
      ensures View() == Assign(old(View()), i, p, now, sends)
    {
      if !Reachable(seg[i].end) {
        return;
      }
      if p !in sends {
        return;
      }
      hist := hist.(trails := hist.trails[i := Trail(hist.trails[i].owners + [p], [])]);
      seg[i] := seg[i].(owner := Some(p), avoid := None, remaining := seg[i].end - seg[i].start + 1, progressTS := now);
    }

    method AssignNextChunkTo(p: Peer, now: nat, sends: set<Peer>)
      requires Aligned(View())
      modifies seg, this`hist
      ensures View() == AssignNext(old(View()), p, now, sends)
    {
      for i := 0 to seg.Length
        invariant View() == old(View()) && FirstFree(seg[..], p, 0) == FirstFree(seg[..], p, i)
      {
        if seg[i].owner == None && !seg[i].done && seg[i].avoid != Some(p) {
          AssignChunk(p, i, now, sends);
          return;
        }
      }
    }

    method CountInflight() returns (inflight: nat)
      ensures inflight == Inflight(seg[..], seg.Length)
    {
      inflight := 0;
      for i := 0 to seg.Length
        invariant inflight == Inflight(seg[..], i)
      {
        if seg[i].owner != None && !seg[i].done {
          inflight := inflight + 1;
        }
      }
    }

    method IsBusy(p: Peer) returns (busy: bool)
      ensures busy <==> Busy(seg[..], p)
    {
      busy := false;
      for i := 0 to seg.Length
        invariant !busy && forall k :: 0 <= k < i ==> !(seg[k].owner == Some(p) && !seg[k].done)
      {
        if seg[i].owner == Some(p) && !seg[i].done {
          assert seg[..][i] == seg[i];
          return true;
        }
      }
    }

    /** The first chunk that may be given to `p`, or the number of chunks. */
    method NextFree(p: Peer) returns (i: nat)
      ensures i == FirstFree(seg[..], p, 0)
    {
      i := 0;
      while i < seg.Length
        invariant i <= seg.Length && FirstFree(seg[..], p, 0) == FirstFree(seg[..], p, i)
      {
        if seg[i].owner == None && !seg[i].done && seg[i].avoid != Some(p) {
          return;
        }
        i := i + 1;
      }
    }

    /** `peergroup_schedule_cfilters`. */
    method ScheduleCfilters(now: nat, sends: set<Peer>)
      requires Aligned(View())
      modifies seg, this`hist
      ensures View() == Schedule(old(View()), now, sends)
    {
      hide Assign, Inflight, Busy, FirstFree;
      var inflight := CountInflight();
      assert old(seg[..]) == seg[..];
      var k := 0;
      while k < |peers| && inflight < MAX_INFLIGHT
        invariant k <= |peers| && inflight >= 0 && Aligned(View()) && peers == old(peers)
        invariant Schedule(old(View()), now, sends) == ScheduleFrom(View(), k, inflight, now, sends)
        decreases |peers| - k
      {
        var p := peers[k];
        if p.connected && p.filters {
          var busy := IsBusy(p.id);
          if !busy {
            var i := NextFree(p.id);
            if i < seg.Length {
              AssignChunk(p.id, i, now, sends);
              inflight := inflight + 1;
            }
          }
        }
        k := k + 1;
      }
    }

    /** Takes one chunk back. */
    method RequeueChunk(i: nat)
      requires Aligned(View()) && i < seg.Length
      modifies seg, this`hist
      ensures View() == Requeue(old(View()), i)
    {
      hist := hist.(trails := hist.trails[i := hist.trails[i].(accepted := [])]);
      seg[i] := seg[i].(avoid := seg[i].owner);
      seg[i] := seg[i].(owner := None);
      seg[i] := seg[i].(remaining := seg[i].end - seg[i].start + 1);
    }

    /** `peergroup_check_pending_chunks`. */
    method CheckPendingChunks(now: nat, sends: set<Peer>)
      requires Aligned(View())
      modifies seg, this`hist
      ensures View() == CheckChunks(old(View()), now, sends)
    {
      hide Requeue, Schedule;
      ghost var s := View();
      var anyRequeued := false;
      for i := 0 to seg.Length
        invariant Aligned(View()) && View() == RequeueAll(s, i, Stalled(now))
        invariant anyRequeued <==> exists k :: 0 <= k < i && s.segs[k].Owned() && Stalled(now)(s.segs[k])
      {
        assert seg[i] == View().segs[i] == s.segs[i];
        if seg[i].done || seg[i].owner == None {
          continue;
        }
        if now < seg[i].progressTS || now - seg[i].progressTS < STALL {
          continue;
        }
        RequeueChunk(i);
        anyRequeued := true;
      }
      if anyRequeued {
        ScheduleCfilters(now, sends);
      }
    }

    /** `peergroup_requeue_peer_chunks`. */
    method RequeuePeerChunks(p: Peer, now: nat, sends: set<Peer>)
      requires Aligned(View())
      modifies seg, this`hist
      ensures View() == RequeueAndSchedule(old(View()), OwnedBy(p), now, sends)
    {
      hide Requeue, Schedule;
      ghost var s := View();
      var anyRequeued := false;
      for i := 0 to seg.Length
        invariant Aligned(View()) && View() == RequeueAll(s, i, OwnedBy(p))
        invariant anyRequeued <==> exists k :: 0 <= k < i && s.segs[k].Owned() && OwnedBy(p)(s.segs[k])
      {
        assert seg[i] == View().segs[i] == s.segs[i];
        if seg[i].owner == Some(p) && !seg[i].done {
          RequeueChunk(i);
          anyRequeued := true;
        }
      }
      if anyRequeued {
        ScheduleCfilters(now, sends);
      }
    }

    /** The scan's part of `peer_destroy`. */
    method DestroyPeer(p: Peer, now: nat, sends: set<Peer>)
      requires Aligned(View())
      modifies seg, this`hist, this`peers
      ensures View() == PeerGone(old(View()), p, now, sends)
    {
      hide RequeueAndSchedule;
      peers := Disconnected(peers, p);
      assert View() == old(View()).(peers := peers);
      RequeuePeerChunks(p, now, sends);
      peers := Without(peers, p);
    }

    /** A peer joins the list; once the filter headers are synced, work is handed out too. */
    method AddPeer(info: PeerInfo, synced: bool, now: nat, sends: set<Peer>)
      requires Aligned(View())
      modifies seg, this`hist, this`peers
      ensures var s := old(View()).(peers := old(peers) + [info]);
        View() == if synced then Schedule(s, now, sends) else s
    {
      hide Schedule;
      peers := peers + [info];
      assert View() == old(View()).(peers := peers);
      if synced {
        ScheduleCfilters(now, sends);
      }
    }

    /** `peergroup_advance_lastblk`. */
    method AdvanceLastblk()
      requires Aligned(View())
      modifies this`lastBlk
      ensures View() == AdvanceLast(old(View()))
    {
      if doneContig == 0 {
        return;
      }
      var contigHeight := seg[doneContig - 1].end;
      var minPending := INT_MAX;
      for i := 0 to |pending|
        invariant minPending == MinPending(pending, i)
      {
        if pending[i].height < minPending {
          minPending := pending[i].height;
        }
      }
      var safeHeight := Min(contigHeight, minPending - 1);
      if safeHeight < floor {
        return;
      }
      if safeHeight <= lastBlk {
        return;
      }
      if !Reachable(safeHeight) {
        return;
      }
      lastBlk := safeHeight;
    }

    /** One filter counted for the chunk; the watermark follows if that finished it. */
    method CountFilter(idx: nat, h: int, now: nat) returns (done: bool)
      requires Aligned(View()) && idx < seg.Length && !seg[idx].done
      modifies seg, this`hist, this`doneContig
      ensures var c := Count(old(View()), idx, h, now);
        && done == c.segs[idx].done
        && View() == if done then c.(contig := DonePrefix(c.segs, c.contig)) else c
    {
      ghost var c := Count(View(), idx, h, now);
      hist := c.hist;
      seg[idx] := seg[idx].(remaining := seg[idx].remaining - 1);
      seg[idx] := seg[idx].(progressTS := now);
      done := seg[idx].remaining <= 0;
      if done {
        seg[idx] := seg[idx].(done := true);
      }
      assert seg[..] == c.segs;
      if done {
        while doneContig < seg.Length && seg[doneContig].done
          invariant doneContig <= seg.Length
          invariant View() == c.(contig := doneContig) && DonePrefix(c.segs, c.contig) == DonePrefix(c.segs, doneContig)
          decreases seg.Length - doneContig
        {
          doneContig := doneContig + 1;
        }
      }
    }

    /** `peergroup_handle_cfilter`; false if the peer is to be dropped. */
    method HandleCfilter(p: Peer, h: int, f: Filter, now: nat, sends: set<Peer>) returns (ok: bool)
      requires Aligned(View())
      modifies seg, this
      ensures (View(), ok) == HandleFilter(w, old(View()), p, h, f, now, sends)
    {
      hide AdvanceLast, AssignNext, Count, DonePrefix;
      if h < 0 {
        return true;
      }
      if w.stored.Some? {
        if h !in w.stored.value {
          return true;
        }
        if w.stored.value[h] != w.hash(f) {
          return false;
        }
        hist := hist.(checked := hist.checked + {(h, f)});
      }
      ghost var seen := View();
      var idx := ChunkIndex(floor, h);
      if 0 <= idx < seg.Length && seg[idx].owner == Some(p) && !seg[idx].done {
        var done := CountFilter(idx, h, now);
        if done {
          AdvanceLastblk();
          AssignNextChunkTo(p, now, sends);
        }
      }
      assert View() == Bookkeep(seen, p, h, now, sends);
      if w.matches(h, f) {
        AddPendingBlock(h, p, now);
        return p in sends;
      }
      ok := true;
    }

    /** The same for the block a message names. */
    method ReceiveCfilter(p: Peer, blk: BlockHash, f: Filter, now: nat, sends: set<Peer>) returns (r: Outcome<bool>)
      requires Aligned(View())
      modifies seg, this
      ensures r.Stopped? <==> blk != 0 && blk !in w.heights
      ensures if r.Stopped? then View() == old(View())
              else
                var h := if blk == 0 then 0 else w.heights[blk];
                (View(), r.value) == HandleFilter(w, old(View()), p, h, f, now, sends)
    {
      hide HandleFilter;
      var h := HeightOf(w, blk);
      if h.Stopped? {
        return Stopped;
      }
      var ok := HandleCfilter(p, h.value, f, now, sends);
      r := Returned(ok);
    }

    method AddPendingBlock(h: int, from: Peer, now: nat)
      modifies this`pending, this`hist
      ensures View() == Record(old(View()), h, from, now)
    {
      pending := pending + [Pending(h, from, now)];
      hist := hist.(recorded := hist.recorded + {h});
    }

    /** `peergroup_remove_pending_block`. */
    method RemovePendingBlock(h: int)
      modifies this`pending
      ensures pending == RemovePending(old(pending), h)
    {
      for i := 0 to |pending|
        invariant pending == old(pending) && FindPending(pending, h, 0) == FindPending(pending, h, i)
      {
        if pending[i].height == h {
          var n := |pending|;
          pending := pending[i := pending[n - 1]];
          pending := pending[..n - 1];
          return;
        }
      }
    }

    /** `peergroup_handle_block`; the wallet is fed before the entry goes. */
    method HandleFetchedBlock(h: int)
      requires Aligned(View())
      modifies this`pending, this`hist, this`lastBlk
      ensures View() == HandleBlock(old(View()), h)
    {
      hist := hist.(fed := hist.fed + {h});
      RemovePendingBlock(h);
      AdvanceLastblk();
    }

    method ReceiveBlock(blk: BlockHash) returns (r: Outcome<()>)
      requires Aligned(View())
      modifies this`pending, this`hist, this`lastBlk
      ensures r.Stopped? <==> blk != 0 && blk !in w.heights
      ensures View() == if r.Stopped? then old(View()) else HandleBlock(old(View()), if blk == 0 then 0 else w.heights[blk])
    {
      hide HandleBlock;
      var h := HeightOf(w, blk);
      if h.Stopped? {
        return Stopped;
      }
      HandleFetchedBlock(h.value);
      r := Returned(());
    }

    /** The peer list scan of `peergroup_retry_block_fetch`. */
    method ChooseRetryPeer(failed: Peer) returns (best: Option<Peer>)
      ensures best == RetryPeer(peers, failed)
    {
      best := None;
      var bestIsLimited := true;
      ghost var full, any := |peers|, |peers|;
      for i := 0 to |peers|
        invariant best.None? ==> bestIsLimited && FirstPeer(peers, failed, true, 0) == FirstPeer(peers, failed, true, i)
        invariant bestIsLimited ==> FirstPeer(peers, failed, false, 0) == FirstPeer(peers, failed, false, i)
        invariant best.Some? && bestIsLimited ==>
          FirstPeer(peers, failed, true, 0) < i && best == Some(peers[FirstPeer(peers, failed, true, 0)].id)
        invariant !bestIsLimited ==>
          FirstPeer(peers, failed, false, 0) < i && best == Some(peers[FirstPeer(peers, failed, false, 0)].id)
      {
        var cand := peers[i];
        if cand.id == failed || !cand.connected || !cand.network {
          continue;
        }
        if best.None? {
          best := Some(cand.id);
          bestIsLimited := cand.limited;
          continue;
        }
        if bestIsLimited && !cand.limited {
          best := Some(cand.id);
          bestIsLimited := false;
        }
      }
    }

    /** `peergroup_retry_block_fetch`. */
    method RetryBlockFetch(failed: Peer, hs: seq<int>, now: nat, sends: set<Peer>)
      modifies this`pending, this`hist
      ensures View() == RetryAll(old(View()), failed, hs, |hs|, now, sends)
    {
      hide RetryPeer;
      var best := ChooseRetryPeer(failed);
      ghost var s := View();
      if best.None? {
        NoRetries(s, failed, hs, |hs|, now, sends);
        return;
      }
      for i := 0 to |hs|
        invariant View() == RetryAll(s, failed, hs, i, now, sends) && peers == old(peers)
      {
        if best.value in sends {
          AddPendingBlock(hs[i], best.value, now);
        }
      }
    }

    /** `peer_handle_notfound`: only a block that is requested again has its height looked up. */
    method ReceiveNotfound(failed: Peer, blks: seq<BlockHash>, now: nat, sends: set<Peer>) returns (r: Outcome<()>)
      modifies this`pending, this`hist
      ensures var best := RetryPeer(old(peers), failed);
        r.Stopped? <==> best.Some? && best.value in sends
                        && exists i :: 0 <= i < |blks| && blks[i] != 0 && blks[i] !in w.heights
      ensures r.Returned? ==> exists hs: seq<int> ::
        && |hs| == |blks| && View() == RetryAll(old(View()), failed, hs, |hs|, now, sends)
        && forall i :: 0 <= i < |hs| ==>
             && (blks[i] == 0 ==> hs[i] == 0) && (blks[i] != 0 && blks[i] in w.heights ==> hs[i] == w.heights[blks[i]])
    {
      hide RetryPeer;
      var best := ChooseRetryPeer(failed);
      var hs: seq<int> := [];
      for i := 0 to |blks|
        invariant |hs| == i
        invariant forall k :: 0 <= k < i && HeightOf(w, blks[k]).Returned? ==> hs[k] == HeightOf(w, blks[k]).value
        invariant best.Some? && best.value in sends ==> forall k :: 0 <= k < i ==> HeightOf(w, blks[k]).Returned?
      {
        var h := HeightOf(w, blks[i]);
        if h.Stopped? && best.Some? && best.value in sends {
          return Stopped;
        }
        hs := hs + [if h.Returned? then h.value else 0];
      }
      RetryBlockFetch(failed, hs, now, sends);
      r := Returned(());
    }

    static lemma {:induction false} NoRetries(s: Scan, failed: Peer, hs: seq<int>, n: nat, now: nat, sends: set<Peer>)
      requires n <= |hs| && RetryPeer(s.peers, failed).None?
      ensures RetryAll(s, failed, hs, n, now, sends) == s
    {
      if n > 0 { NoRetries(s, failed, hs, n - 1, now, sends); }
    }

    /** The read-only first pass of `peergroup_check_pending_blocks`. */
    method CollectExpired(now: nat) returns (es: seq<Pending>)
      ensures es == ExpiredAmong(pending, |pending|, now)
    {
      es := [];
      for i := 0 to |pending|
        invariant es == ExpiredAmong(pending, i, now)
      {
        if |es| >= MAX_EXPIRED {
          FullStays(pending, i, |pending|, now);
          return;
        }
        if now < pending[i].requestTS || now - pending[i].requestTS < STALL {
          continue;
        }
        es := es + [pending[i]];
      }
    }

    static lemma {:induction false} FullStays(pending: seq<Pending>, i: nat, n: nat, now: nat)
      requires i <= n <= |pending| && |ExpiredAmong(pending, i, now)| == MAX_EXPIRED
      ensures ExpiredAmong(pending, n, now) == ExpiredAmong(pending, i, now)
      decreases n
    {
      if i < n { FullStays(pending, i, n - 1, now); }
    }

    /** `peergroup_check_pending_blocks`: each expired entry is removed before it is retried. */
    method CheckPendingBlocks(now: nat, sends: set<Peer>)
      modifies this`pending, this`hist
      ensures View() == CheckBlocks(old(View()), now, sends)
    {
      hide ExpiredAmong, RetryExpired;
      var es := CollectExpired(now);
      ghost var s := View();
      for i := 0 to |es|
        invariant View() == RetryEach(s, es, i, now, sends)
      {
        RetryOneExpired(es[i], now, sends);
      }
    }

    method RetryOneExpired(e: Pending, now: nat, sends: set<Peer>)
      modifies this`pending, this`hist
      ensures View() == RetryExpired(old(View()), e, now, sends)
    {
      ghost var s := View();
      RemovePendingBlock(e.height);
      ghost var before := |pending|;
      RetryBlockFetch(e.from, [e.height], now, sends);
      ghost var removed := s.(pending := RemovePending(s.pending, e.height));
      assert RetryAll(removed, e.from, [e.height], 0, now, sends) == removed;
      assert View() == Retry(removed, e.from, e.height, now, sends);
      if |pending| == before {
        hist := hist.(dropped := hist.dropped + {e.height});
      }
    }
  }
}
