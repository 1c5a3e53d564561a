/**
 core/block-store.c in its own form: entries linked by `prev` and `next`, two hash indexes, a
 recursive height search, a recursive rewiring, and a header file. Each method is proved to
 compute the function of the same name in HeaderChain and HeaderReplay.
 */
module BlockStore {
  import opened Outcomes
  import opened HeaderChain
  import opened HeaderReplay

  class Entry {
    const header: Header
    var prev: Entry?
    var next: Entry?
    var height: int
    var written: bool

    constructor (header: Header, written: bool)
      ensures this.header == header && this.written == written
      ensures prev == null && next == null && height == 0
    {
      this.header := header;
      this.written := written;
      prev, next, height := null, null, 0;
    }
  }

  function Headers(es: seq<Entry>): (hs: seq<Header>)
    ensures |hs| == |es| && forall i :: 0 <= i < |es| ==> hs[i] == es[i].header
  {
    seq(|es|, i requires 0 <= i < |es| => es[i].header)
  }

  ghost function HeaderSet(s: set<Entry>): set<Header> {
    set e | e in s :: e.header
  }

  ghost function EntrySet(es: seq<Entry>): set<Entry> {
    set e | e in es
  }

  /** The first `n` entries of a list. */
  ghost function First(es: seq<Entry>, n: nat): set<Entry>
    requires n <= |es|
  {
    set i | 0 <= i < n :: es[i]
  }

  /** `m` is a hash index of exactly the entries of `s`. */
  ghost predicate Indexes(net: Net, m: map<Hash, Entry>, s: set<Entry>) {
    && (forall k :: k in m ==> m[k] in s && net.hash(m[k].header) == k)
    && (forall e :: e in s ==> net.hash(e.header) in m && m[net.hash(e.header)] == e)
  }

  /** No two entries of `s` have headers with the same hash. */
  ghost predicate Unique(net: Net, s: set<Entry>) {
    forall a, b :: a in s && b in s && net.hash(a.header) == net.hash(b.header) ==> a == b
  }

  lemma HeaderSetHas(net: Net, s: set<Entry>, k: Hash)
    ensures Has(net, HeaderSet(s), k) <==> exists e :: e in s && net.hash(e.header) == k
  {
    if e :| e in s && net.hash(e.header) == k {
      assert e.header in HeaderSet(s);
    }
  }

  lemma HeaderSetUnion(a: set<Entry>, b: set<Entry>)
    ensures HeaderSet(a + b) == HeaderSet(a) + HeaderSet(b)
  {
  }

  lemma HeaderSetAdd(s: set<Entry>, e: Entry)
    ensures HeaderSet(s + {e}) == HeaderSet(s) + {e.header}
  {
  }

  lemma HeadersElems(es: seq<Entry>)
    ensures Elems(Headers(es)) == HeaderSet(EntrySet(es))
  {
    forall h ensures h in Elems(Headers(es)) <==> h in HeaderSet(EntrySet(es)) {
      if h in Elems(Headers(es)) {
        var i :| 0 <= i < |es| && Headers(es)[i] == h;
        assert es[i] in EntrySet(es);
      }
      if h in HeaderSet(EntrySet(es)) {
        var e :| e in EntrySet(es) && e.header == h;
        var i :| 0 <= i < |es| && es[i] == e;
        assert Headers(es)[i] == h;
      }
    }
  }

  /** Taking a branch out of the orphans and putting a tail in, seen on headers. */
  lemma LooseHeaders(net: Net, all: set<Entry>, loose: set<Entry>, tail: set<Entry>, path: set<Entry>)
    requires Unique(net, all) && loose <= all && tail <= all && path <= loose
    ensures HeaderSet((loose + tail) - path) == (HeaderSet(loose) - HeaderSet(path)) + HeaderSet(tail - path)
  {
    var o := (loose + tail) - path;
    forall h | h in HeaderSet(o) ensures h in (HeaderSet(loose) - HeaderSet(path)) + HeaderSet(tail - path) {
      var e :| e in o && e.header == h;
      assert forall p :: p in path ==> p in all && p != e;
    }
    forall h | h in (HeaderSet(loose) - HeaderSet(path)) + HeaderSet(tail - path) ensures h in HeaderSet(o) {
      if h in HeaderSet(tail - path) {
        var e :| e in tail - path && e.header == h;
        assert e in o;
      } else {
        var e :| e in loose && e.header == h;
        assert e !in path;
      }
    }
  }

  lemma FirstSnoc(es: seq<Entry>, n: nat)
    requires n < |es|
    ensures First(es, n + 1) == First(es, n) + {es[n]}
  {
  }

  lemma FirstAll(es: seq<Entry>)
    ensures First(es, |es|) == EntrySet(es)
  {
  }

  /** The entry after position `i` finds the one at `i` under its parent's hash. */
  ghost predicate FindsParent(m: map<Hash, Entry>, path: seq<Entry>, i: nat)
    requires i + 1 < |path|
  {
    path[i + 1].header.prevBlock in m && m[path[i + 1].header.prevBlock] == path[i]
  }

  class Store {
    const net: Net
    var best: Entry?
    var genesis: Entry?
    var height: int
    var bestHash: Hash
    var blk: map<Hash, Entry>
    var orphans: map<Hash, Entry>
    var file: seq<Header>
    /** The main chain from genesis up, and the entries held as orphans. */
    ghost var chain: seq<Entry>
    ghost var loose: set<Entry>

    ghost function Entries(): set<Entry>
      reads this
    {
      EntrySet(chain) + loose
    }

    ghost function View(): Chain
      reads this
    {
      Chain(Headers(chain), HeaderSet(loose))
    }

    /** Heights count up from genesis, `next` and `prev` are inverse, and the tip's `next` is null. */
    ghost predicate SeqLinked(es: seq<Entry>)
      reads es`height, es`prev, es`next
    {
      && (forall i :: 0 <= i < |es| ==> es[i].height == i)
      && (forall i, j :: 0 <= i < j <= i + 1 && j < |es| ==> es[i].next == es[j] && es[j].prev == es[i])
      && (es != [] ==> es[0].prev == null && es[|es| - 1].next == null)
    }

    ghost predicate ChainLinked()
      reads this, chain`height, chain`prev, chain`next
    {
      SeqLinked(chain)
    }

    ghost predicate Indexed()
      reads this
    {
      && Indexes(net, blk, EntrySet(chain)) && Indexes(net, orphans, loose)
      && EntrySet(chain) !! loose && Unique(net, Entries())
    }

    ghost predicate BestIsTip()
      reads this
    {
      if chain == [] then best == null && genesis == null && height == -1
      else && best == chain[|chain| - 1] && genesis == chain[0]
           && height == |chain| - 1 && bestHash == net.hash(best.header)
    }

    ghost predicate Held()
      reads this, Entries()`height, Entries()`prev, Entries()`next
    {
      && ChainLinked() && Indexed() && BestIsTip()
      && (forall e :: e in loose ==> e.height == -1)
      && HeaderChain.Structured(net, View())
    }

    ghost predicate Valid()
      reads this, Entries()`height, Entries()`prev, Entries()`next
    {
      Held() && HeaderChain.Valid(net, View())
    }

    constructor (net: Net)
      ensures Valid() && this.net == net && View() == EmptyChain && file == [] && Entries() == {}
    {
      this.net := net;
      best, genesis, height, bestHash := null, null, -1, 0;
      blk, orphans, file, chain, loose := map[], map[], [], [], {};
    }

    // ----- lookups -----

    /** `e` is what a lookup of `k` owes: the orphan with that hash, else the main-chain entry. */
    ghost predicate Found(k: Hash, e: Entry?)
      reads this
    {
      if e == null then !Has(net, Known(View()), k)
      else && e in Entries() && net.hash(e.header) == k
           && (Has(net, View().orphans, k) <==> e in loose)
    }

    /** `blockstore_lookup`: orphans first, then the main chain. */
    method Lookup(k: Hash) returns (e: Entry?)
      requires Indexed()
      ensures Found(k, e)
      ensures k in orphans ==> e == orphans[k]
      ensures k !in orphans ==> e == if k in blk then blk[k] else null
    {
      HeaderSetHas(net, loose, k);
      HeadersElems(chain);
      HeaderSetHas(net, EntrySet(chain), k);
      KnownHas(net, View(), k);
      e := null;
      if k in orphans {
        e := orphans[k];
      } else if k in blk {
        e := blk[k];
      }
    }

    /** An entry is on the main chain with its position as height, or an orphan. */
    lemma EntryKind(be: Entry)
      requires Held() && be in Entries()
      ensures be in chain ==> 0 <= be.height < |chain| && chain[be.height] == be
      ensures be !in chain ==> be.height == -1 && be in loose && be.header in View().orphans
      ensures Offered(net, be.header)
    {
      if be in chain {
        var i :| 0 <= i < |chain| && chain[i] == be;
        assert View().main[i] in Known(View());
      } else {
        assert be.header in Known(View());
      }
    }

    // ----- following parents -----

    /** The entry found for an orphan's parent is where its branch goes next. */
    lemma BranchStep(be: Entry, prev: Entry?)
      requires Held() && be in loose && Found(be.header.prevBlock, prev)
      ensures var b := BranchOf(net, View(), be.header);
        if prev == null then b == Dangling([be.header])
        else if prev in chain then b == Attached(prev.height, [be.header])
        else prev in loose && b == BranchOf(net, View(), prev.header).Extend(be.header)
    {
      var v, k := View(), be.header.prevBlock;
      KnownHas(net, v, k);
      if prev != null {
        EntryKind(prev);
        if prev in loose {
          assert HeaderChain.Lookup(net, v.orphans, k) in Known(v) && prev.header in Known(v);
        } else {
          assert v.main[prev.height] in Elems(v.main) && v.main[prev.height] in Known(v);
          var j := Find(net, v.main, k);
          assert v.main[j] in Known(v);
        }
      }
    }

    /** What looking up parents finds from the end of `path` down: each orphan's parent is the
        orphan before it, and the first one's parent is `at`, or unknown if not `attached`. */
    ghost predicate ParentsFound(attached: bool, at: Entry, path: seq<Entry>)
      reads this
    {
      && (forall i :: 0 <= i < |path| - 1 ==> FindsParent(orphans, path, i))
      && (path != [] ==>
            var p := path[0].header.prevBlock;
            && p !in orphans
            && (if attached then p in blk && blk[p] == at else p !in blk))
    }

    /** The entries of `path` are different orphans. */
    ghost predicate PathOfOrphans(path: seq<Entry>)
      reads this, path
    {
      && (forall i :: 0 <= i < |path| ==> path[i].height == -1 && path[i] in loose)
      && (forall i, k :: 0 <= i < k < |path| ==> path[i] != path[k])
    }

    lemma PathSnoc(attached: bool, at: Entry, path: seq<Entry>, be: Entry)
      requires path != [] && ParentsFound(attached, at, path) && PathOfOrphans(path)
      requires be in loose && be.height == -1
      requires be.header.prevBlock in orphans && orphans[be.header.prevBlock] == path[|path| - 1]
      requires forall i :: 0 <= i < |path| ==> path[i] != be
      ensures ParentsFound(attached, at, path + [be]) && PathOfOrphans(path + [be])
      ensures Headers(path + [be]) == Headers(path) + [be.header]
    {
      var all := path + [be];
      forall i | 0 <= i < |all| - 1 ensures FindsParent(orphans, all, i) {
        assert i < |path| - 1 ==> FindsParent(orphans, path, i);
      }
    }

    /** The entries behind the branch of an orphan. */
    lemma {:induction false} BranchEntries(be: Entry) returns (attached: bool, at: Entry, path: seq<Entry>)
      requires Held() && be in loose
      ensures path != [] && path[|path| - 1] == be
      ensures ParentsFound(attached, at, path) && PathOfOrphans(path)
      ensures BranchOf(net, View(), be.header) == if attached then Attached(at.height, Headers(path)) else Dangling(Headers(path))
      ensures at in Entries() && (attached ==> at in chain) && EntrySet(path) <= Entries()
      ensures forall i :: 0 <= i < |path| ==> net.rank(net.hash(path[i].header)) <= net.rank(net.hash(be.header))
      decreases net.rank(net.hash(be.header))
    {
      hide HeaderChain.Structured, SeqLinked, BestIsTip, BranchOf;
      EntryKind(be);
      var p := be.header.prevBlock;
      HeaderSetHas(net, loose, p);
      HeadersElems(chain);
      HeaderSetHas(net, EntrySet(chain), p);
      KnownHas(net, View(), p);
      if p in orphans {
        var prev := orphans[p];
        BranchStep(be, prev);
        var before;
        attached, at, before := BranchEntries(prev);
        path := before + [be];
        PathSnoc(attached, at, before, be);
      } else {
        attached := p in blk;
        at := if p in blk then blk[p] else be;
        path := [be];
        BranchStep(be, if p in blk then blk[p] else null);
        assert Headers(path) == [be.header];
      }
    }

    /** `blockstore_find_alternate_chain_height` for the entry that the first `n` entries of the
        branch `path` end in. */
    method FindAlternateChainHeight(be: Entry, ghost attached: bool, ghost at: Entry, ghost path: seq<Entry>, ghost n: nat)
      returns (r: Outcome<int>)
      requires Indexed() && ParentsFound(attached, at, path) && PathOfOrphans(path)
      requires n <= |path| && be == (if n == 0 then at else path[n - 1]) && (attached || n > 0)
      requires attached ==> at.height >= 0
      ensures r == if !attached then Returned(n - 1) else if at.height == 0 then Stopped else Returned(at.height + n)
      decreases n
    {
      assert n == 0 <==> be.height >= 0;
      if be.height > 0 {
        return Returned(be.height);
      }
      if be.height != -1 {
        return Stopped;
      }
      var prev := Lookup(be.header.prevBlock);
      ghost var m := n - 1;
      if m > 0 {
        assert FindsParent(orphans, path, m - 1);
      } else {
        assert prev == if attached then at else null;
      }
      if prev == null {
        return Returned(0);
      }
      var h := FindAlternateChainHeight(prev, attached, at, path, m);
      r := if h.Stopped? then Stopped else Returned(1 + h.value);
    }

    // ----- rewiring -----

    /** `tail` hangs off `at` by `next`. */
    ghost predicate TailLinked(at: Entry, tail: seq<Entry>)
      reads at, tail
    {
      && at.next == (if tail == [] then null else tail[0])
      && (forall i, k :: 0 <= i < k <= i + 1 && k < |tail| ==> tail[i].next == tail[k])
      && (tail != [] ==> tail[|tail| - 1].next == null)
    }

    /** The first `n` entries of `path` continue the main chain above its entry `at`. */
    ghost predicate PathLinked(at: Entry, j: int, path: seq<Entry>, n: nat)
      requires n <= |path|
      reads at, path
    {
      && (forall i :: 0 <= i < n ==> path[i].height == j + 1 + i)
      && (n > 0 ==> at.next == path[0] && path[0].prev == at)
      && (forall i, k :: 0 <= i < k <= i + 1 && k < n ==> path[i].next == path[k] && path[k].prev == path[i])
    }

    /** The first `n` entries of `path` are on the main chain in place of `tail`, both in the
        links and in the two indexes, which held `main` and `free` before. */
    ghost predicate Rewired(main: set<Entry>, free: set<Entry>, at: Entry, j: int,
                            tail: seq<Entry>, path: seq<Entry>, n: nat)
      requires n <= |path|
      reads this, at, path, tail
    {
      && PathLinked(at, j, path, n)
      && Hold((main - EntrySet(tail)) + First(path, n), (free + EntrySet(tail)) - First(path, n))
      && forall i :: 0 <= i < |tail| ==> tail[i].height == -1
    }

    /** `tail` is part of the main chain, and `path` is made of different orphans. */
    ghost predicate Apart(main: set<Entry>, free: set<Entry>, at: Entry, tail: seq<Entry>, path: seq<Entry>) {
      && main !! free && at in main && at !in tail && EntrySet(tail) <= main && EntrySet(path) <= free
      && (forall i, k :: 0 <= i < k < |tail| ==> tail[i] != tail[k])
      && (forall i, k :: 0 <= i < k < |path| ==> path[i] != path[k])
    }

    /** The two indexes hold `a` and `b`. */
    ghost predicate Hold(a: set<Entry>, b: set<Entry>)
      reads this
    {
      Indexes(net, blk, a) && Indexes(net, orphans, b) && Unique(net, a + b) && a !! b
    }

    /** Removal from the main index and insertion as an orphan; neither can fail. */
    method ToOrphans(e: Entry, ghost a: set<Entry>, ghost b: set<Entry>)
      requires Hold(a, b) && e in a
      modifies this`blk, this`orphans
      ensures Hold(a - {e}, b + {e})
    {
      var k := net.hash(e.header);
      assert k in blk;
      blk := blk - {k};
      assert k !in orphans;
      orphans := orphans[k := e];
    }

    method ToMain(e: Entry, ghost a: set<Entry>, ghost b: set<Entry>)
      requires Hold(a, b) && e in b
      modifies this`blk, this`orphans
      ensures Hold(a + {e}, b - {e})
    {
      var k := net.hash(e.header);
      assert k in orphans;
      orphans := orphans - {k};
      assert k !in blk;
      blk := blk[k := e];
    }

    /** The first `t` entries of `tail` are orphans, in the index and by height. */
    ghost predicate Orphaned(main: set<Entry>, free: set<Entry>, tail: seq<Entry>, t: nat)
      requires t <= |tail|
      reads this, tail
    {
      && Hold(main - First(tail, t), free + First(tail, t))
      && forall i :: 0 <= i < t ==> tail[i].height == -1
    }

    method OrphanOne(li: Entry, ghost main: set<Entry>, ghost free: set<Entry>, ghost tail: seq<Entry>, ghost t: nat)
      requires t < |tail| && li == tail[t] && Orphaned(main, free, tail, t)
      requires EntrySet(tail) <= main && forall i, k :: 0 <= i < k < |tail| ==> tail[i] != tail[k]
      modifies this`blk, this`orphans, li`height
      ensures Orphaned(main, free, tail, t + 1)
    {
      assert li in EntrySet(tail) && li !in First(tail, t);
      FirstSnoc(tail, t);
      assert main - First(tail, t + 1) == main - First(tail, t) - {li};
      assert free + First(tail, t + 1) == free + First(tail, t) + {li};
      ToOrphans(li, main - First(tail, t), free + First(tail, t));
      li.height := -1;
    }

    /** The main chain above the junction becomes orphans. */
    method OrphanTail(be: Entry, ghost main: set<Entry>, ghost free: set<Entry>, ghost tail: seq<Entry>)
      requires TailLinked(be, tail) && Orphaned(main, free, tail, 0) && EntrySet(tail) <= main
      requires forall i, k :: 0 <= i < k < |tail| ==> tail[i] != tail[k]
      modifies this`blk, this`orphans, tail`height
      ensures Orphaned(main, free, tail, |tail|)
    {
      var li := be.next;
      ghost var t := 0;
      while li != null
        invariant t <= |tail|
        invariant li == if t < |tail| then tail[t] else null
        invariant Orphaned(main, free, tail, t)
        decreases |tail| - t
      {
        OrphanOne(li, main, free, tail, t);
        li := li.next;
        t := t + 1;
      }
    }

    lemma RewiredStart(main: set<Entry>, free: set<Entry>, at: Entry, j: int, tail: seq<Entry>, path: seq<Entry>)
      ensures Hold(main, free) ==> Orphaned(main, free, tail, 0)
      ensures Orphaned(main, free, tail, |tail|) ==> Rewired(main, free, at, j, tail, path, 0)
    {
      FirstAll(tail);
      assert main - First(tail, 0) == main && free + First(tail, 0) == free;
      assert (main - EntrySet(tail)) + First(path, 0) == main - EntrySet(tail);
      assert (free + EntrySet(tail)) - First(path, 0) == free + EntrySet(tail);
    }

    /** Puts `be` on top of the part of a branch that is already wired. */
    method LinkAbove(be: Entry, height: int, prev: Entry, ghost at: Entry, ghost j: int, ghost path: seq<Entry>, ghost n: nat)
      requires n < |path| && be == path[n] && at !in path
      requires forall i, k :: 0 <= i < k < |path| ==> path[i] != path[k]
      requires prev == if n == 0 then at else path[n - 1]
      requires PathLinked(at, j, path, n) && height == j + n + 1
      modifies be`height, be`prev, prev`next
      ensures PathLinked(at, j, path, n + 1)
      ensures be.height == height
    {
      be.height := height;
      prev.next := be;
      be.prev := prev;
    }

    /** Links `be` and moves it from the orphans to the main chain. */
    method Promote(be: Entry, height: int, prev: Entry, ghost main: set<Entry>, ghost free: set<Entry>,
                   ghost at: Entry, ghost j: int, ghost tail: seq<Entry>, ghost path: seq<Entry>, ghost n: nat)
      requires Apart(main, free, at, tail, path) && n < |path| && be == path[n]
      requires prev == if n == 0 then at else path[n - 1]
      requires Rewired(main, free, at, j, tail, path, n) && height == j + n + 1
      modifies this`blk, this`orphans, be`height, be`prev, prev`next
      ensures Rewired(main, free, at, j, tail, path, n + 1)
      ensures be.height == height
    {
      assert forall i :: 0 <= i < |path| ==> path[i] in EntrySet(path);
      LinkAbove(be, height, prev, at, j, path, n);
      FirstSnoc(path, n);
      ghost var a, b := (main - EntrySet(tail)) + First(path, n), (free + EntrySet(tail)) - First(path, n);
      assert a + {be} == (main - EntrySet(tail)) + First(path, n + 1);
      assert b - {be} == (free + EntrySet(tail)) - First(path, n + 1);
      ToMain(be, a, b);
    }

    /** `blockstore_set_chain_links` for the entry that the first `n` entries of the branch `path`
        end in: rewires them on top of the main chain's entry `at`, after moving the `tail` that
        they replace to the orphans. */
    method SetChainLinks(be: Entry, ghost attached: bool, ghost main: set<Entry>, ghost free: set<Entry>,
                         ghost at: Entry, ghost j: int, ghost tail: seq<Entry>, ghost path: seq<Entry>, ghost n: nat)
      returns (r: Outcome<int>)
      requires n <= |path| && be == (if n == 0 then at else path[n - 1]) && (attached || n > 0)
      requires ParentsFound(attached, at, path)
      requires forall i :: 0 <= i < |path| ==> path[i].height == -1
      requires attached ==> at.height == j >= 0 && TailLinked(at, tail) && Apart(main, free, at, tail, path)
      requires attached ==> Hold(main, free)
      modifies this`blk, this`orphans, tail`height, path`height, path`prev, at`next, path`next
      ensures r.Returned? <==> attached
      ensures attached ==> r.value == j + n && Rewired(main, free, at, j, tail, path, n)
      ensures forall e :: e in path && (n == 0 || e !in First(path, n - 1)) ==> e.next == old(e.next)
      decreases n
    {
      hide Indexes, Unique;
      assert n == 0 <==> be.height >= 0;
      if be.height >= 0 {
        RewiredStart(main, free, at, j, tail, path);
        OrphanTail(be, main, free, tail);
        RewiredStart(main, free, at, j, tail, path);
        return Returned(be.height);
      }
      var p := be.header.prevBlock;
      ghost var m := n - 1;
      if m > 0 {
        assert FindsParent(orphans, path, m - 1);
      } else {
        assert p == path[0].header.prevBlock;
      }
      if p !in orphans && p !in blk {
        return Stopped;
      }
      var prev := if p in orphans then orphans[p] else blk[p];
      assert prev == if m == 0 then at else path[m - 1];
      var h := SetChainLinks(prev, attached, main, free, at, j, tail, path, m);
      if h.Stopped? {
        return Stopped;
      }
      Promote(be, 1 + h.value, prev, main, free, at, j, tail, path, m);
      return Returned(be.height);
    }

    /** A linked prefix and a linked branch on top of it make a linked chain. */
    lemma SpliceLinked(before: seq<Entry>, j: nat, path: seq<Entry>)
      requires j < |before| && path != [] && LinkedUpTo(before, j) && path[|path| - 1].next == null
      requires PathLinked(before[j], j, path, |path|)
      ensures SeqLinked(before[..j + 1] + path)
    {
      var es := before[..j + 1] + path;
      forall i, k | 0 <= i < k <= i + 1 && k < |es| ensures es[i].next == es[k] && es[k].prev == es[i] {
        if k <= j {
          assert es[i] == before[i] && es[k] == before[k];
        } else if i == j {
          assert es[i] == before[j] && es[k] == path[0];
        } else {
          assert es[i] == path[i - j - 1] && es[k] == path[k - j - 1];
        }
      }
    }

    /** Which entries are where after a switch of branches. */
    lemma SpliceSets(before: seq<Entry>, free: set<Entry>, j: nat, path: seq<Entry>)
      requires j < |before| && Hold(EntrySet(before), free)
      requires EntrySet(path) <= free && forall i, k :: 0 <= i < k < |before| ==> before[i] != before[k]
      ensures var tail := before[j + 1..]; var after := before[..j + 1] + path;
        var left := (free + EntrySet(tail)) - EntrySet(path);
        && EntrySet(after) == (EntrySet(before) - EntrySet(tail)) + EntrySet(path)
        && EntrySet(after) + left == EntrySet(before) + free
        && EntrySet(after) !! left
        && Chain(Headers(after), HeaderSet(left)) == Rewire(Chain(Headers(before), HeaderSet(free)), j, Headers(path))
    {
      var tail, after := before[j + 1..], before[..j + 1] + path;
      var left := (free + EntrySet(tail)) - EntrySet(path);
      SpliceEntries(before, j, path);
      assert EntrySet(tail) <= EntrySet(before);
      LooseHeaders(net, EntrySet(before) + free, free, EntrySet(tail), EntrySet(path));
      assert EntrySet(tail) - EntrySet(path) == EntrySet(tail);
      HeadersElems(tail);
      HeadersElems(path);
      assert Headers(after) == Headers(before)[..j + 1] + Headers(path);
      assert Headers(tail) == Headers(before)[j + 1..];
    }

    lemma SpliceEntries(before: seq<Entry>, j: nat, path: seq<Entry>)
      requires j < |before| && EntrySet(path) !! EntrySet(before)
      requires forall i, k :: 0 <= i < k < |before| ==> before[i] != before[k]
      ensures EntrySet(before[..j + 1] + path) == (EntrySet(before) - EntrySet(before[j + 1..])) + EntrySet(path)
    {
      var low, tail := before[..j + 1], before[j + 1..];
      assert before == low + tail;
      forall e | e in low ensures e !in tail {
        var i :| 0 <= i < |low| && low[i] == e;
        assert forall k :: 0 <= k < |tail| ==> tail[k] == before[j + 1 + k];
      }
    }

    /** The part of a main chain up to position `j` is linked; `next` of position `j` is free. */
    ghost predicate LinkedUpTo(es: seq<Entry>, j: nat)
      requires j < |es|
      reads es
    {
      && (forall i :: 0 <= i <= j ==> es[i].height == i)
      && (forall i, k :: 0 <= i < k <= i + 1 && k <= j ==> es[i].next == es[k] && es[k].prev == es[i])
      && es[0].prev == null
    }

    /** The pieces of a switch of branches: the chain `before` gives up `tail` for `path` above
        position `j`, which makes the chain `after` and leaves the entries `left` loose. */
    ghost predicate Pieces(before: seq<Entry>, free: set<Entry>, j: nat, tail: seq<Entry>, path: seq<Entry>,
                           after: seq<Entry>, left: set<Entry>) {
      && j < |before| && tail == before[j + 1..] && path != [] && after == before[..j + 1] + path
      && left == (free + EntrySet(tail)) - EntrySet(path)
      && EntrySet(after) == (EntrySet(before) - EntrySet(tail)) + EntrySet(path)
      && Apart(EntrySet(before), free, before[j], tail, path)
      && (forall i :: 0 <= i <= j ==> before[i] !in tail && before[i] !in path)
      && (forall i, k :: 0 <= i < k < |before| ==> before[i] != before[k])
      && path[|path| - 1] !in First(path, |path| - 1)
    }

    /** Runs the rewiring and says what it leaves: a linked chain, the indexes switched, and
        everything loose at height -1. A branch that is not attached stops it. */
    method Relink(be: Entry, ghost attached: bool, ghost before: seq<Entry>, ghost free: set<Entry>, ghost j: nat, ghost at: Entry,
                  ghost tail: seq<Entry>, ghost path: seq<Entry>, ghost after: seq<Entry>, ghost left: set<Entry>)
      returns (r: Outcome<int>)
      requires path != [] && be == path[|path| - 1] && be.next == null && ParentsFound(attached, at, path)
      requires forall i :: 0 <= i < |path| ==> path[i].height == -1
      requires attached ==> Pieces(before, free, j, tail, path, after, left) && at == before[j]
      requires attached ==> LinkedUpTo(before, j) && TailLinked(at, tail) && Hold(EntrySet(before), free)
      requires attached ==> forall e :: e in free ==> e.height == -1
      modifies this`blk, this`orphans, tail`height, path`height, path`prev, at`next, path`next
      ensures r.Returned? <==> attached
      ensures attached ==> SeqLinked(after) && Hold(EntrySet(after), left)
      ensures attached ==> forall e :: e in left ==> e.height == -1
    {
      hide Indexes, Unique, PathLinked, ParentsFound, TailLinked, Apart, SeqLinked;
      r := SetChainLinks(be, attached, EntrySet(before), free, at, j, tail, path, |path|);
      if r.Returned? {
        FirstAll(path);
        assert LinkedUpTo(before, j);
        SpliceLinked(before, j, path);
      }
    }

    /** Points the store at the rewired chain. */
    method Install(be: Entry, altHeight: int, ghost after: seq<Entry>, ghost left: set<Entry>)
      requires after != [] && be == after[|after| - 1] && genesis == after[0] && altHeight == |after| - 1
      requires SeqLinked(after) && Hold(EntrySet(after), left)
      requires forall e :: e in left ==> e.height == -1
      requires HeaderChain.Structured(net, Chain(Headers(after), HeaderSet(left)))
      modifies this`best, this`height, this`bestHash, this`chain, this`loose
      ensures Held() && chain == after && loose == left
    {
      hide HeaderChain.Structured, SeqLinked, Indexes, Unique, HeaderSet, EntrySet;
      chain, loose := after, left;
      best, height, bestHash := be, altHeight, net.hash(be.header);
    }

    lemma Planned(be: Entry, at: Entry, path: seq<Entry>) returns (tail: seq<Entry>, after: seq<Entry>, left: set<Entry>)
      requires Held() && at in chain && at.height > 0 && path != [] && be == path[|path| - 1]
      requires ParentsFound(true, at, path) && PathOfOrphans(path)
      requires BranchOf(net, View(), be.header) == Attached(at.height, Headers(path))
      ensures 0 <= at.height < |chain| && chain[at.height] == at
      ensures after != [] && genesis == after[0] && be == after[|after| - 1] && |after| == at.height + 1 + |path|
      ensures Pieces(chain, loose, at.height, tail, path, after, left)
      ensures LinkedUpTo(chain, at.height) && TailLinked(at, tail) && Hold(EntrySet(chain), loose)
      ensures EntrySet(after) + left == Entries() && EntrySet(tail) + EntrySet(path) <= Entries()
      ensures HeaderChain.Structured(net, Chain(Headers(after), HeaderSet(left)))
      ensures Chain(Headers(after), HeaderSet(left)) == Rewire(View(), at.height, Headers(path))
    {
      hide HeaderChain.Structured, BranchOf, SeqLinked, Indexes, Unique, LinkedUpTo, TailLinked, ParentsFound, PathOfOrphans;
      hide Apart, Headers, HeaderSet, EntrySet, BestIsTip, Known, Rewire;
      var j := at.height;
      ReadyToRewire(at, path);
      tail, after := chain[j + 1..], chain[..j + 1] + path;
      left := (loose + EntrySet(tail)) - EntrySet(path);
      BranchSet(chain, j, tail, path);
      SpliceSets(chain, loose, j, path);
      RewireKeeps(net, View(), be.header, j, Headers(path));
    }

    /** Switches the best chain to the branch `path` above `at`, if it is attached. */
    method TakeBranch(be: Entry, altHeight: int, ghost attached: bool, ghost at: Entry, ghost path: seq<Entry>)
      returns (r: Outcome<()>)
      requires Held() && at in Entries() && path != [] && be == path[|path| - 1] && be.next == null
      requires ParentsFound(attached, at, path) && PathOfOrphans(path) && EntrySet(path) <= Entries()
      requires attached ==> at in chain && at.height > 0 && altHeight == at.height + |path|
      requires attached ==> BranchOf(net, View(), be.header) == Attached(at.height, Headers(path))
      modifies this`best, this`height, this`bestHash, this`blk, this`orphans, this`chain, this`loose
      modifies Entries()`height, Entries()`prev, Entries()`next
      ensures r.Returned? <==> attached
      ensures attached ==> Held() && Entries() == old(Entries())
      ensures attached ==> View() == Rewire(old(View()), old(at.height), Headers(path))
    {
      hide HeaderChain.Structured, SeqLinked, LinkedUpTo, TailLinked, Pieces, Hold, Indexes, Unique, BranchOf, ParentsFound;
      hide Headers, HeaderSet, Rewire;
      ghost var tail, after, left := [], [], {};
      ghost var j := 0;
      if attached {
        tail, after, left := Planned(be, at, path);
        j := at.height;
      }
      var linked := Relink(be, attached, chain, loose, j, at, tail, path, after, left);
      if linked.Stopped? {
        return Stopped;
      }
      Install(be, altHeight, after, left);
      r := Returned(());
    }

    lemma BranchSet(before: seq<Entry>, j: nat, tail: seq<Entry>, path: seq<Entry>)
      requires Held() && before == chain && j < |chain| && tail == chain[j + 1..] && PathOfOrphans(path)
      ensures EntrySet(path) <= loose && EntrySet(tail) <= EntrySet(chain)
      ensures forall i :: 0 <= i <= j ==> before[i] !in tail && before[i] !in path
      ensures forall i, k :: 0 <= i < k < |before| ==> before[i] != before[k]
      ensures path != [] ==> path[|path| - 1] !in First(path, |path| - 1)
      ensures path != [] ==> path[|path| - 1].header in View().orphans
      ensures genesis == chain[0]
    {
      hide HeaderChain.Structured, Indexes, Unique;
      forall i | 0 <= i <= j ensures before[i] !in tail {
        assert forall k :: 0 <= k < |tail| ==> tail[k] == chain[k + j + 1];
      }
    }

    /** `blockstore_set_best_chain`. */
    method SetBestChain(be: Entry) returns (r: Outcome<()>)
      requires Held() && be in loose && be.next == null && chain != []
      modifies this`best, this`height, this`bestHash, this`blk, this`orphans, this`chain, this`loose
      modifies Entries()`height, Entries()`prev, Entries()`next
      ensures r.Stopped? <==> HeaderChain.SetBestChain(net, old(View()), be.header).Stopped?
      ensures r.Returned? ==> Held() && Entries() == old(Entries())
                              && View() == HeaderChain.SetBestChain(net, old(View()), be.header).value
    {
      hide HeaderChain.Structured, SeqLinked, Indexes, Unique, BranchOf, ParentsFound, PathOfOrphans;
      ghost var attached, at, path := BranchEntries(be);
      SearchReady(attached, at);
      var found := FindAlternateChainHeight(be, attached, at, path, |path|);
      if found.Stopped? {
        return Stopped;
      }
      if found.value <= height {
        return Returned(());
      }
      r := TakeBranch(be, found.value, attached, at, path);
    }

    lemma SearchReady(attached: bool, at: Entry)
      requires Held() && (attached ==> at in chain)
      ensures attached ==> 0 <= at.height < |chain|
      ensures chain != [] ==> height == |View().main| - 1
    {
    }

    lemma ReadyToRewire(at: Entry, path: seq<Entry>)
      requires Held() && at in chain && PathOfOrphans(path)
      ensures 0 <= at.height < |chain| && chain[at.height] == at && LinkedUpTo(chain, at.height)
      ensures var tail := chain[at.height + 1..];
        TailLinked(at, tail) && Apart(EntrySet(chain), loose, at, tail, path) && Hold(EntrySet(chain), loose)
    {
      hide HeaderChain.Structured, Indexes, Unique, SeqLinked, TailLinked, LinkedUpTo;
      EntryKind(at);
      SeqPieces(chain, at.height);
      TailApart(chain, at.height, path);
    }

    lemma SeqPieces(es: seq<Entry>, j: nat)
      requires SeqLinked(es) && j < |es|
      ensures LinkedUpTo(es, j) && TailLinked(es[j], es[j + 1..])
      ensures forall i, k :: 0 <= i < k < |es| ==> es[i] != es[k]
    {
    }

    lemma TailApart(es: seq<Entry>, j: nat, path: seq<Entry>)
      requires j < |es| && (forall i, k :: 0 <= i < k < |es| ==> es[i] != es[k])
      requires EntrySet(es) !! loose && PathOfOrphans(path)
      ensures Apart(EntrySet(es), loose, es[j], es[j + 1..], path)
    {
      var tail := es[j + 1..];
      assert forall i :: 0 <= i < |tail| ==> tail[i] == es[i + j + 1];
    }

    // ----- adding an entry -----

    /** A new entry: not linked to anything, and with a hash nobody has. */
    ghost predicate Fresh(be: Entry)
      reads this, be
    {
      && be !in Entries() && be.prev == null && be.next == null && Offered(net, be.header)
      && !Has(net, Known(View()), net.hash(be.header))
    }

    /** A new hash is in neither index. */
    lemma FreshHash(be: Entry)
      requires Valid() && Fresh(be)
      ensures net.hash(be.header) !in blk && net.hash(be.header) !in orphans
      ensures Unique(net, Entries() + {be})
      ensures !Has(net, Elems(View().main), net.hash(be.header)) && !Has(net, View().orphans, net.hash(be.header))
    {
      hide HeaderChain.Valid, HeaderChain.Structured, SeqLinked;
      var k := net.hash(be.header);
      KnownHas(net, View(), k);
      HeaderSetHas(net, loose, k);
      HeadersElems(chain);
      HeaderSetHas(net, EntrySet(chain), k);
    }

    lemma IndexInsert(m: map<Hash, Entry>, s: set<Entry>, e: Entry)
      requires Indexes(net, m, s) && net.hash(e.header) !in m
      ensures Indexes(net, m[net.hash(e.header) := e], s + {e})
    {
    }

    /** Puts a first entry, or a child of the tip, on the main chain. */
    method Append(be: Entry)
      requires Valid() && Fresh(be)
      requires if chain == [] then net.hash(be.header) == net.genesisHash else be.header.prevBlock == bestHash
      modifies this`best, this`genesis, this`height, this`bestHash, this`blk, this`chain, this`loose
      modifies be`height, be`prev, Entries()`next
      ensures Valid() && Entries() == old(Entries()) + {be} && be in chain
      ensures View() == old(View()).(main := old(View()).main + [be.header])
    {
      hide HeaderChain.Valid, HeaderChain.Structured, Unique, HeaderSet, Has, SeqLinked, Headers, Known;
      FreshHash(be);
      IndexInsert(blk, EntrySet(chain), be);
      ExtendKeeps(net, View(), be.header);
      AppendSets(chain, be);
      ghost var after := chain + [be];
      assert EntrySet(after) + loose == Entries() + {be};
      blk := blk[net.hash(be.header) := be];
      if best == null {
        genesis := be;
        be.height := 0;
      } else {
        LinkTip(be, best, chain);
      }
      SingleLinked(be);
      assert chain == [] ==> after == [be];
      Install(be, be.height, after, loose);
    }

    /** Links `be` above the tip. */
    method LinkTip(be: Entry, tip: Entry, ghost es: seq<Entry>)
      requires SeqLinked(es) && es != [] && tip == es[|es| - 1] && be !in es && be.next == null
      modifies be`height, be`prev, tip`next
      ensures SeqLinked(es + [be]) && be.height == |es|
    {
      be.height := tip.height + 1;
      tip.next := be;
      be.prev := tip;
    }

    lemma SingleLinked(be: Entry)
      ensures be.height == 0 && be.prev == null && be.next == null ==> SeqLinked([be])
    {
    }

    lemma AppendSets(was: seq<Entry>, be: Entry)
      ensures EntrySet(was + [be]) == EntrySet(was) + {be}
      ensures Headers(was + [be]) == Headers(was) + [be.header]
    {
    }

    /** Stores an orphan. */
    method AddOrphan(be: Entry)
      requires Valid() && Fresh(be) && chain != []
      modifies this`orphans, this`loose, be`height
      ensures Held() && Entries() == old(Entries()) + {be} && be in loose && be.next == null && chain == old(chain)
      ensures View() == old(View()).(orphans := old(View()).orphans + {be.header})
    {
      hide HeaderChain.Valid, HeaderChain.Structured, Unique, Has, SeqLinked, Headers, HeaderSet, Indexes;
      FreshHash(be);
      HeaderSetAdd(loose, be);
      IndexInsert(orphans, loose, be);
      OrphanKeeps(net, View(), be.header);
      be.height := -1;
      orphans := orphans[net.hash(be.header) := be];
      loose := loose + {be};
      assert Entries() == old(Entries()) + {be};
    }

    /** `blockstore_add_entry`. */
    method AddEntry(be: Entry) returns (r: Outcome<()>)
      requires Valid() && Fresh(be)
      modifies this`best, this`genesis, this`height, this`bestHash, this`blk, this`orphans, this`chain, this`loose
      modifies be`height, be`prev, be`next, Entries()`height, Entries()`prev, Entries()`next
      ensures r.Stopped? <==> HeaderChain.AddEntry(net, old(View()), be.header).Stopped?
      ensures r.Returned? ==> Valid() && Entries() == old(Entries()) + {be}
                              && View() == HeaderChain.AddEntry(net, old(View()), be.header).value
    {
      hide HeaderChain.Valid, HeaderChain.Structured, SeqLinked, Indexes, Unique, HeaderSet, Known, HeaderChain.SetBestChain;
      FreshHash(be);
      TipFacts(be);
      if best == null {
        if net.hash(be.header) != net.genesisHash {
          return Stopped;
        }
        Append(be);
        return Returned(());
      }
      if be.header.prevBlock == bestHash {
        Append(be);
        return Returned(());
      }
      ghost var v := View();
      AddOrphan(be);
      r := SetBestChain(be);
      if r.Returned? {
        AddEntryKeeps(net, v, be.header);
      }
    }

    /** The tip fields agree with the chain on values. */
    lemma TipFacts(be: Entry)
      requires Valid() && Fresh(be)
      ensures best == null <==> View().main == []
      ensures best != null ==> bestHash == net.hash(View().main[|View().main| - 1])
      ensures best == null ==> View().main + [be.header] == [be.header]
      ensures !Has(net, Known(View()), net.hash(be.header))
    {
    }

    /** `blockstore_add_header`; the caller computes the hash. */
    method AddHeader(header: Header, hash: Hash) returns (r: Outcome<bool>, orphan: bool)
      requires Valid() && Offered(net, header) && hash == net.hash(header)
      modifies this`best, this`genesis, this`height, this`bestHash, this`blk, this`orphans, this`chain, this`loose
      modifies Entries()`height, Entries()`prev, Entries()`next
      ensures r.Stopped? <==> HeaderChain.AddHeader(net, old(View()), header).Stopped?
      ensures r.Returned? ==> Valid() && View() == HeaderChain.AddHeader(net, old(View()), header).value
      ensures r.Returned? ==> (r.value <==> !Has(net, Known(old(View())), hash))
      ensures r.Returned? ==> (orphan <==> r.value && header in View().orphans)
      ensures r.Returned? ==> old(Entries()) <= Entries()
                              && forall e :: e in Entries() - old(Entries()) ==> fresh(e) && !e.written
    {
      hide HeaderChain.Structured, SeqLinked, Indexes, Unique, HeaderChain.AddEntry, Known;
      orphan := false;
      var known := Lookup(hash);
      if known != null {
        KnownEntry(known);
        return Returned(false), false;
      }
      var be := new Entry(header, false);
      var a := AddEntry(be);
      if a.Stopped? {
        return Stopped, false;
      }
      orphan := be.height == -1;
      NewKind(be);
      r := Returned(true);
    }

    lemma KnownEntry(e: Entry)
      requires Held() && e in Entries()
      ensures Has(net, Known(View()), net.hash(e.header))
    {
      EntryKind(e);
      if e in chain {
        assert View().main[e.height] in Known(View());
      } else {
        assert e.header in Known(View());
      }
    }

    lemma NewKind(be: Entry)
      requires Held() && be in Entries()
      ensures be.height == -1 <==> be.header in View().orphans
    {
      hide HeaderChain.Structured, Indexes;
      EntryKind(be);
      if be.header in View().orphans {
        var e :| e in loose && e.header == be.header;
        assert e == be;
      }
    }

    // ----- the header file -----

    /** The headers whose entry is flagged as written. */
    ghost function Written(): set<Header>
      reads this, Entries()`written
    {
      HeaderSet(Flagged())
    }

    ghost function Flagged(): set<Entry>
      reads this, Entries()`written
    {
      set e | e in Entries() && e.written
    }

    /** The store as HeaderReplay sees it. */
    ghost function Saved(): HeaderReplay.Store
      reads this, Entries()
    {
      HeaderReplay.Store(View(), Written(), file)
    }

    lemma WrittenAt(i: nat)
      requires Held() && i < |chain|
      ensures View().main[i] in Written() <==> chain[i].written
    {
      hide HeaderChain.Structured, Indexes;
      if View().main[i] in Written() {
        var e :| e in Entries() && e.written && e.header == View().main[i];
        assert e == chain[i];
      }
    }

    /** Position `m` is where the unwritten end of the main chain starts. */
    ghost predicate UnwrittenEnd(m: nat)
      reads this, chain
    {
      && m <= |chain| && (forall i :: m <= i < |chain| ==> !chain[i].written)
      && (m > 0 ==> chain[m - 1].written)
    }

    lemma UnwrittenCount(m: nat)
      requires Held() && UnwrittenEnd(m)
      ensures UnwrittenFrom(View().main, Written(), |chain|) == m
    {
      hide HeaderChain.Structured, Indexes, Unique, SeqLinked, Written;
      var k := UnwrittenFrom(View().main, Written(), |chain|);
      if m < k {
        WrittenAt(k - 1);
      } else if k < m {
        WrittenAt(m - 1);
      }
    }

    lemma StepBack(es: seq<Entry>, m: nat)
      requires SeqLinked(es) && 0 < m <= |es|
      ensures es[m - 1].prev == if m == 1 then null else es[m - 2]
    {
    }

    /** `blockstore_write_headers`: walks back from the tip over the entries not yet written,
        collects their headers oldest first, flags them, and appends them to the file. */
    method WriteHeaders(ok: bool) returns (r: Outcome<()>)
      requires Valid()
      modifies this`file, Entries()`written
      ensures r.Stopped? <==> HeaderReplay.WriteHeaders(old(Saved()), ok).Stopped?
      ensures r.Returned? ==> Valid() && Saved() == HeaderReplay.WriteHeaders(old(Saved()), ok).value
    {
      hide HeaderChain.Valid, HeaderChain.Structured, Indexes, Unique, SeqLinked, Headers, HeaderSet;
      var count, m := CountUnwritten();
      UnwrittenCount(m);
      if count >= MAX_UNWRITTEN {
        return Stopped;
      }
      var buf := Collect(count, m);
      if ok {
        AppendFile(buf);
      }
      r := Returned(());
    }

    /** A successful `file_pwrite` at the end of the file. */
    method AppendFile(buf: seq<Header>)
      requires Held()
      modifies this`file
      ensures Held() && file == old(file) + buf && Written() == old(Written())
    {
      hide HeaderChain.Structured, Indexes, Unique, Headers, HeaderSet;
      file := file + buf;
      assert Flagged() == old(Flagged());
    }

    method CountUnwritten() returns (count: nat, ghost m: nat)
      requires Held()
      ensures UnwrittenEnd(m) && count == |chain| - m
      ensures count == |chain| - UnwrittenFrom(View().main, Written(), |chain|)
    {
      hide HeaderChain.Structured, Indexes, Unique;
      var e := best;
      count := 0;
      m := |chain|;
      while e != null && !e.written
        invariant m <= |chain| && e == (if m == 0 then null else chain[m - 1]) && count == |chain| - m
        invariant forall i :: m <= i < |chain| ==> !chain[i].written
        decreases m
      {
        StepBack(chain, m);
        e := e.prev;
        count := count + 1;
        m := m - 1;
      }
      UnwrittenCount(m);
    }

    /** Fills the write buffer from its end and flags what it holds. */
    method Collect(count: nat, ghost m: nat) returns (hdrs: seq<Header>)
      requires Held() && UnwrittenEnd(m) && count == |chain| - m
      modifies Entries()`written
      ensures Held() && hdrs == View().main[m..]
      ensures Written() == old(Written()) + Elems(View().main[m..])
    {
      hide HeaderChain.Structured, Indexes, Unique, Headers, HeaderSet, Elems, HeaderChain.Valid, SeqLinked, BackLinked;
      ChainTail(m);
      hdrs := FlagFrom(count, m, chain[m..]);
      HeadersElems(chain[m..]);
      assert Flagged() == old(Flagged()) + EntrySet(chain[m..]);
      HeaderSetUnion(old(Flagged()), EntrySet(chain[m..]));
    }

    method FlagFrom(count: nat, ghost m: nat, ghost tail: seq<Entry>) returns (hdrs: seq<Header>)
      requires Held() && UnwrittenEnd(m) && count == |chain| - m && tail == chain[m..]
      modifies tail`written
      ensures hdrs == Headers(tail)
      ensures forall i :: 0 <= i < |tail| ==> tail[i].written
    {
      hide HeaderChain.Structured, Indexes, Unique, HeaderSet, HeaderChain.Valid, SeqLinked, BackLinked;
      ChainTail(m);
      var buf := Gather(best, count, if m == 0 then null else chain[m - 1], tail);
      hdrs := buf[..];
    }

    /** `tail` is reached from its last entry by `prev`, which ends in `stop`. */
    ghost predicate BackLinked(stop: Entry?, tail: seq<Entry>)
      reads tail
    {
      && (tail != [] ==> tail[0].prev == stop)
      && (forall i, j :: 0 <= i < j <= i + 1 && j < |tail| ==> tail[j].prev == tail[i])
    }

    method Gather(tip: Entry?, count: nat, ghost stop: Entry?, ghost tail: seq<Entry>) returns (buf: array<Header>)
      requires count == |tail| && tip == if tail == [] then stop else tail[|tail| - 1]
      requires forall i :: 0 <= i < |tail| ==> !tail[i].written
      requires stop != null ==> stop.written && stop !in tail
      requires BackLinked(stop, tail) && forall i, j :: 0 <= i < j < |tail| ==> tail[i] != tail[j]
      modifies tail`written
      ensures fresh(buf) && buf[..] == Headers(tail)
      ensures forall i :: 0 <= i < |tail| ==> tail[i].written
    {
      buf := new Header[count];
      var e := tip;
      var left: nat := count;
      while e != null && !e.written
        invariant left <= count && e == (if left == 0 then stop else tail[left - 1])
        invariant forall i :: 0 <= i < left ==> !tail[i].written
        invariant forall i :: left <= i < count ==> tail[i].written && buf[i] == tail[i].header
        decreases left
      {
        left := left - 1;
        buf[left] := e.header;
        e.written := true;
        BackStep(stop, tail, left);
        e := e.prev;
      }
    }

    lemma BackStep(stop: Entry?, tail: seq<Entry>, k: nat)
      requires BackLinked(stop, tail) && k < |tail|
      ensures tail[k].prev == if k == 0 then stop else tail[k - 1]
    {
    }

    /** The end of the main chain from position `m` is linked back to the entry before it. */
    lemma ChainTail(m: nat)
      requires Held() && m <= |chain|
      ensures BackLinked(if m == 0 then null else chain[m - 1], chain[m..])
      ensures forall i, j :: 0 <= i < j < |chain| - m ==> chain[m..][i] != chain[m..][j]
      ensures m > 0 ==> chain[m - 1] !in chain[m..]
      ensures EntrySet(chain[m..]) <= Entries() && Headers(chain[m..]) == View().main[m..]
      ensures best == if chain == [] then null else chain[|chain| - 1]
    {
      hide HeaderChain.Structured, Indexes, Unique;
    }

    // ----- loading -----

    /** The store after the first `k` headers of a file. */
    ghost predicate Loaded(contents: seq<Header>, k: nat)
      requires k <= |contents|
      reads this, Entries()
    {
      && Valid() && (forall e :: e in Entries() ==> e.written)
      && HeaderReplay.Fresh(net, contents[..k]) && Load(net, contents[..k]) == Returned(View())
    }

    lemma LoadedNothing(contents: seq<Header>)
      requires Valid() && View() == EmptyChain && Entries() == {}
      ensures Loaded(contents, 0)
    {
      hide HeaderChain.Valid, HeaderChain.Structured;
      assert contents[..0] == [];
    }

    /** One round of the load loop. */
    method LoadOne(header: Header, ghost contents: seq<Header>, ghost k: nat) returns (r: Outcome<()>)
      requires k < |contents| && header == contents[k] && Loaded(contents, k)
      requires HeaderReplay.Fresh(net, contents[..k + 1]) && contents[..k + 1][..k] == contents[..k]
      modifies this`best, this`genesis, this`height, this`bestHash, this`blk, this`orphans, this`chain, this`loose
      modifies Entries()`height, Entries()`prev, Entries()`next
      ensures r.Stopped? <==> Load(net, contents[..k + 1]).Stopped?
      ensures r.Returned? ==> Loaded(contents, k + 1) && fresh(Entries() - old(Entries()))
    {
      hide HeaderChain.Valid, HeaderChain.Structured, Indexes, Unique, SeqLinked, HeaderChain.AddEntry;
      var be := new Entry(header, true);
      assert contents[..k + 1][k] == header;
      r := AddEntry(be);
    }

    /** The headers of one read. */
    method LoadBatch(contents: seq<Header>, offset: nat, n: nat) returns (r: Outcome<()>)
      requires HeaderReplay.Fresh(net, contents) && offset + n <= |contents| && Loaded(contents, offset)
      modifies this`best, this`genesis, this`height, this`bestHash, this`blk, this`orphans, this`chain, this`loose
      modifies Entries()`height, Entries()`prev, Entries()`next
      ensures r.Stopped? ==> Load(net, contents).Stopped?
      ensures r.Returned? ==> Loaded(contents, offset + n) && fresh(Entries() - old(Entries()))
    {
      hide Loaded, HeaderReplay.Fresh, Load;
      var i := 0;
      while i < n
        invariant i <= n && fresh(Entries() - old(Entries())) && Loaded(contents, offset + i)
      {
        LoadPrefix(net, contents, offset + i);
        var a := LoadOne(contents[offset + i], contents, offset + i);
        if a.Stopped? {
          LoadStops(net, contents, offset + i + 1);
          return Stopped;
        }
        i := i + 1;
      }
      r := Returned(());
    }

    /** The file that was read is the file the store goes on writing. */
    method Attach(contents: seq<Header>)
      requires HeaderReplay.Fresh(net, contents) && contents[..|contents|] == contents && Loaded(contents, |contents|)
      modifies this`file
      ensures Valid() && Load(net, contents).Returned?
      ensures Saved() == HeaderReplay.Store(Load(net, contents).value, Elems(contents), contents)
    {
      hide HeaderChain.Valid, HeaderChain.Structured, Indexes, Unique, SeqLinked, Headers, HeaderSet, Elems;
      hide HeaderReplay.Fresh, Load, Known;
      AllWritten();
      file := contents;
      assert Flagged() == old(Flagged());
    }

    lemma AllWritten()
      requires forall e :: e in Entries() ==> e.written
      ensures Written() == Known(View())
    {
      HeadersElems(chain);
      assert Written() == HeaderSet(Entries());
      assert Known(View()) == HeaderSet(Entries());
    }
  }

  /** Headers read at a time. */
  const READ_BATCH := 10000

  /** `blockset_open_file` on a new store: reads the file in batches and adds an entry, flagged
      as written, for each header. */
  method Open(net: Net, contents: seq<Header>) returns (r: Outcome<Store>)
    requires HeaderReplay.Fresh(net, contents)
    ensures r.Stopped? <==> Load(net, contents).Stopped?
    ensures r.Returned? ==> fresh(r.value) && r.value.net == net && r.value.Valid()
    ensures r.Returned? ==> r.value.Saved() == HeaderReplay.Store(Load(net, contents).value, Elems(contents), contents)
  {
    hide HeaderChain.Valid, HeaderChain.Structured, Known, Elems, HeaderReplay.Fresh, Load, Store.Loaded, Store.Saved;
    var s := new Store(net);
    s.LoadedNothing(contents);
    var offset := 0;
    while offset < |contents|
      invariant offset <= |contents| && fresh(s) && s.net == net && s.file == []
      invariant fresh(s.Entries()) && s.Loaded(contents, offset)
    {
      var n := if |contents| - offset < READ_BATCH then |contents| - offset else READ_BATCH;
      var a := s.LoadBatch(contents, offset, n);
      if a.Stopped? {
        return Stopped;
      }
      offset := offset + n;
    }
    assert contents[..offset] == contents;
    s.Attach(contents);
    r := Returned(s);
  }

  lemma {:induction false} LoadPrefix(net: Net, contents: seq<Header>, k: nat)
    requires HeaderReplay.Fresh(net, contents) && k < |contents|
    ensures HeaderReplay.Fresh(net, contents[..k]) && HeaderReplay.Fresh(net, contents[..k + 1])
    ensures contents[..k + 1][..k] == contents[..k]
    decreases |contents|
  {
    var n := |contents| - 1;
    if k < n {
      LoadPrefix(net, contents[..n], k);
      assert contents[..n][..k] == contents[..k] && contents[..n][..k + 1] == contents[..k + 1];
    } else {
      assert contents[..k + 1] == contents;
    }
  }

  /** A load that stops inside the file stops on the file. */
  lemma {:induction false} LoadStops(net: Net, contents: seq<Header>, k: nat)
    requires HeaderReplay.Fresh(net, contents) && k <= |contents|
    requires HeaderReplay.Fresh(net, contents[..k]) && Load(net, contents[..k]).Stopped?
    ensures Load(net, contents).Stopped?
    decreases |contents|
  {
    var n := |contents| - 1;
    if k == |contents| {
      assert contents[..k] == contents;
    } else {
      assert contents[..n][..k] == contents[..k];
      LoadStops(net, contents[..n], k);
    }
  }

  lemma KnownHas(net: Net, c: Chain, k: Hash)
    ensures Has(net, Known(c), k) <==> Has(net, c.orphans, k) || Has(net, Elems(c.main), k)
  {
    assert c.orphans <= Known(c) && Elems(c.main) <= Known(c);
  }
}
