/**
 The header chain of core/block-store.c on values: the main chain as a sequence, the orphans
 as a finite set, and one function per operation. The class in BlockStore.dfy, which relinks
 entries in place, is proved to compute exactly these functions; the properties of single
 steps and of whole runs are proved here.
 */
module HeaderChain {
  import opened Outcomes

  type Hash = nat

  datatype Header = Header(prevBlock: Hash, rest: nat)

  /** The network the client follows. `hash` is the double SHA-256 of a header, kept abstract.
      `rank` is any measure that grows from a parent to its child: it says that no chain of
      parent references loops, which is what lets the source's recursions come back. */
  datatype Net = Net(hash: Header -> Hash, genesisHash: Hash, rank: Hash -> nat)

  datatype Chain = Chain(main: seq<Header>, orphans: set<Header>)

  const EmptyChain := Chain([], {})

  /** A header that the assumption on hashes covers. */
  ghost predicate Offered(net: Net, h: Header) {
    net.rank(h.prevBlock) < net.rank(net.hash(h))
  }

  ghost predicate AllOffered(net: Net, s: set<Header>) {
    forall h :: h in s ==> Offered(net, h)
  }

  ghost function Elems(hs: seq<Header>): set<Header> {
    set h | h in hs
  }

  /** Every header the store can look up. */
  ghost function Known(c: Chain): set<Header> {
    Elems(c.main) + c.orphans
  }

  /** No two headers of `s` share a hash. */
  ghost predicate OnePerHash(net: Net, s: set<Header>) {
    forall a, b :: a in s && b in s && net.hash(a) == net.hash(b) ==> a == b
  }

  /** A header with this hash is in `s`. */
  ghost predicate Has(net: Net, s: set<Header>, k: Hash) {
    exists h :: h in s && net.hash(h) == k
  }

  ghost function Lookup(net: Net, s: set<Header>, k: Hash): (h: Header)
    requires Has(net, s, k)
    ensures h in s && net.hash(h) == k
  {
    var h :| h in s && net.hash(h) == k; h
  }

  /** Position in `main` of a header that hashes to `k`. */
  ghost function Find(net: Net, main: seq<Header>, k: Hash): (i: nat)
    requires Has(net, Elems(main), k)
    ensures i < |main| && net.hash(main[i]) == k
  {
    var h := Lookup(net, Elems(main), k);
    var i :| 0 <= i < |main| && main[i] == h; i
  }

  /** Each header of `hs` names the one before it as its parent. */
  ghost predicate Linked(net: Net, hs: seq<Header>) {
    forall i, j :: 0 <= i < j <= i + 1 && j < |hs| ==> hs[j].prevBlock == net.hash(hs[i])
  }

  ghost predicate Distinct(hs: seq<Header>) {
    forall i, j :: 0 <= i < j < |hs| ==> hs[i] != hs[j]
  }

  /** The structure of the two indexes. */
  ghost predicate Structured(net: Net, c: Chain) {
    && Linked(net, c.main)
    && Distinct(c.main)
    && Elems(c.main) !! c.orphans
    && OnePerHash(net, Known(c))
    && AllOffered(net, Known(c))
    && (c.main == [] ==> c.orphans == {})
    && (c.main != [] ==> net.hash(c.main[0]) == net.genesisHash)
  }

  /** What every operation keeps: the structure, and no orphan that names genesis as its parent,
      since the source stops on a branch that attaches there. */
  ghost predicate Valid(net: Net, c: Chain) {
    Structured(net, c) && forall h :: h in c.orphans ==> h.prevBlock != net.genesisHash
  }

  // ----- following parents from an orphan -----

  /** Where the parents of a header lead through the orphans: to position `junction` of the main
      chain, or to a parent nobody knows. `path` runs from the junction's child to the header. */
  datatype Branch = Attached(junction: nat, path: seq<Header>) | Dangling(path: seq<Header>) {
    function Extend(h: Header): Branch {
      match this
      case Attached(j, p) => Attached(j, p + [h])
      case Dangling(p) => Dangling(p + [h])
    }

    /** What the height search returns for the header at the end of the branch, unless the
        branch attaches at genesis, where it stops. */
    function AltHeight(): int {
      match this
      case Attached(j, p) => j + |p|
      case Dangling(p) => |p| - 1
    }
  }

  ghost function BranchOf(net: Net, c: Chain, h: Header): (b: Branch)
    requires AllOffered(net, c.orphans)
    ensures b.path != [] && b.path[|b.path| - 1] == h
    ensures b.Attached? ==> b.junction < |c.main|
    decreases net.rank(h.prevBlock)
  {
    if Has(net, c.orphans, h.prevBlock) then
      BranchOf(net, c, Lookup(net, c.orphans, h.prevBlock)).Extend(h)
    else if Has(net, Elems(c.main), h.prevBlock) then
      Attached(Find(net, c.main, h.prevBlock), [h])
    else
      Dangling([h])
  }

  /** The chain after its best branch is rewired onto `path`. */
  ghost function Rewire(c: Chain, j: nat, path: seq<Header>): Chain
    requires j < |c.main|
  {
    Chain(c.main[..j + 1] + path, (c.orphans - Elems(path)) + Elems(c.main[j + 1..]))
  }

  /** `blockstore_set_best_chain` on a chain whose orphans already hold `h`. */
  ghost function SetBestChain(net: Net, c: Chain, h: Header): Outcome<Chain>
    requires AllOffered(net, c.orphans)
  {
    var b := BranchOf(net, c, h);
    if b.Attached? && b.junction == 0 then Stopped
    else if b.AltHeight() <= |c.main| - 1 then Returned(c)
    else if b.Dangling? then Stopped
    else Returned(Rewire(c, b.junction, b.path))
  }

  /** `blockstore_add_entry`. */
  ghost function AddEntry(net: Net, c: Chain, h: Header): Outcome<Chain>
    requires Valid(net, c) && Offered(net, h)
  {
    var k := net.hash(h);
    if c.main == [] then
      if k != net.genesisHash then Stopped else Returned(c.(main := [h]))
    else if h.prevBlock == net.hash(c.main[|c.main| - 1]) then
      if Has(net, Elems(c.main), k) then Stopped else Returned(c.(main := c.main + [h]))
    else if Has(net, c.orphans, k) then Stopped
    else SetBestChain(net, c.(orphans := c.orphans + {h}), h)
  }

  /** `blockstore_add_header`: a known header is ignored. */
  ghost function AddHeader(net: Net, c: Chain, h: Header): Outcome<Chain>
    requires Valid(net, c) && Offered(net, h)
  {
    if Has(net, Known(c), net.hash(h)) then Returned(c) else AddEntry(net, c, h)
  }

  // ----- what a branch looks like -----

  /** A branch is linked, its ranks rise (so it never visits a header twice), it is made of
      orphans except possibly its last header, and its root is the junction or unknown. */
  ghost predicate BranchShape(net: Net, c: Chain, h: Header, b: Branch) {
    var p := b.path;
    && p != []
    && Linked(net, p)
    && (forall i :: 0 <= i < |p| - 1 ==> p[i] in c.orphans)
    && (forall i, j :: 0 <= i < j < |p| ==> net.rank(net.hash(p[i])) < net.rank(net.hash(p[j])))
    && !Has(net, c.orphans, p[0].prevBlock)
    && match b {
         case Attached(j, _) => j < |c.main| && p[0].prevBlock == net.hash(c.main[j])
         case Dangling(_) => !Has(net, Elems(c.main), p[0].prevBlock)
       }
  }

  lemma {:induction false} BranchOfShape(net: Net, c: Chain, h: Header)
    requires AllOffered(net, c.orphans) && Offered(net, h)
    ensures BranchShape(net, c, h, BranchOf(net, c, h))
    decreases net.rank(h.prevBlock)
  {
    if Has(net, c.orphans, h.prevBlock) {
      var g := Lookup(net, c.orphans, h.prevBlock);
      BranchOfShape(net, c, g);
      var p := BranchOf(net, c, g).path;
      assert BranchOf(net, c, h).path == p + [h];
    }
  }

  // ----- reorganisation keeps the structure -----

  /** Rewiring moves headers between the two indexes and forgets none. */
  lemma RewireKnown(c: Chain, j: nat, p: seq<Header>)
    requires j < |c.main| && Elems(p) <= c.orphans && Distinct(c.main) && Elems(c.main) !! c.orphans
    ensures var d := Rewire(c, j, p); Known(d) == Known(c) && Elems(d.main) !! d.orphans
  {
    var d := Rewire(c, j, p);
    assert forall x :: x in d.main <==> x in c.main[..j + 1] || x in p;
    assert forall x :: x in c.main <==> x in c.main[..j + 1] || x in c.main[j + 1..];
    forall x | x in c.main[j + 1..] ensures x !in d.main {
      assert x in Elems(c.main);
      assert x in p <==> x in Elems(p);
    }
  }

  lemma RewireLinked(net: Net, c: Chain, j: nat, p: seq<Header>)
    requires j < |c.main| && Linked(net, c.main) && Distinct(c.main) && Linked(net, p) && Distinct(p)
    requires p != [] && p[0].prevBlock == net.hash(c.main[j]) && Elems(p) !! Elems(c.main)
    ensures Linked(net, c.main[..j + 1] + p) && Distinct(c.main[..j + 1] + p)
  {
    var m := c.main[..j + 1] + p;
    forall a, b | 0 <= a < b < |m| ensures m[a] != m[b] {
      if a <= j < b {
        assert m[a] in Elems(c.main) && m[b] in Elems(p);
      }
    }
  }

  lemma RewireKeeps(net: Net, c: Chain, h: Header, j: nat, p: seq<Header>)
    requires Structured(net, c) && h in c.orphans
    requires BranchOf(net, c, h) == Attached(j, p) && 0 < j
    ensures var d := Rewire(c, j, p);
      && Structured(net, d) && Known(d) == Known(c) && (Valid(net, c) ==> Valid(net, d))
      && d.main[|d.main| - 1] == h && |d.main| == j + |p| + 1
  {
    var d := Rewire(c, j, p);
    assert Offered(net, h);
    BranchOfShape(net, c, h);
    assert forall x :: x in p ==> x in c.orphans;
    assert Distinct(p);
    RewireKnown(c, j, p);
    RewireLinked(net, c, j, p);
    forall x | x in c.main[j + 1..] ensures x.prevBlock != net.genesisHash {
      var i :| j + 1 <= i < |c.main| && c.main[i] == x;
      assert c.main[i - 1] in Known(c) && c.main[0] in Known(c);
    }
  }

  /** A second child of genesis finds genesis at once, and stops the run. */
  lemma SecondChildOfGenesisStops(net: Net, c: Chain, h: Header)
    requires Valid(net, c) && Offered(net, h) && !Has(net, Known(c), net.hash(h))
    requires c.main != [] && h.prevBlock == net.genesisHash && h.prevBlock != net.hash(c.main[|c.main| - 1])
    ensures AddEntry(net, c, h).Stopped?
  {
    var o := c.(orphans := c.orphans + {h});
    assert c.main[0] in Known(c) && c.main[0] in Elems(c.main);
    forall g | g in o.orphans ensures net.hash(g) != h.prevBlock {
      assert g in Known(c) || g == h;
    }
    assert Has(net, Elems(c.main), h.prevBlock);
    var i := Find(net, c.main, h.prevBlock);
    assert c.main[i] in Known(c);
  }

  /** Storing a new orphan keeps the structure. */
  lemma OrphanKeeps(net: Net, c: Chain, h: Header)
    requires Valid(net, c) && Offered(net, h) && !Has(net, Known(c), net.hash(h))
    requires c.main != []
    ensures Structured(net, c.(orphans := c.orphans + {h}))
    ensures h.prevBlock != net.genesisHash ==> Valid(net, c.(orphans := c.orphans + {h}))
    ensures Known(c.(orphans := c.orphans + {h})) == Known(c) + {h}
  {
    var o := c.(orphans := c.orphans + {h});
    assert Known(o) == Known(c) + {h};
  }

  lemma ExtendKeeps(net: Net, c: Chain, h: Header)
    requires Valid(net, c) && Offered(net, h) && !Has(net, Known(c), net.hash(h))
    requires if c.main == [] then net.hash(h) == net.genesisHash
             else h.prevBlock == net.hash(c.main[|c.main| - 1])
    ensures Valid(net, c.(main := c.main + [h]))
    ensures Known(c.(main := c.main + [h])) == Known(c) + {h}
  {
    var d := c.(main := c.main + [h]);
    assert Known(d) == Known(c) + {h};
  }

  /** Adding a new header keeps the structure, loses nothing, and changes the best chain only
      for a strictly longer one that ends in the new header: a tie keeps the incumbent. */
  lemma AddEntryKeeps(net: Net, c: Chain, h: Header)
    requires Valid(net, c) && Offered(net, h) && !Has(net, Known(c), net.hash(h))
    requires AddEntry(net, c, h).Returned?
    ensures var d := AddEntry(net, c, h).value;
      && Valid(net, d)
      && Known(d) == Known(c) + {h}
      && (d.main == c.main || (|d.main| > |c.main| && d.main[|d.main| - 1] == h))
      && (|c.main| >= 2 ==> d.main[..2] == c.main[..2])
  {
    if c.main == [] {
      assert [h] == c.main + [h];
      ExtendKeeps(net, c, h);
    } else if h.prevBlock == net.hash(c.main[|c.main| - 1]) {
      ExtendKeeps(net, c, h);
    } else {
      if h.prevBlock == net.genesisHash {
        SecondChildOfGenesisStops(net, c, h);
        assert false;
      }
      OrphanKeeps(net, c, h);
      var o := c.(orphans := c.orphans + {h});
      var b := BranchOf(net, o, h);
      if b.Attached? && b.junction > 0 {
        RewireKeeps(net, o, h, b.junction, b.path);
      }
    }
  }

  /** When the run ends: a first header that is not genesis, a second child of genesis, or a
      branch with an unknown root that outgrows the best chain. */
  lemma AddEntryStopsExactlyWhen(net: Net, c: Chain, h: Header)
    requires Valid(net, c) && Offered(net, h) && !Has(net, Known(c), net.hash(h))
    ensures AddEntry(net, c, h).Stopped? <==>
              if c.main == [] then net.hash(h) != net.genesisHash
              else
                && h.prevBlock != net.hash(c.main[|c.main| - 1])
                && (|| h.prevBlock == net.genesisHash
                    || var b := BranchOf(net, c, h); b.Dangling? && |b.path| > |c.main|)
  {
    if c.main == [] || h.prevBlock == net.hash(c.main[|c.main| - 1]) {
      assert Elems(c.main) <= Known(c);
    } else if h.prevBlock == net.genesisHash {
      SecondChildOfGenesisStops(net, c, h);
    } else {
      var o := c.(orphans := c.orphans + {h});
      OrphanKeeps(net, c, h);
      BranchIgnoresItself(net, c, h, h);
      var b := BranchOf(net, o, h);
      BranchOfShape(net, o, h);
      assert b.path[0] in o.orphans;
    }
  }

  /** Adding an orphan a second time ends the run, unless its parent has become the tip. */
  lemma KnownOrphanStops(net: Net, c: Chain, h: Header)
    requires Valid(net, c) && h in c.orphans && c.main != [] && h.prevBlock != net.hash(c.main[|c.main| - 1])
    ensures Offered(net, h) && AddEntry(net, c, h).Stopped?
  {
    assert h in Known(c);
  }

  /** A branch never comes back to the new header it starts from. */
  lemma {:induction false} BranchIgnoresItself(net: Net, c: Chain, h: Header, g: Header)
    requires Valid(net, c) && Offered(net, h) && !Has(net, Known(c), net.hash(h))
    requires g == h || (g in c.orphans && net.rank(net.hash(g)) < net.rank(net.hash(h)))
    ensures AllOffered(net, c.orphans + {h})
    ensures BranchOf(net, c.(orphans := c.orphans + {h}), g) == BranchOf(net, c, g)
    decreases net.rank(g.prevBlock)
  {
    var o := c.(orphans := c.orphans + {h});
    assert Offered(net, g);
    if Has(net, o.orphans, g.prevBlock) {
      var x := Lookup(net, o.orphans, g.prevBlock);
      assert x != h;
      assert x in c.orphans && Has(net, c.orphans, g.prevBlock);
      var y := Lookup(net, c.orphans, g.prevBlock);
      assert y in Known(c) && x in Known(c);
      BranchIgnoresItself(net, c, h, x);
    }
  }

  // ----- the longest chain -----

  /** `h` is `d` generations after genesis inside `known`. This reads parents only: it does not
      mention the stored heights or which headers are on the main chain. */
  ghost predicate HasDepth(net: Net, known: set<Header>, h: Header, d: nat)
    decreases d
  {
    if net.hash(h) == net.genesisHash then d == 0
    else d > 0 && exists p :: p in known && net.hash(p) == h.prevBlock && HasDepth(net, known, p, d - 1)
  }

  lemma {:induction false} DepthUnique(net: Net, known: set<Header>, h: Header, d: nat, e: nat)
    requires OnePerHash(net, known) && HasDepth(net, known, h, d) && HasDepth(net, known, h, e)
    ensures d == e
    decreases d
  {
    if net.hash(h) != net.genesisHash {
      var p :| p in known && net.hash(p) == h.prevBlock && HasDepth(net, known, p, d - 1);
      var q :| q in known && net.hash(q) == h.prevBlock && HasDepth(net, known, q, e - 1);
      DepthUnique(net, known, p, d - 1, e - 1);
    }
  }

  lemma {:induction false} DepthGrows(net: Net, known: set<Header>, more: set<Header>, h: Header, d: nat)
    requires known <= more && HasDepth(net, known, h, d)
    ensures HasDepth(net, more, h, d)
    decreases d
  {
    if net.hash(h) != net.genesisHash {
      var p :| p in known && net.hash(p) == h.prevBlock && HasDepth(net, known, p, d - 1);
      DepthGrows(net, known, more, p, d - 1);
    }
  }

  /** On the main chain the stored height is the true depth. */
  lemma {:induction false} MainDepth(net: Net, c: Chain, i: nat)
    requires Valid(net, c) && i < |c.main|
    ensures HasDepth(net, Known(c), c.main[i], i)
  {
    assert c.main[i] in Known(c) && c.main[0] in Known(c);
    if i > 0 {
      MainDepth(net, c, i - 1);
      assert c.main[i - 1] in Known(c) && net.hash(c.main[i - 1]) == c.main[i].prevBlock;
    }
  }

  /** Every orphan's parent is known. */
  ghost predicate Rooted(net: Net, c: Chain) {
    forall h :: h in c.orphans ==> Has(net, Known(c), h.prevBlock)
  }

  /** The height search terminates (its recursion goes down `rank`) and returns the true depth. */
  lemma {:induction false} AltHeightIsDepth(net: Net, c: Chain, h: Header)
    requires Valid(net, c) && Rooted(net, c) && h in c.orphans && c.main != []
    ensures BranchOf(net, c, h).Attached?
    ensures HasDepth(net, Known(c), h, BranchOf(net, c, h).AltHeight())
    decreases net.rank(h.prevBlock)
  {
    assert Offered(net, h) && h in Known(c);
    assert net.hash(h) != net.genesisHash by {
      assert c.main[0] in Known(c) && c.main[0] in Elems(c.main);
    }
    if Has(net, c.orphans, h.prevBlock) {
      var g := Lookup(net, c.orphans, h.prevBlock);
      assert g in Known(c);
      AltHeightIsDepth(net, c, g);
    } else {
      var g := Lookup(net, Known(c), h.prevBlock);
      assert g in Elems(c.main);
      var i := Find(net, c.main, h.prevBlock);
      assert c.main[i] in Known(c);
      MainDepth(net, c, i);
    }
  }

  /** The stored height is the greatest depth of any known header. */
  ghost predicate Longest(net: Net, c: Chain) {
    forall h, d: nat :: h in Known(c) && HasDepth(net, Known(c), h, d) ==> d < |c.main|
  }

  ghost predicate ParentKnown(net: Net, c: Chain, h: Header) {
    (c.main == [] && net.hash(h) == net.genesisHash) || Has(net, Known(c), h.prevBlock)
  }

  // ----- what a new header does to the depths -----

  /** `h` is new to the chain. */
  ghost predicate New(net: Net, c: Chain, h: Header) {
    Offered(net, h) && !Has(net, Known(c), net.hash(h))
  }

  /** The branch of orphan `g` hangs from `h`: its parents lead to `h`, which was unknown. */
  ghost predicate HangsFrom(net: Net, c: Chain, g: Header, h: Header)
    requires AllOffered(net, c.orphans)
  {
    var b := BranchOf(net, c, g);
    b.Dangling? && b.path[0].prevBlock == net.hash(h)
  }

  lemma NotGenesis(net: Net, c: Chain, h: Header)
    requires Valid(net, c) && c.main != [] && (h in c.orphans || New(net, c, h))
    ensures net.hash(h) != net.genesisHash
  {
    assert c.main[0] in Elems(c.main) && c.main[0] in Known(c);
  }

  /** A header whose branch reaches the main chain has the depth that the height search returns. */
  lemma {:induction false} AttachedDepth(net: Net, c: Chain, h: Header)
    requires Valid(net, c) && c.main != [] && (h in c.orphans || New(net, c, h)) && BranchOf(net, c, h).Attached?
    ensures HasDepth(net, Known(c), h, BranchOf(net, c, h).AltHeight())
    decreases net.rank(h.prevBlock)
  {
    assert Offered(net, h) by { assert h in c.orphans ==> h in Known(c); }
    NotGenesis(net, c, h);
    if Has(net, c.orphans, h.prevBlock) {
      var g := Lookup(net, c.orphans, h.prevBlock);
      assert g in Known(c);
      AttachedDepth(net, c, g);
    } else {
      var i := Find(net, c.main, h.prevBlock);
      assert c.main[i] in Known(c);
      MainDepth(net, c, i);
    }
  }

  /** A hanging header gets its depth through the header it hangs from, and through no other. */
  lemma {:induction false} HangingDepth(net: Net, c: Chain, h: Header, g: Header, e: nat)
    requires Valid(net, c) && c.main != [] && New(net, c, h) && g in c.orphans && BranchOf(net, c, g).Dangling?
    requires HasDepth(net, Known(c) + {h}, g, e)
    ensures var n := |BranchOf(net, c, g).path|;
      HangsFrom(net, c, g, h) && e >= n && HasDepth(net, Known(c) + {h}, h, e - n)
    decreases e
  {
    NotGenesis(net, c, g);
    var known := Known(c) + {h};
    var p :| p in known && net.hash(p) == g.prevBlock && HasDepth(net, known, p, e - 1);
    if Has(net, c.orphans, g.prevBlock) {
      var q := Lookup(net, c.orphans, g.prevBlock);
      assert q in Known(c) && p == q;
      HangingDepth(net, c, h, p, e - 1);
    } else {
      assert p !in c.orphans && p !in Elems(c.main);
    }
  }

  lemma {:induction false} HangingHasDepth(net: Net, c: Chain, h: Header, g: Header, d: nat)
    requires Valid(net, c) && c.main != [] && New(net, c, h) && g in c.orphans && HangsFrom(net, c, g, h)
    requires HasDepth(net, Known(c) + {h}, h, d)
    ensures HasDepth(net, Known(c) + {h}, g, d + |BranchOf(net, c, g).path|)
    decreases net.rank(g.prevBlock)
  {
    assert Offered(net, g) by { assert g in Known(c); }
    NotGenesis(net, c, g);
    if Has(net, c.orphans, g.prevBlock) {
      var q := Lookup(net, c.orphans, g.prevBlock);
      assert q in Known(c) && q in Known(c) + {h};
      HangingHasDepth(net, c, h, q, d);
    } else {
      assert h in Known(c) + {h};
    }
  }

  /** A new header with an unknown root has no depth. */
  lemma DanglingHasNoDepth(net: Net, c: Chain, h: Header, e: nat)
    requires Valid(net, c) && c.main != [] && New(net, c, h) && BranchOf(net, c, h).Dangling?
    ensures !HasDepth(net, Known(c) + {h}, h, e)
  {
    NotGenesis(net, c, h);
    var known := Known(c) + {h};
    if HasDepth(net, known, h, e) {
      var p :| p in known && net.hash(p) == h.prevBlock && HasDepth(net, known, p, e - 1);
      assert p != h;
      if Has(net, c.orphans, h.prevBlock) {
        var q := Lookup(net, c.orphans, h.prevBlock);
        assert q in Known(c) && p == q;
        HangingDepth(net, c, h, p, e - 1);
        BranchOfShape(net, c, p);
        RootIsLower(net, c, p);
      }
    }
  }

  lemma RootIsLower(net: Net, c: Chain, g: Header)
    requires Valid(net, c) && g in c.orphans
    ensures net.rank(BranchOf(net, c, g).path[0].prevBlock) < net.rank(net.hash(g))
  {
    assert forall x :: x in c.orphans ==> x in Known(c);
    BranchOfShape(net, c, g);
    var p := BranchOf(net, c, g).path;
    assert p[0] in c.orphans;
    assert Offered(net, p[0]);
  }

  /** How high the chain is after a new header. */
  lemma HeightAfter(net: Net, c: Chain, h: Header)
    requires Valid(net, c) && c.main != [] && New(net, c, h) && AddEntry(net, c, h).Returned?
    ensures var b, n := BranchOf(net, c, h), |AddEntry(net, c, h).value.main|;
      n == if b.Attached? && b.AltHeight() >= |c.main| then b.AltHeight() + 1 else |c.main|
  {
    var t := |c.main| - 1;
    if h.prevBlock == net.hash(c.main[t]) {
      assert c.main[t] in Elems(c.main) && c.main[t] in Known(c);
      assert !Has(net, c.orphans, h.prevBlock) by {
        assert forall x :: x in c.orphans ==> x in Known(c);
      }
      var i := Find(net, c.main, h.prevBlock);
      assert c.main[i] in Known(c);
      assert Elems(c.main) <= Known(c);
    } else {
      if h.prevBlock == net.genesisHash { SecondChildOfGenesisStops(net, c, h); }
      OrphanKeeps(net, c, h);
      BranchIgnoresItself(net, c, h, h);
    }
  }

  /** Nothing that waits for `h` outgrows the best chain: if `h` gets a depth, it and what hangs
      from it stay below the present height. */
  ghost predicate NothingOutgrows(net: Net, c: Chain, h: Header)
    requires AllOffered(net, c.orphans)
  {
    var b := BranchOf(net, c, h);
    b.Attached? ==>
      forall g :: g in c.orphans && HangsFrom(net, c, g, h) ==> b.AltHeight() + |BranchOf(net, c, g).path| < |c.main|
  }

  /** Exactly when a new header keeps "the height is the maximum depth": what hangs from it does not
      outgrow the best chain. The new header's own branch never does any harm. */
  lemma StaysLongestExactlyWhen(net: Net, c: Chain, h: Header)
    requires Valid(net, c) && Longest(net, c) && New(net, c, h) && AddEntry(net, c, h).Returned?
    ensures AllOffered(net, c.orphans)
    ensures Longest(net, AddEntry(net, c, h).value) <==> NothingOutgrows(net, c, h)
  {
    assert AllOffered(net, c.orphans) by { assert c.orphans <= Known(c); }
    var d := AddEntry(net, c, h).value;
    AddEntryKeeps(net, c, h);
    if c.main == [] {
      assert d.main == [h] && [h][0] == h;
      forall x, e: nat | x in Known(d) && HasDepth(net, Known(d), x, e) ensures e < 1 {
        assert x == h;
      }
    } else {
      HeightAfter(net, c, h);
      if NothingOutgrows(net, c, h) {
        forall x, e: nat | x in Known(d) && HasDepth(net, Known(d), x, e) ensures e < |d.main| {
          DepthAfter(net, c, h, x, e);
        }
      } else {
        var g :| g in c.orphans && HangsFrom(net, c, g, h)
                 && BranchOf(net, c, h).AltHeight() + |BranchOf(net, c, g).path| >= |c.main|;
        AttachedDepth(net, c, h);
        DepthGrows(net, Known(c), Known(d), h, BranchOf(net, c, h).AltHeight());
        HangingHasDepth(net, c, h, g, BranchOf(net, c, h).AltHeight());
        assert g in Known(d);
      }
    }
  }

  /** Every depth after a new header, if nothing outgrows the best chain. */
  lemma DepthAfter(net: Net, c: Chain, h: Header, x: Header, e: nat)
    requires Valid(net, c) && c.main != [] && Longest(net, c) && New(net, c, h) && AddEntry(net, c, h).Returned?
    requires AllOffered(net, c.orphans) && NothingOutgrows(net, c, h)
    requires x in Known(c) + {h} && HasDepth(net, Known(c) + {h}, x, e)
    ensures e < |AddEntry(net, c, h).value.main|
  {
    HeightAfter(net, c, h);
    var known := Known(c) + {h};
    assert OnePerHash(net, known) by {
      AddEntryKeeps(net, c, h);
    }
    if x == h {
      NewHeaderDepth(net, c, h, e);
    } else if x in c.orphans && BranchOf(net, c, x).Dangling? {
      HangingDepth(net, c, h, x, e);
      NewHeaderDepth(net, c, h, e - |BranchOf(net, c, x).path|);
    } else {
      var f: nat;
      if x in c.orphans {
        f := BranchOf(net, c, x).AltHeight();
        AttachedDepth(net, c, x);
      } else {
        f :| 0 <= f < |c.main| && c.main[f] == x;
        MainDepth(net, c, f);
      }
      DepthGrows(net, Known(c), known, x, f);
      DepthUnique(net, known, x, e, f);
    }
  }

  lemma NewHeaderDepth(net: Net, c: Chain, h: Header, e: nat)
    requires Valid(net, c) && c.main != [] && New(net, c, h) && OnePerHash(net, Known(c) + {h})
    requires HasDepth(net, Known(c) + {h}, h, e)
    ensures BranchOf(net, c, h).Attached? && e == BranchOf(net, c, h).AltHeight()
  {
    if BranchOf(net, c, h).Dangling? {
      DanglingHasNoDepth(net, c, h, e);
    } else {
      AttachedDepth(net, c, h);
      DepthGrows(net, Known(c), Known(c) + {h}, h, BranchOf(net, c, h).AltHeight());
      DepthUnique(net, Known(c) + {h}, h, e, BranchOf(net, c, h).AltHeight());
    }
  }

  /** One arrival whose parent is known keeps it, and every orphan's parent known. */
  lemma AddEntryKeepsLongest(net: Net, c: Chain, h: Header)
    requires Valid(net, c) && Rooted(net, c) && Longest(net, c) && New(net, c, h) && ParentKnown(net, c, h)
    requires AddEntry(net, c, h).Returned?
    ensures var d := AddEntry(net, c, h).value; Rooted(net, d) && Longest(net, d)
  {
    AddEntryKeeps(net, c, h);
    StaysLongestExactlyWhen(net, c, h);
    var d := AddEntry(net, c, h).value;
    if c.main != [] {
      forall g | g in c.orphans ensures BranchOf(net, c, g).Attached? {
        AltHeightIsDepth(net, c, g);
      }
    }
    forall x | x in d.orphans ensures Has(net, Known(d), x.prevBlock) {
      assert x in Known(d);
      if x in c.orphans {
        var y := Lookup(net, Known(c), x.prevBlock);
        assert y in Known(d);
      } else if x in c.main {
        var i :| 0 <= i < |c.main| && c.main[i] == x;
        if i > 0 {
          assert c.main[i - 1] in Known(d);
        }
      } else {
        assert x == h;
        if c.main != [] {
          var y := Lookup(net, Known(c), x.prevBlock);
          assert y in Known(d);
        }
      }
    }
  }

  // ----- runs of arrivals -----

  /** `blockstore_add_header` on each header in turn. */
  ghost function AddAll(net: Net, c: Chain, hs: seq<Header>): Outcome<Chain>
    requires Valid(net, c) && AllOffered(net, Elems(hs))
    decreases |hs|
  {
    if hs == [] then Returned(c)
    else
      assert hs[0] in Elems(hs) && Elems(hs[1..]) <= Elems(hs);
      var d :- AddHeader(net, c, hs[0]);
      AddHeaderKeeps(net, c, hs[0]);
      AddAll(net, d, hs[1..])
  }

  lemma AddHeaderKeeps(net: Net, c: Chain, h: Header)
    requires Valid(net, c) && Offered(net, h) && AddHeader(net, c, h).Returned?
    ensures Valid(net, AddHeader(net, c, h).value)
    ensures Known(c) <= Known(AddHeader(net, c, h).value)
    ensures Has(net, Known(AddHeader(net, c, h).value), net.hash(h))
    ensures |c.main| <= |AddHeader(net, c, h).value.main|
    ensures if Has(net, Known(c), net.hash(h)) then AddHeader(net, c, h).value == c
            else Known(AddHeader(net, c, h).value) == Known(c) + {h}
  {
    if !Has(net, Known(c), net.hash(h)) {
      AddEntryKeeps(net, c, h);
      assert h in Known(AddHeader(net, c, h).value);
    }
  }

  /** Each header arrives after its parent. */
  ghost predicate ParentsFirst(net: Net, c: Chain, hs: seq<Header>)
    requires Valid(net, c) && AllOffered(net, Elems(hs))
    decreases |hs|
  {
    hs == [] ||
    (assert hs[0] in Elems(hs) && Elems(hs[1..]) <= Elems(hs);
     && ParentKnown(net, c, hs[0])
     && var r := AddHeader(net, c, hs[0]);
        r.Returned? ==> (AddHeaderKeeps(net, c, hs[0]); ParentsFirst(net, r.value, hs[1..])))
  }

  /** Longest chain: over any run that returns in which every header arrives after its parent,
      the height is the greatest depth over all known headers, and the tip has that depth. */
  lemma {:induction false} LongestChain(net: Net, c: Chain, hs: seq<Header>)
    requires Valid(net, c) && Rooted(net, c) && Longest(net, c)
    requires AllOffered(net, Elems(hs)) && ParentsFirst(net, c, hs) && AddAll(net, c, hs).Returned?
    ensures var d := AddAll(net, c, hs).value;
      && Valid(net, d) && Rooted(net, d) && Longest(net, d)
      && (d.main != [] ==> HasDepth(net, Known(d), d.main[|d.main| - 1], |d.main| - 1))
    decreases |hs|
  {
    if hs == [] {
      if c.main != [] { MainDepth(net, c, |c.main| - 1); }
    } else {
      assert hs[0] in Elems(hs) && Elems(hs[1..]) <= Elems(hs);
      var d := AddHeader(net, c, hs[0]).value;
      AddHeaderKeeps(net, c, hs[0]);
      if !Has(net, Known(c), net.hash(hs[0])) {
        AddEntryKeepsLongest(net, c, hs[0]);
      }
      LongestChain(net, d, hs[1..]);
    }
  }

  /** The height is the greatest depth before a run and after each of its arrivals. */
  ghost predicate LongestThroughout(net: Net, c: Chain, hs: seq<Header>)
    requires Valid(net, c) && AllOffered(net, Elems(hs))
    decreases |hs|
  {
    && Longest(net, c)
    && (hs != [] ==>
          assert hs[0] in Elems(hs) && Elems(hs[1..]) <= Elems(hs);
          var r := AddHeader(net, c, hs[0]);
          r.Returned? ==> (AddHeaderKeeps(net, c, hs[0]); LongestThroughout(net, r.value, hs[1..])))
  }

  /** No arrival of a run brings down an orphan branch that outgrows the best chain of that time. */
  ghost predicate NeverOutgrown(net: Net, c: Chain, hs: seq<Header>)
    requires Valid(net, c) && AllOffered(net, Elems(hs))
    decreases |hs|
  {
    hs != [] ==>
      assert hs[0] in Elems(hs) && Elems(hs[1..]) <= Elems(hs);
      assert AllOffered(net, c.orphans) by { assert c.orphans <= Known(c); }
      && (New(net, c, hs[0]) ==> NothingOutgrows(net, c, hs[0]))
      && var r := AddHeader(net, c, hs[0]);
         r.Returned? ==> (AddHeaderKeeps(net, c, hs[0]); NeverOutgrown(net, r.value, hs[1..]))
  }

  /** Over any run that returns, in any order of arrival: the height is the greatest depth all the
      time exactly if no arrival completes an orphan branch that outgrows the best chain. */
  lemma {:induction false} LongestExactlyWhen(net: Net, c: Chain, hs: seq<Header>)
    requires Valid(net, c) && Longest(net, c) && AllOffered(net, Elems(hs)) && AddAll(net, c, hs).Returned?
    ensures LongestThroughout(net, c, hs) <==> NeverOutgrown(net, c, hs)
    decreases |hs|
  {
    if hs != [] {
      assert hs[0] in Elems(hs) && Elems(hs[1..]) <= Elems(hs);
      assert AllOffered(net, c.orphans) by { assert c.orphans <= Known(c); }
      var d := AddHeader(net, c, hs[0]).value;
      AddHeaderKeeps(net, c, hs[0]);
      if New(net, c, hs[0]) { StaysLongestExactlyWhen(net, c, hs[0]); }
      if Longest(net, d) { LongestExactlyWhen(net, d, hs[1..]); }
    }
  }

  /** The hypothesis is needed: a header that arrives before its parent stays an orphan when the
      parent extends the best chain, and the longer chain is not taken. */
  lemma LateParentIsNotAdopted(net: Net, g: Header, a: Header, b: Header)
    requires net.hash(g) == net.genesisHash
    requires a.prevBlock == net.hash(g) && b.prevBlock == net.hash(a)
    requires AllOffered(net, {g, a, b}) && OnePerHash(net, {g, a, b})
    requires g != a && a != b && g != b && b.prevBlock != net.genesisHash
    ensures AllOffered(net, Elems([g, b, a]))
    ensures AddAll(net, EmptyChain, [g, b, a]) == Returned(Chain([g, a], {b}))
    ensures HasDepth(net, {g, a, b}, b, 2)
  {
    var c1 := Chain([g], {});
    var c2 := Chain([g], {b});
    var c3 := Chain([g, a], {b});
    assert [g, b, a][1..] == [b, a] && [b, a][1..] == [a] && [a][1..] == [];
    assert [g] + [a] == [g, a];
    assert Known(c1) == {g} && Known(c2) == {g, b};
    assert AddHeader(net, EmptyChain, g) == Returned(c1);
    AddHeaderKeeps(net, EmptyChain, g);
    assert AddHeader(net, c1, b) == Returned(c2) by {
      assert [g][0] in Elems([g]);
      assert c1.(orphans := c1.orphans + {b}) == c2;
      assert !Has(net, c2.orphans, b.prevBlock);
      assert BranchOf(net, c2, b) == Dangling([b]);
    }
    AddHeaderKeeps(net, c1, b);
    assert AddHeader(net, c2, a) == Returned(c3);
    AddHeaderKeeps(net, c2, a);
    assert AddAll(net, c3, []) == Returned(c3);
    assert AddAll(net, c2, [a]) == Returned(c3);
    assert AddAll(net, c1, [b, a]) == Returned(c3);
    assert HasDepth(net, {g, a, b}, g, 0);
    assert HasDepth(net, {g, a, b}, a, 1);
  }
}
