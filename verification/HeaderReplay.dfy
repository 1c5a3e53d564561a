/**
 The header file of core/block-store.c: which headers `blockstore_write_headers` appends, what
 the load loop of `blockset_open_file` makes of them, and why a run that ends in a successful
 write can be reopened to the same best chain.
 */
module HeaderReplay {
  import opened Outcomes
  import opened HeaderChain

  /** `written` are the headers whose entry carries the written flag. */
  datatype Store = Store(chain: Chain, written: set<Header>, file: seq<Header>)

  const EmptyStore := Store(EmptyChain, {}, [])

  /** The write buffer holds fewer headers than this, or the run stops. */
  const MAX_UNWRITTEN := 2048

  /** Position of the first header of the unwritten end of `main[..k]`. */
  ghost function UnwrittenFrom(main: seq<Header>, written: set<Header>, k: nat): (m: nat)
    requires k <= |main|
    ensures m <= k
    ensures forall i :: m <= i < k ==> main[i] !in written
    ensures m > 0 ==> main[m - 1] in written
  {
    if k == 0 || main[k - 1] in written then k else UnwrittenFrom(main, written, k - 1)
  }

  /** `blockstore_write_headers`; `ok` says whether the write to the file succeeds. The entries
      are flagged before the outcome is known. */
  ghost function WriteHeaders(s: Store, ok: bool): Outcome<Store> {
    var m := UnwrittenFrom(s.chain.main, s.written, |s.chain.main|);
    var tail := s.chain.main[m..];
    if |tail| >= MAX_UNWRITTEN then Stopped
    else Returned(Store(s.chain, s.written + Elems(tail), if ok then s.file + tail else s.file))
  }

  /** When a write stops the run: exactly if the last 2048 headers of the main chain, or more, are not
      written. Otherwise the unwritten end of it is flagged, from `m` on, and appended if the write
      succeeds. */
  lemma WriteExact(s: Store, ok: bool) returns (m: nat)
    ensures var main := s.chain.main;
      WriteHeaders(s, ok).Stopped? <==>
        |main| >= 2048 && forall i :: |main| - 2048 <= i < |main| ==> main[i] !in s.written
    ensures var main := s.chain.main;
      && m <= |main| && (forall i :: m <= i < |main| ==> main[i] !in s.written) && (m > 0 ==> main[m - 1] in s.written)
      && (WriteHeaders(s, ok).Returned? ==>
            var r := WriteHeaders(s, ok).value;
            && r.chain == s.chain && r.file == s.file + (if ok then main[m..] else [])
            && forall h :: h in r.written <==> h in s.written || exists i :: m <= i < |main| && main[i] == h)
  {
    var main := s.chain.main;
    m := UnwrittenFrom(main, s.written, |main|);
    assert forall h :: h in main[m..] <==> exists i :: m <= i < |main| && main[i] == h;
  }

  lemma ElemsLast(hs: seq<Header>)
    requires hs != []
    ensures Elems(hs) == Elems(hs[..|hs| - 1]) + {hs[|hs| - 1]}
  {
    assert hs == hs[..|hs| - 1] + [hs[|hs| - 1]];
  }

  lemma ElemsEmpty(hs: seq<Header>)
    ensures Elems(hs) == {} <==> hs == []
  {
    if hs != [] { assert hs[0] in Elems(hs); }
  }

  lemma ElemsConcat(a: seq<Header>, b: seq<Header>)
    ensures Elems(a + b) == Elems(a) + Elems(b)
  {
  }

  /** No header twice. */
  ghost predicate Fresh(net: Net, file: seq<Header>) {
    file == [] ||
    (var n := |file| - 1;
     Fresh(net, file[..n]) && Offered(net, file[n]) && !Has(net, Elems(file[..n]), net.hash(file[n])))
  }

  /** The load loop of `blockset_open_file` on an empty store: `blockstore_add_entry` on each
      header in order, without the known-header test. */
  ghost function Load(net: Net, file: seq<Header>): (r: Outcome<Chain>)
    requires Fresh(net, file)
    ensures r.Returned? ==> Valid(net, r.value) && Known(r.value) == Elems(file)
  {
    if file == [] then Returned(EmptyChain)
    else
      var n := |file| - 1;
      var c :- Load(net, file[..n]);
      var r := AddEntry(net, c, file[n]);
      if r.Returned? then
        AddEntryKeeps(net, c, file[n]);
        ElemsLast(file);
        r
      else Stopped
  }

  /** A file the load loop accepts: it starts at genesis, lists every other header after its
      parent, and names no second child of genesis. */
  ghost predicate WellOrdered(net: Net, file: seq<Header>) {
    file == [] ||
    (var n := |file| - 1;
     && WellOrdered(net, file[..n])
     && Offered(net, file[n]) && !Has(net, Elems(file[..n]), net.hash(file[n]))
     && (n == 0 ==> net.hash(file[n]) == net.genesisHash)
     && (n > 0 ==> Has(net, Elems(file[..n]), file[n].prevBlock))
     && (n > 1 ==> file[n].prevBlock != net.genesisHash))
  }

  lemma {:induction false} WellOrderedIsFresh(net: Net, file: seq<Header>)
    requires WellOrdered(net, file)
    ensures Fresh(net, file)
  {
    if file != [] { WellOrderedIsFresh(net, file[..|file| - 1]); }
  }

  /** `t` is deeper than every other header of `s`. */
  ghost predicate SoleDeepest(net: Net, s: set<Header>, t: Header, d: nat) {
    && t in s && HasDepth(net, s, t, d)
    && forall h, e: nat :: h in s && HasDepth(net, s, h, e) ==> e < d || (e == d && h == t)
  }

  // ----- loading a well-ordered file -----

  lemma {:induction false} NoDangling(net: Net, c: Chain, h: Header)
    requires Valid(net, c) && Rooted(net, c) && Offered(net, h) && Has(net, Known(c), h.prevBlock)
    ensures BranchOf(net, c, h).Attached?
    decreases net.rank(h.prevBlock)
  {
    var g := Lookup(net, Known(c), h.prevBlock);
    if Has(net, c.orphans, h.prevBlock) {
      var o := Lookup(net, c.orphans, h.prevBlock);
      assert o in Known(c);
      NoDangling(net, c, o);
    } else {
      assert g in Elems(c.main);
    }
  }

  lemma MainSize(c: Chain)
    requires Distinct(c.main)
    ensures |c.main| <= |Known(c)|
  {
    DistinctSize(c.main);
    assert Known(c) == Elems(c.main) + (c.orphans - Elems(c.main));
  }

  lemma {:induction false} DistinctSize(hs: seq<Header>)
    ensures |Elems(hs)| <= |hs|
    ensures Distinct(hs) ==> |Elems(hs)| == |hs|
  {
    if hs != [] {
      ElemsLast(hs);
      DistinctSize(hs[..|hs| - 1]);
    }
  }

  /** Loading a well-ordered file never stops, and leaves every header rooted and the height at
      the greatest depth. */
  lemma {:induction false} LoadWellOrdered(net: Net, file: seq<Header>)
    requires WellOrdered(net, file)
    ensures Fresh(net, file) && Load(net, file).Returned?
    ensures Rooted(net, Load(net, file).value) && Longest(net, Load(net, file).value)
  {
    WellOrderedIsFresh(net, file);
    if file != [] {
      var n := |file| - 1;
      LoadWellOrdered(net, file[..n]);
      var c := Load(net, file[..n]).value;
      var h := file[n];
      MainSize(c);
      DistinctSize(file[..n]);
      if c.main == [] {
        assert Elems(file[..n]) == {};
        assert n == 0;
      } else {
        assert n > 0 by {
          assert c.main[0] in Known(c);
        }
        NoDangling(net, c, h);
      }
      AddEntryStopsExactlyWhen(net, c, h);
      AddEntryKeepsLongest(net, c, h);
    }
  }

  /** Reopening a well-ordered file finds its sole deepest header at its depth. */
  lemma LoadFindsDeepest(net: Net, file: seq<Header>, t: Header, d: nat)
    requires WellOrdered(net, file) && SoleDeepest(net, Elems(file), t, d)
    ensures Fresh(net, file) && Load(net, file).Returned?
    ensures var c := Load(net, file).value; |c.main| == d + 1 && c.main[d] == t
  {
    LoadWellOrdered(net, file);
    var c := Load(net, file).value;
    assert t in Known(c);
    MainDepth(net, c, |c.main| - 1);
    assert c.main[|c.main| - 1] in Known(c);
  }

  /** Two linked chains over one set of headers that end in the same header are the same. */
  lemma {:induction false} SameChain(net: Net, s: set<Header>, a: seq<Header>, b: seq<Header>)
    requires OnePerHash(net, s) && Elems(a) <= s && Elems(b) <= s
    requires Linked(net, a) && Linked(net, b) && |a| == |b| && a != []
    requires a[|a| - 1] == b[|b| - 1]
    ensures a == b
  {
    var n := |a| - 1;
    if n > 0 {
      assert a[n - 1] in Elems(a) && b[n - 1] in Elems(b);
      assert a[..n][n - 1] == a[n - 1] && b[..n][n - 1] == b[n - 1];
      assert Elems(a[..n]) <= Elems(a) && Elems(b[..n]) <= Elems(b);
      SameChain(net, s, a[..n], b[..n]);
      assert a == a[..n] + [a[n]] && b == b[..n] + [b[n]];
    } else {
      assert a == [a[0]] && b == [b[0]];
    }
  }

  // ----- runs -----

  datatype Event = Arrive(h: Header) | Write(ok: bool) | Reopen

  /** What holds whether or not writes succeed. */
  ghost predicate Sound(net: Net, s: Store) {
    Valid(net, s.chain) && Fresh(net, s.file) && Elems(s.file) <= s.written <= Known(s.chain)
  }

  /** One event. A reopened store knows what is in the file, all of it written. */
  ghost function Step(net: Net, s: Store, e: Event): Outcome<Store>
    requires Sound(net, s)
    requires e.Arrive? ==> Offered(net, e.h)
  {
    match e
    case Arrive(h) => var c :- AddHeader(net, s.chain, h); Returned(s.(chain := c))
    case Write(ok) => WriteHeaders(s, ok)
    case Reopen => var c :- Load(net, s.file); Returned(Store(c, Elems(s.file), s.file))
  }

  /** What every run keeps as long as its writes succeed. The second line is "written implies
      parent written"; the last two are why the file can be replayed: nothing written is as deep
      as the tip except the tip, and the file itself has a single deepest header. */
  ghost predicate StoreValid(net: Net, s: Store) {
    && Valid(net, s.chain) && WellOrdered(net, s.file)
    && Elems(s.file) == s.written && s.written <= Known(s.chain)
    && ParentWritten(net, s)
    && OneGenesisChild(net, s.chain)
    && TipDeepest(net, s)
    && (s.file != [] ==> HasSoleDeepest(net, s.written))
  }

  ghost predicate ParentWritten(net: Net, s: Store) {
    forall h :: h in s.written && net.hash(h) != net.genesisHash ==> Has(net, s.written, h.prevBlock)
  }

  ghost predicate HasSoleDeepest(net: Net, w: set<Header>) {
    exists t, d: nat :: SoleDeepest(net, w, t, d)
  }

  ghost predicate TipDeepest(net: Net, s: Store) {
    forall h, d: nat :: h in s.written && HasDepth(net, Known(s.chain), h, d) ==>
      d < |s.chain.main| && (d == |s.chain.main| - 1 ==> h == s.chain.main[d])
  }

  /** The only known child of genesis is the second header of the main chain. */
  ghost predicate OneGenesisChild(net: Net, c: Chain) {
    forall h :: h in Known(c) && h.prevBlock == net.genesisHash ==> |c.main| > 1 && h == c.main[1]
  }

  // ----- writing -----

  /** Below a written header of the main chain everything is written. */
  lemma {:induction false} WrittenBelow(net: Net, s: Store, i: nat, j: nat)
    requires Valid(net, s.chain) && s.written <= Known(s.chain) && ParentWritten(net, s)
    requires i <= j < |s.chain.main| && s.chain.main[j] in s.written
    ensures s.chain.main[i] in s.written
    decreases j
  {
    var main := s.chain.main;
    assert forall k :: 0 <= k < |main| ==> main[k] in Known(s.chain);
    if i < j {
      assert main[0] in Known(s.chain) && main[j] in Known(s.chain);
      assert net.hash(main[j]) != net.genesisHash;
      var p := Lookup(net, s.written, main[j].prevBlock);
      assert p == main[j - 1];
      WrittenBelow(net, s, i, j - 1);
    }
  }

  /** The part of the main chain from `m` on is not in the file, the part before it is. */
  ghost predicate Splits(net: Net, c: Chain, file: seq<Header>, m: nat) {
    && Valid(net, c) && OneGenesisChild(net, c) && Elems(file) <= Known(c) && m <= |c.main|
    && (forall i :: 0 <= i < m ==> c.main[i] in file) && (m == 0 ==> file == [])
    && (forall i :: m <= i < |c.main| ==> c.main[i] !in file)
  }

  /** Appending the unwritten end of the main chain keeps the file well ordered. */
  lemma {:induction false} AppendMain(net: Net, c: Chain, file: seq<Header>, m: nat, k: nat)
    requires WellOrdered(net, file) && m <= k <= |c.main| && Splits(net, c, file, m)
    ensures WellOrdered(net, file + c.main[m..k])
    decreases k
  {
    SliceSnoc(file, c.main, m, k);
    if m < k {
      AppendMain(net, c, file, m, k - 1);
      AppendOne(net, c, file + c.main[m..k - 1], file, m, k - 1);
    }
  }

  lemma SliceSnoc<T>(file: seq<T>, main: seq<T>, m: nat, k: nat)
    requires m <= k <= |main|
    ensures m == k ==> file + main[m..k] == file
    ensures m < k ==> file + main[m..k] == file + main[m..k - 1] + [main[k - 1]]
  {
    if m < k {
      assert main[m..k] == main[m..k - 1] + [main[k - 1]];
    }
  }

  lemma AppendOne(net: Net, c: Chain, pre: seq<Header>, file: seq<Header>, m: nat, k: nat)
    requires WellOrdered(net, pre) && m <= k < |c.main| && Splits(net, c, file, m)
    requires pre == file + c.main[m..k]
    ensures WellOrdered(net, pre + [c.main[k]])
  {
    AppendOneFits(net, c, pre, file, m, k);
    assert c.main[k] in Known(c);
    assert (pre + [c.main[k]])[..|pre|] == pre;
  }

  lemma AppendOneFits(net: Net, c: Chain, pre: seq<Header>, file: seq<Header>, m: nat, k: nat)
    requires WellOrdered(net, pre) && m <= k < |c.main| && Splits(net, c, file, m)
    requires pre == file + c.main[m..k]
    ensures !Has(net, Elems(pre), net.hash(c.main[k]))
    ensures |pre| == 0 ==> net.hash(c.main[k]) == net.genesisHash
    ensures |pre| > 0 ==> Has(net, Elems(pre), c.main[k].prevBlock)
    ensures |pre| > 1 ==> c.main[k].prevBlock != net.genesisHash
  {
    var h := c.main[k];
    assert h in Known(c);
    forall x | x in pre ensures x in Known(c) && x != h {
      if x in file { assert x in Elems(file); }
    }
    assert forall i :: 0 <= i < k ==> c.main[i] in pre by {
      forall i | 0 <= i < k ensures c.main[i] in pre {
        if i >= m { assert c.main[m..k][i - m] == c.main[i]; }
      }
    }
    if k > 0 {
      assert c.main[k - 1] in Elems(pre) && net.hash(c.main[k - 1]) == h.prevBlock;
    }
    if |pre| > 1 {
      SecondIsGenesisChild(net, pre);
      assert pre[1] in Known(c);
      assert pre[1] == c.main[1];
    }
  }

  /** The second header of a well-ordered file is the child of genesis. */
  lemma {:induction false} SecondIsGenesisChild(net: Net, file: seq<Header>)
    requires WellOrdered(net, file) && |file| > 1
    ensures net.hash(file[0]) == net.genesisHash && file[1].prevBlock == net.genesisHash
  {
    var n := |file| - 1;
    if n > 1 {
      SecondIsGenesisChild(net, file[..n]);
    } else {
      assert file[..1][..0] == [];
      var g := Lookup(net, Elems(file[..1]), file[1].prevBlock);
      assert g == file[0];
    }
  }

  // ----- each event keeps the invariant -----

  /** A stored header's depth does not change when others arrive. */
  lemma {:induction false} WrittenDepth(net: Net, s: Store, h: Header) returns (d: nat)
    requires Valid(net, s.chain) && s.written <= Known(s.chain) && ParentWritten(net, s) && h in s.written
    ensures HasDepth(net, s.written, h, d)
    decreases net.rank(net.hash(h))
  {
    if net.hash(h) == net.genesisHash {
      d := 0;
    } else {
      assert Offered(net, h);
      var p := Lookup(net, s.written, h.prevBlock);
      var e := WrittenDepth(net, s, p);
      d := e + 1;
    }
  }

  lemma ArriveKeeps(net: Net, s: Store, h: Header)
    requires StoreValid(net, s) && Offered(net, h) && AddHeader(net, s.chain, h).Returned?
    ensures StoreValid(net, s.(chain := AddHeader(net, s.chain, h).value))
  {
    var c := AddHeader(net, s.chain, h).value;
    var t := s.(chain := c);
    AddHeaderKeeps(net, s.chain, h);
    if !Has(net, Known(s.chain), net.hash(h)) {
      AddEntryKeeps(net, s.chain, h);
      ArriveKeepsGenesisChild(net, s.chain, h);
      forall x, d: nat | x in s.written && HasDepth(net, Known(c), x, d)
        ensures d < |c.main| && (d == |c.main| - 1 ==> x == c.main[d])
      {
        var e := WrittenDepth(net, s, x);
        DepthGrows(net, s.written, Known(s.chain), x, e);
        DepthGrows(net, s.written, Known(c), x, e);
        DepthUnique(net, Known(c), x, d, e);
      }
    }
  }

  lemma ArriveKeepsGenesisChild(net: Net, c: Chain, h: Header)
    requires Valid(net, c) && OneGenesisChild(net, c)
    requires Offered(net, h) && !Has(net, Known(c), net.hash(h)) && AddEntry(net, c, h).Returned?
    ensures OneGenesisChild(net, AddEntry(net, c, h).value)
  {
    AddEntryKeeps(net, c, h);
    var d := AddEntry(net, c, h).value;
    forall x | x in Known(d) && x.prevBlock == net.genesisHash ensures |d.main| > 1 && x == d.main[1] {
      if x == h {
        AddEntryStopsExactlyWhen(net, c, h);
        assert c.main != [];
        assert d.main == c.main + [h];
        assert c.main[|c.main| - 1] in Known(c) && c.main[0] in Known(c);
        assert |c.main| == 1;
      } else {
        assert c.main[..2][1] == d.main[..2][1];
      }
    }
  }

  /** The part of the main chain that a write appends is exactly the part not in the file. */
  lemma WriteSplits(net: Net, s: Store)
    requires StoreValid(net, s)
    ensures Splits(net, s.chain, s.file, UnwrittenFrom(s.chain.main, s.written, |s.chain.main|))
  {
    var main := s.chain.main;
    var m := UnwrittenFrom(main, s.written, |main|);
    forall i | 0 <= i < m ensures main[i] in s.file {
      WrittenBelow(net, s, i, m - 1);
      assert main[i] in Elems(s.file);
    }
    forall i | m <= i < |main| ensures main[i] !in s.file {
      assert main[i] in s.file <==> main[i] in Elems(s.file);
    }
    if s.file != [] {
      WellOrderedGenesis(net, s.file);
      assert s.file[0] in Elems(s.file) && s.file[0] in Known(s.chain);
      assert main != [];
      assert main[0] in Known(s.chain);
      assert main[0] == s.file[0];
    }
  }

  lemma TailElems(file: seq<Header>, main: seq<Header>, m: nat)
    requires m <= |main|
    ensures Elems(main) == Elems(main[..m]) + Elems(main[m..])
    ensures Elems(file + main[m..]) == Elems(file) + Elems(main[m..])
  {
    assert main == main[..m] + main[m..];
    ElemsConcat(file, main[m..]);
    ElemsConcat(main[..m], main[m..]);
  }

  lemma WriteOrdered(net: Net, c: Chain, file: seq<Header>, m: nat)
    requires WellOrdered(net, file) && Splits(net, c, file, m)
    ensures WellOrdered(net, file + c.main[m..])
  {
    AppendMain(net, c, file, m, |c.main|);
    assert c.main[m..|c.main|] == c.main[m..];
  }

  lemma WriteElems(net: Net, s: Store, m: nat)
    requires Elems(s.file) == s.written && Splits(net, s.chain, s.file, m)
    ensures s.written + Elems(s.chain.main[m..]) == s.written + Elems(s.chain.main)
    ensures Elems(s.file + s.chain.main[m..]) == s.written + Elems(s.chain.main)
  {
    TailElems(s.file, s.chain.main, m);
    assert Elems(s.chain.main[..m]) <= Elems(s.file);
  }

  lemma WriteKeeps(net: Net, s: Store)
    requires StoreValid(net, s) && WriteHeaders(s, true).Returned?
    ensures StoreValid(net, WriteHeaders(s, true).value)
    ensures Elems(s.chain.main) <= WriteHeaders(s, true).value.written
  {
    var t := WriteHeaders(s, true).value;
    var m := UnwrittenFrom(s.chain.main, s.written, |s.chain.main|);
    WriteSplits(net, s);
    WriteOrdered(net, s.chain, s.file, m);
    WriteElems(net, s, m);
    WriteKeepsDepths(net, s, t);
    assert s.chain.main == [] ==> Known(s.chain) == {};
    ElemsEmpty(t.file);
  }

  lemma {:induction false} WellOrderedGenesis(net: Net, file: seq<Header>)
    requires WellOrdered(net, file) && file != []
    ensures net.hash(file[0]) == net.genesisHash
  {
    if |file| > 1 { WellOrderedGenesis(net, file[..|file| - 1]); }
  }

  lemma WriteKeepsDepths(net: Net, s: Store, t: Store)
    requires StoreValid(net, s) && t.chain == s.chain
    requires t.written == s.written + Elems(s.chain.main)
    ensures t.written <= Known(t.chain) && ParentWritten(net, t) && TipDeepest(net, t)
    ensures s.chain.main != [] ==> HasSoleDeepest(net, t.written)
  {
    hide ParentWritten, OneGenesisChild, TipDeepest, HasSoleDeepest, Valid, WellOrdered;
    WriteKeepsParents(net, s, t);
    WriteKeepsTip(net, s, t);
    if s.chain.main != [] { WriteKeepsSole(net, t); }
  }

  lemma WriteKeepsParents(net: Net, s: Store, t: Store)
    requires StoreValid(net, s) && t.written == s.written + Elems(s.chain.main)
    ensures ParentWritten(net, t)
  {
    var main := s.chain.main;
    forall h | h in t.written && net.hash(h) != net.genesisHash ensures Has(net, t.written, h.prevBlock) {
      if h in s.written {
        var p := Lookup(net, s.written, h.prevBlock);
        assert p in t.written;
      } else {
        var i :| 0 <= i < |main| && main[i] == h;
        assert main[i - 1] in t.written;
      }
    }
  }

  lemma WriteKeepsTip(net: Net, s: Store, t: Store)
    requires StoreValid(net, s) && t.chain == s.chain && t.written == s.written + Elems(s.chain.main)
    ensures TipDeepest(net, t)
  {
    var main := s.chain.main;
    forall h, d: nat | h in t.written && HasDepth(net, Known(t.chain), h, d)
      ensures d < |main| && (d == |main| - 1 ==> h == main[d])
    {
      if h !in s.written {
        var i :| 0 <= i < |main| && main[i] == h;
        MainDepth(net, s.chain, i);
        assert h in Known(s.chain);
        DepthUnique(net, Known(s.chain), h, d, i);
      }
    }
  }

  lemma WriteKeepsSole(net: Net, t: Store)
    requires Valid(net, t.chain) && t.written <= Known(t.chain) && ParentWritten(net, t) && TipDeepest(net, t)
    requires t.chain.main != [] && Elems(t.chain.main) <= t.written
    ensures HasSoleDeepest(net, t.written)
  {
    hide ParentWritten;
    var main := t.chain.main;
    var tip := main[|main| - 1];
    assert tip in Elems(main);
    var d := WrittenDepth(net, t, tip);
    DepthGrows(net, t.written, Known(t.chain), tip, d);
    MainDepth(net, t.chain, |main| - 1);
    DepthUnique(net, Known(t.chain), tip, d, |main| - 1);
    forall h, e: nat | h in t.written && HasDepth(net, t.written, h, e) ensures e < d || (e == d && h == tip) {
      DepthGrows(net, t.written, Known(t.chain), h, e);
    }
    assert SoleDeepest(net, t.written, tip, d);
  }

  lemma ReopenKeeps(net: Net, s: Store)
    requires StoreValid(net, s)
    ensures Fresh(net, s.file) && Load(net, s.file).Returned?
    ensures StoreValid(net, Store(Load(net, s.file).value, Elems(s.file), s.file))
  {
    LoadWellOrdered(net, s.file);
    var c := Load(net, s.file).value;
    var t := Store(c, Elems(s.file), s.file);
    if s.file != [] {
      var tip, d: nat :| SoleDeepest(net, s.written, tip, d);
      LoadFindsDeepest(net, s.file, tip, d);
      forall h, e: nat | h in t.written && HasDepth(net, Known(c), h, e)
        ensures e < |c.main| && (e == |c.main| - 1 ==> h == c.main[e])
      {
      }
    }
    LoadKeepsGenesisChild(net, s.file);
  }

  lemma {:induction false} LoadKeepsGenesisChild(net: Net, file: seq<Header>)
    requires WellOrdered(net, file)
    ensures Fresh(net, file) && Load(net, file).Returned? && OneGenesisChild(net, Load(net, file).value)
  {
    LoadWellOrdered(net, file);
    if file != [] {
      var n := |file| - 1;
      LoadKeepsGenesisChild(net, file[..n]);
      ArriveKeepsGenesisChild(net, Load(net, file[..n]).value, file[n]);
    }
  }

  // ----- whole runs -----

  lemma StepSound(net: Net, s: Store, e: Event)
    requires Sound(net, s) && (e.Arrive? ==> Offered(net, e.h)) && Step(net, s, e).Returned?
    ensures Sound(net, Step(net, s, e).value)
  {
    match e
    case Arrive(h) => AddHeaderKeeps(net, s.chain, h);
    case Write(ok) =>
      WriteSound(net, s, ok);
    case Reopen =>
  }

  lemma WriteSound(net: Net, s: Store, ok: bool)
    requires Sound(net, s) && WriteHeaders(s, ok).Returned?
    ensures Sound(net, WriteHeaders(s, ok).value)
  {
    var main := s.chain.main;
    var m := UnwrittenFrom(main, s.written, |main|);
    TailElems(s.file, main, m);
    assert Elems(main[m..]) <= Known(s.chain);
    assert Fresh(net, s.file + main[m..]) by {
      FreshAppend(net, s, m, |main|);
      assert main[m..|main|] == main[m..];
    }
  }

  lemma {:induction false} FreshAppend(net: Net, s: Store, m: nat, k: nat)
    requires Sound(net, s) && m <= k <= |s.chain.main|
    requires forall i :: m <= i < |s.chain.main| ==> s.chain.main[i] !in s.written
    ensures Fresh(net, s.file + s.chain.main[m..k])
    decreases k
  {
    var main := s.chain.main;
    SliceSnoc(s.file, main, m, k);
    if m < k {
      FreshAppend(net, s, m, k - 1);
      var pre := s.file + main[m..k - 1];
      FreshOne(net, s, pre, m, k - 1);
      assert (pre + [main[k - 1]])[..|pre|] == pre;
    }
  }

  lemma FreshOne(net: Net, s: Store, pre: seq<Header>, m: nat, k: nat)
    requires Sound(net, s) && m <= k < |s.chain.main| && pre == s.file + s.chain.main[m..k]
    requires forall i :: m <= i < |s.chain.main| ==> s.chain.main[i] !in s.written
    ensures Offered(net, s.chain.main[k]) && !Has(net, Elems(pre), net.hash(s.chain.main[k]))
  {
    assert s.chain.main[k] in Known(s.chain);
    forall x | x in pre ensures x in Known(s.chain) && x != s.chain.main[k] {
      assert x in s.file <==> x in Elems(s.file);
    }
  }

  ghost predicate EventsOffered(net: Net, es: seq<Event>) {
    forall e :: e in es && e.Arrive? ==> Offered(net, e.h)
  }

  ghost function Run(net: Net, s: Store, es: seq<Event>): (r: Outcome<Store>)
    requires Sound(net, s) && EventsOffered(net, es)
    ensures r.Returned? ==> Sound(net, r.value)
    decreases |es|
  {
    if es == [] then Returned(s)
    else
      assert es[0] in es && forall e :: e in es[1..] ==> e in es;
      var r := Step(net, s, es[0]);
      if r.Stopped? then Stopped
      else StepSound(net, s, es[0]); Run(net, r.value, es[1..])
  }

  /** Every run whose writes succeed, reopenings included, keeps the invariant: the structure of
      the two indexes, written implies parent written, and a file that lists each written header
      once and after its parent. */
  lemma {:induction false} RunKeeps(net: Net, s: Store, es: seq<Event>)
    requires StoreValid(net, s) && Sound(net, s) && EventsOffered(net, es)
    requires Write(false) !in es
    requires Run(net, s, es).Returned?
    ensures StoreValid(net, Run(net, s, es).value)
    decreases |es|
  {
    if es != [] {
      assert es[0] in es && forall e :: e in es[1..] ==> e in es;
      StepSound(net, s, es[0]);
      match es[0] {
        case Arrive(h) => ArriveKeeps(net, s, h);
        case Write(ok) => WriteKeeps(net, s);
        case Reopen => ReopenKeeps(net, s);
      }
      RunKeeps(net, Step(net, s, es[0]).value, es[1..]);
    }
  }

  /** Replay: after any run of arrivals in any order, successful writes and reopenings, a further
      successful write leaves a file from which a fresh store rebuilds the same best chain. */
  lemma ReplayRebuilds(net: Net, es: seq<Event>)
    requires EventsOffered(net, es) && Write(false) !in es
    requires Sound(net, EmptyStore)
    requires Run(net, EmptyStore, es).Returned?
    requires WriteHeaders(Run(net, EmptyStore, es).value, true).Returned?
    ensures var s := WriteHeaders(Run(net, EmptyStore, es).value, true).value;
      && WellOrdered(net, s.file) && ParentWritten(net, s)
      && Fresh(net, s.file) && Load(net, s.file).Returned?
      && Load(net, s.file).value.main == s.chain.main
  {
    assert Elems([]) == {};
    RunKeeps(net, EmptyStore, es);
    var r := Run(net, EmptyStore, es).value;
    WriteKeeps(net, r);
    RebuildsMain(net, WriteHeaders(r, true).value);
  }

  lemma EmptyStoreSound(net: Net)
    ensures Sound(net, EmptyStore) && StoreValid(net, EmptyStore)
  {
    assert Elems([]) == {};
  }

  lemma RebuildsMain(net: Net, s: Store)
    requires StoreValid(net, s) && Elems(s.chain.main) <= s.written
    ensures Fresh(net, s.file) && Load(net, s.file).Returned?
    ensures Load(net, s.file).value.main == s.chain.main
  {
    LoadWellOrdered(net, s.file);
    var main := s.chain.main;
    var c := Load(net, s.file).value;
    if main == [] {
      assert Known(s.chain) == {};
      ElemsEmpty(s.file);
    } else {
      var n := |main| - 1;
      assert main[n] in Elems(main);
      assert s.file != [];
      var tip, d: nat :| SoleDeepest(net, s.written, tip, d);
      LoadFindsDeepest(net, s.file, tip, d);
      TipIsDeepest(net, s, tip, d);
      assert Elems(c.main) <= Known(c);
      SameChain(net, s.written, c.main, main);
    }
  }

  lemma TipIsDeepest(net: Net, s: Store, t: Header, d: nat)
    requires StoreValid(net, s) && s.chain.main != [] && Elems(s.chain.main) <= s.written
    requires SoleDeepest(net, s.written, t, d)
    ensures d == |s.chain.main| - 1 && t == s.chain.main[d]
  {
    var n := |s.chain.main| - 1;
    var tip := s.chain.main[n];
    assert tip in Elems(s.chain.main);
    var e := WrittenDepth(net, s, tip);
    DepthGrows(net, s.written, Known(s.chain), tip, e);
    DepthGrows(net, s.written, Known(s.chain), t, d);
    MainDepth(net, s.chain, n);
    DepthUnique(net, Known(s.chain), tip, e, n);
  }

  /** After a failed write the file still loads, but it rebuilds the main chain exactly if there was
      nothing to write. */
  lemma FailedWriteReplaysExactlyWhen(net: Net, s: Store)
    requires StoreValid(net, s) && WriteHeaders(s, false).Returned?
    ensures var r := WriteHeaders(s, false).value;
      && r.chain == s.chain && Fresh(net, r.file) && Load(net, r.file).Returned?
      && (Load(net, r.file).value.main == s.chain.main <==> Elems(s.chain.main) <= s.written)
  {
    hide ParentWritten, OneGenesisChild, TipDeepest, HasSoleDeepest, Valid, WellOrdered;
    LoadWellOrdered(net, s.file);
    assert Elems(Load(net, s.file).value.main) <= Known(Load(net, s.file).value);
    if Elems(s.chain.main) <= s.written {
      RebuildsMain(net, s);
    }
  }

  /** What a failed write leaves out stays out of the file until the program is started again. */
  lemma {:induction false} LostForGood(net: Net, s: Store, es: seq<Event>, h: Header)
    requires Sound(net, s) && EventsOffered(net, es) && Reopen !in es
    requires h in s.written && h !in s.file
    requires Run(net, s, es).Returned?
    ensures h in Run(net, s, es).value.written && h !in Run(net, s, es).value.file
    decreases |es|
  {
    if es != [] {
      hide Sound, Step;
      assert es[0] in es && forall e :: e in es[1..] ==> e in es;
      StepSound(net, s, es[0]);
      StepLeavesOut(net, s, es[0], h);
      LostForGood(net, Step(net, s, es[0]).value, es[1..], h);
    }
  }

  lemma StepLeavesOut(net: Net, s: Store, e: Event, h: Header)
    requires Sound(net, s) && (e.Arrive? ==> Offered(net, e.h)) && e != Reopen
    requires h in s.written && h !in s.file && Step(net, s, e).Returned?
    ensures h in Step(net, s, e).value.written && h !in Step(net, s, e).value.file
  {
  }

  /** Success of the writes is needed: entries are flagged written before the write is tried, so
      a failed write leaves its headers out of the file for good, and the next successful write
      appends their children. The file below does not start at genesis and cannot be loaded. */
  lemma FailedWriteBreaksReplay(net: Net, g: Header, a: Header)
    requires net.hash(g) == net.genesisHash && a.prevBlock == net.hash(g)
    requires Offered(net, g) && Offered(net, a) && net.hash(a) != net.hash(g)
    ensures var es := [Arrive(g), Write(false), Arrive(a), Write(true)];
      && EventsOffered(net, es) && Sound(net, EmptyStore)
      && Run(net, EmptyStore, es).Returned?
      && var s := Run(net, EmptyStore, es).value;
         s.chain.main == [g, a] && s.file == [a] && Load(net, s.file).Stopped?
  {
    hide Step, Sound;
    var es := [Arrive(g), Write(false), Arrive(a), Write(true)];
    var s1 := Store(Chain([g], {}), {}, []);
    var s2 := Store(Chain([g], {}), {g}, []);
    var s3 := Store(Chain([g, a], {}), {g}, []);
    var s4 := Store(Chain([g, a], {}), {g, a}, [a]);
    FailedWriteSteps(net, g, a);
    var e3 := [Write(true)];
    var e2 := [Arrive(a), Write(true)];
    var e1 := [Write(false), Arrive(a), Write(true)];
    assert e3 == [Write(true)] + [] && e2 == [Arrive(a)] + e3;
    assert e1 == [Write(false)] + e2 && es == [Arrive(g)] + e1;
    assert Run(net, s4, []) == Returned(s4);
    RunCons(net, s3, s4, Write(true), []);
    RunCons(net, s2, s3, Arrive(a), e3);
    RunCons(net, s1, s2, Write(false), e2);
    RunCons(net, EmptyStore, s1, Arrive(g), e1);
    LoadWithoutGenesis(net, a);
  }

  lemma LoadWithoutGenesis(net: Net, a: Header)
    requires Offered(net, a) && net.hash(a) != net.genesisHash
    ensures Fresh(net, [a]) && Load(net, [a]).Stopped?
  {
    assert [a][..0] == [] && Elems([]) == {} && Fresh(net, []);
    assert !Has(net, Elems([]), net.hash(a));
    assert Load(net, []) == Returned(EmptyChain);
  }

  lemma FailedWriteSteps(net: Net, g: Header, a: Header)
    requires net.hash(g) == net.genesisHash && a.prevBlock == net.hash(g)
    requires Offered(net, g) && Offered(net, a) && net.hash(a) != net.hash(g)
    ensures var s1 := Store(Chain([g], {}), {}, []);
      var s2 := Store(Chain([g], {}), {g}, []);
      var s3 := Store(Chain([g, a], {}), {g}, []);
      var s4 := Store(Chain([g, a], {}), {g, a}, [a]);
      && Sound(net, EmptyStore) && Sound(net, s1) && Sound(net, s2) && Sound(net, s3) && Sound(net, s4)
      && Step(net, EmptyStore, Arrive(g)) == Returned(s1) && Step(net, s1, Write(false)) == Returned(s2)
      && Step(net, s2, Arrive(a)) == Returned(s3) && Step(net, s3, Write(true)) == Returned(s4)
  {
    EmptyStoreSound(net);
    var s1 := Store(Chain([g], {}), {}, []);
    var s2 := Store(Chain([g], {}), {g}, []);
    var s3 := Store(Chain([g, a], {}), {g}, []);
    assert Step(net, EmptyStore, Arrive(g)) == Returned(s1);
    StepSound(net, EmptyStore, Arrive(g));
    FirstWrite(g);
    StepSound(net, s1, Write(false));
    ExtendGenesis(net, g, a);
    assert Step(net, s2, Arrive(a)) == Returned(s3);
    StepSound(net, s2, Arrive(a));
    SecondWrite(g, a);
    StepSound(net, s3, Write(true));
  }

  lemma FirstWrite(g: Header)
    ensures WriteHeaders(Store(Chain([g], {}), {}, []), false) == Returned(Store(Chain([g], {}), {g}, []))
  {
    assert [g][0..] == [g] && Elems([g]) == {g} && {} + Elems([g]) == {g};
    assert UnwrittenFrom([g], {}, 1) == 0;
  }

  lemma SecondWrite(g: Header, a: Header)
    requires g != a
    ensures WriteHeaders(Store(Chain([g, a], {}), {g}, []), true) == Returned(Store(Chain([g, a], {}), {g, a}, [a]))
  {
    assert [g, a][1..] == [a] && Elems([a]) == {a} && [] + [a] == [a];
    assert UnwrittenFrom([g, a], {g}, 2) == 1;
    assert {g} + Elems([a]) == {g, a};
  }

  lemma ExtendGenesis(net: Net, g: Header, a: Header)
    requires net.hash(g) == net.genesisHash && a.prevBlock == net.hash(g)
    requires Valid(net, Chain([g], {})) && Offered(net, a) && net.hash(a) != net.hash(g)
    ensures AddHeader(net, Chain([g], {}), a) == Returned(Chain([g, a], {}))
  {
    assert Known(Chain([g], {})) == {g} && Elems([g]) == {g};
    assert [g] + [a] == [g, a];
  }

  lemma RunCons(net: Net, s: Store, t: Store, e: Event, rest: seq<Event>)
    requires Sound(net, s) && Sound(net, t) && (e.Arrive? ==> Offered(net, e.h)) && EventsOffered(net, rest)
    requires Step(net, s, e) == Returned(t)
    ensures EventsOffered(net, [e] + rest)
    ensures Run(net, s, [e] + rest) == Run(net, t, rest)
  {
    assert ([e] + rest)[1..] == rest;
  }
}
