/**
 The wallet's ledger, core/txdb.c, on values: the transactions it has seen, the coins they gave it,
 and the records it keeps on disk in order. What one transaction does to the coins, what a run
 keeps, what the balance is made of, and what reading the records back rebuilds.
 */
module Ledger {
  import opened Bytes
  import opened Outcomes
  import opened TxFormat

  type Hash = Bytes32

  const ZeroHash: Hash := ToLE(0, 32)

  /** A transaction's hash and the index of one of its outputs. */
  type OutPoint = (Hash, nat)

  /** What does not change: the hash of raw bytes, and which output scripts pay the wallet, and
      which of those it can sign for. */
  datatype Wallet = Wallet(hash: seq<byte> -> Hash, mine: seq<byte> -> bool, spendable: seq<byte> -> bool)

  datatype Coin = Coin(blkHash: Hash, value: uint64, spent: bool, spendable: bool)

  datatype TxEntry = TxEntry(tx: Tx, blkHash: Hash, timestamp: nat, relevant: bool)

  datatype Record = Record(txHash: Hash, blkHash: Hash, timestamp: nat, buf: seq<byte>)

  /** The two hash tables, and the records in the order of their sequence numbers. */
  datatype Db = Db(txs: map<Hash, TxEntry>, coins: map<OutPoint, Coin>, records: seq<Record>)

  const EmptyDb := Db(map[], map[], [])

  // ----- one transaction -----

  /** The inputs: each known coin must be unspent, and is spent. */
  function SpendInputs(coins: map<OutPoint, Coin>, ins: seq<TxIn>, n: nat): (r: Outcome<map<OutPoint, Coin>>)
    requires n <= |ins|
    ensures r.Returned? ==> r.value.Keys == coins.Keys
  {
    if n == 0 then Returned(coins)
    else
      var c :- SpendInputs(coins, ins, n - 1);
      var k := (ins[n - 1].prevTxHash, ins[n - 1].prevTxOutIdx);
      if k !in c then Returned(c)
      else if c[k].spent then Stopped
      else Returned(c[k := c[k].(spent := true)])
  }

  predicate SpendsKnown(coins: map<OutPoint, Coin>, ins: seq<TxIn>) {
    exists i :: 0 <= i < |ins| && (ins[i].prevTxHash, ins[i].prevTxOutIdx as nat) in coins
  }

  /** The outputs that pay the wallet become coins; none may be there already. */
  function AddOutputs(w: Wallet, coins: map<OutPoint, Coin>, h: Hash, blkHash: Hash, outs: seq<TxOut>, n: nat)
    : (r: Outcome<map<OutPoint, Coin>>)
    requires n <= |outs|
  {
    if n == 0 then Returned(coins)
    else
      var c :- AddOutputs(w, coins, h, blkHash, outs, n - 1);
      var o := outs[n - 1];
      if !w.mine(o.script) then Returned(c)
      else if (h, n - 1) in c then Stopped
      else Returned(c[(h, n - 1) := Coin(blkHash, o.value, false, w.spendable(o.script))])
  }

  predicate PaysUs(w: Wallet, outs: seq<TxOut>) {
    exists i :: 0 <= i < |outs| && w.mine(outs[i].script)
  }

  /** `txdb_process_tx_entry`: the coins after it. */
  function Process(w: Wallet, coins: map<OutPoint, Coin>, h: Hash, blkHash: Hash, tx: Tx): Outcome<map<OutPoint, Coin>> {
    var c :- SpendInputs(coins, tx.ins, |tx.ins|);
    AddOutputs(w, c, h, blkHash, tx.outs, |tx.outs|)
  }

  /** It concerns the wallet. */
  predicate Relevant(w: Wallet, coins: map<OutPoint, Coin>, tx: Tx) {
    SpendsKnown(coins, tx.ins) || PaysUs(w, tx.outs)
  }

  /** `txdb_remember_tx`; a relevant one is saved, unless it comes from disk. */
  function Remember(w: Wallet, db: Db, saved: bool, timestamp: nat, buf: seq<byte>, h: Hash, blkHash: Hash): Outcome<Db> {
    var tx := ParseTx(buf, 0);
    if tx.None? || h in db.txs then Stopped
    else
      var coins :- Process(w, db.coins, h, blkHash, tx.value.value);
      var relevant := Relevant(w, db.coins, tx.value.value);
      var records := if relevant && !saved then db.records + [Record(h, blkHash, timestamp, buf)] else db.records;
      Returned(Db(db.txs[h := TxEntry(tx.value.value, blkHash, timestamp, relevant)], coins, records))
  }

  /** Position of the record of a transaction. */
  function FindRecord(records: seq<Record>, h: Hash, i: nat): (r: nat)
    requires i <= |records|
    ensures i <= r <= |records| && (r < |records| ==> records[r].txHash == h)
    ensures forall j :: i <= j < r ==> records[j].txHash != h
    decreases |records| - i
  {
    if i == |records| || records[i].txHash == h then i else FindRecord(records, h, i + 1)
  }

  /** `txdb_confirm_one_tx`: an irrelevant transaction is forgotten, a relevant one that had no
      block gets one, in memory and on disk; the blocks its coins name stay as they are. */
  function Confirm(db: Db, blkHash: Hash, h: Hash): Outcome<Db> {
    if h == ZeroHash || blkHash == ZeroHash then Stopped
    else if h !in db.txs then Returned(db)
    else if !db.txs[h].relevant then Returned(db.(txs := db.txs - {h}))
    else if db.txs[h].blkHash != ZeroHash then
      if db.txs[h].blkHash == blkHash then Returned(db) else Stopped
    else
      var txs := db.txs[h := db.txs[h].(blkHash := blkHash)];
      var i := FindRecord(db.records, h, 0);
      if i == |db.records| then Returned(db.(txs := txs))
      else if db.records[i].blkHash != ZeroHash || db.records[i].timestamp == 0 then Stopped
      else Returned(db.(txs := txs, records := db.records[i := db.records[i].(blkHash := blkHash)]))
  }

  /** `txdb_handle_tx`; `timestamp` is the clock's, or the block's, whose lookup stops on an unknown
      block. It is only asked for when the transaction is new. */
  function HandleTx(w: Wallet, db: Db, blkHash: Hash, buf: seq<byte>, timestamp: Outcome<nat>): Outcome<Db> {
    var h := w.hash(buf);
    var known := h in db.txs;
    var c :- if blkHash != ZeroHash then Confirm(db, blkHash, h) else Returned(db);
    if known then Returned(c)
    else
      var ts :- timestamp;
      Remember(w, c, false, ts, buf, h, blkHash)
  }

  /** `txdb_load_tx` on the first `n` records, from an empty ledger. */
  function Load(w: Wallet, records: seq<Record>, n: nat): (r: Outcome<Db>)
    requires n <= |records|
    ensures r.Returned? ==> r.value.records == records[..n]
  {
    if n == 0 then Returned(EmptyDb)
    else
      var db :- Load(w, records, n - 1);
      var rec := records[n - 1];
      if w.hash(rec.buf) != rec.txHash then Stopped
      else
        var next :- Remember(w, db, true, rec.timestamp, rec.buf, rec.txHash, rec.blkHash);
        Returned(next.(records := records[..n]))
  }

  // ----- coins that differ only in the block they name -----

  ghost predicate SameCoins(a: map<OutPoint, Coin>, b: map<OutPoint, Coin>) {
    a.Keys == b.Keys && forall k :: k in a ==> SameCoin(a[k], b[k])
  }

  ghost predicate SameCoin(a: Coin, b: Coin) {
    a.value == b.value && a.spent == b.spent && a.spendable == b.spendable
  }

  lemma {:induction false} SpendSame(a: map<OutPoint, Coin>, b: map<OutPoint, Coin>, ins: seq<TxIn>, n: nat)
    requires SameCoins(a, b) && n <= |ins|
    ensures SpendInputs(a, ins, n).Stopped? <==> SpendInputs(b, ins, n).Stopped?
    ensures SpendInputs(a, ins, n).Returned? ==> SameCoins(SpendInputs(a, ins, n).value, SpendInputs(b, ins, n).value)
  {
    if n > 0 { SpendSame(a, b, ins, n - 1); }
  }

  lemma {:induction false} AddSame(w: Wallet, a: map<OutPoint, Coin>, b: map<OutPoint, Coin>, h: Hash, x: Hash, y: Hash,
                                   outs: seq<TxOut>, n: nat)
    requires SameCoins(a, b) && n <= |outs|
    ensures AddOutputs(w, a, h, x, outs, n).Stopped? <==> AddOutputs(w, b, h, y, outs, n).Stopped?
    ensures AddOutputs(w, a, h, x, outs, n).Returned? ==>
      SameCoins(AddOutputs(w, a, h, x, outs, n).value, AddOutputs(w, b, h, y, outs, n).value)
  {
    if n > 0 { AddSame(w, a, b, h, x, y, outs, n - 1); }
  }

  /** What a transaction does to the coins does not depend on the blocks they name. */
  lemma ProcessSame(w: Wallet, a: map<OutPoint, Coin>, b: map<OutPoint, Coin>, h: Hash, x: Hash, y: Hash, tx: Tx)
    requires SameCoins(a, b)
    ensures Relevant(w, a, tx) <==> Relevant(w, b, tx)
    ensures Process(w, a, h, x, tx).Stopped? <==> Process(w, b, h, y, tx).Stopped?
    ensures Process(w, a, h, x, tx).Returned? ==> SameCoins(Process(w, a, h, x, tx).value, Process(w, b, h, y, tx).value)
  {
    hide SpendInputs, AddOutputs;
    SpendSame(a, b, tx.ins, |tx.ins|);
    if SpendInputs(a, tx.ins, |tx.ins|).Returned? {
      AddSame(w, SpendInputs(a, tx.ins, |tx.ins|).value, SpendInputs(b, tx.ins, |tx.ins|).value, h, x, y, tx.outs, |tx.outs|);
    }
  }

  // ----- the invariant -----

  /** Every coin is an output of a relevant transaction that is known. */
  ghost predicate CoinsOwned(db: Db) {
    forall k :: k in db.coins ==> k.0 in db.txs && db.txs[k.0].relevant && k.1 < |db.txs[k.0].tx.outs|
  }

  /** A loaded ledger has the relevant transactions of this one, and the same coins. */
  ghost predicate Mirrors(l: Db, db: Db) {
    && SameCoins(l.coins, db.coins)
    && (forall h :: h in l.txs <==> h in db.txs && db.txs[h].relevant)
    && (forall h :: h in l.txs ==> l.txs[h] == db.txs[h])
  }

  /** Reading the records back rebuilds the ledger. */
  ghost predicate Valid(w: Wallet, db: Db) {
    && CoinsOwned(db)
    && Load(w, db.records, |db.records|).Returned? && Mirrors(Load(w, db.records, |db.records|).value, db)
  }

  lemma {:induction false} SpendUnknown(coins: map<OutPoint, Coin>, ins: seq<TxIn>, n: nat)
    requires n <= |ins| && !SpendsKnown(coins, ins)
    ensures SpendInputs(coins, ins, n) == Returned(coins)
  {
    if n > 0 { SpendUnknown(coins, ins, n - 1); }
  }

  lemma {:induction false} AddNone(w: Wallet, coins: map<OutPoint, Coin>, h: Hash, blkHash: Hash, outs: seq<TxOut>, n: nat)
    requires n <= |outs| && !PaysUs(w, outs)
    ensures AddOutputs(w, coins, h, blkHash, outs, n) == Returned(coins)
  {
    if n > 0 { AddNone(w, coins, h, blkHash, outs, n - 1); }
  }

  lemma {:induction false} AddOwned(w: Wallet, coins: map<OutPoint, Coin>, h: Hash, blkHash: Hash, outs: seq<TxOut>, n: nat)
    requires n <= |outs| && forall k :: k in coins ==> k.0 != h
    ensures AddOutputs(w, coins, h, blkHash, outs, n).Returned?
    ensures var c := AddOutputs(w, coins, h, blkHash, outs, n).value;
      && (forall k :: k in c <==> k in coins || (k.0 == h && k.1 < n && w.mine(outs[k.1].script)))
      && (forall k :: k in coins ==> c[k] == coins[k])
      && (forall k :: k in c && k.0 == h ==> c[k].blkHash == blkHash)
  {
    if n > 0 { AddOwned(w, coins, h, blkHash, outs, n - 1); }
  }

  /** An irrelevant transaction changes no coin; a new one can only fail on a coin already spent. */
  lemma ProcessFacts(w: Wallet, coins: map<OutPoint, Coin>, h: Hash, blkHash: Hash, tx: Tx)
    requires forall k :: k in coins ==> k.0 != h
    ensures !Relevant(w, coins, tx) ==> Process(w, coins, h, blkHash, tx) == Returned(coins)
    ensures Process(w, coins, h, blkHash, tx).Stopped? <==> SpendInputs(coins, tx.ins, |tx.ins|).Stopped?
    ensures Process(w, coins, h, blkHash, tx).Returned? ==>
      forall k :: k in Process(w, coins, h, blkHash, tx).value && k !in coins ==>
        k.0 == h && k.1 < |tx.outs| && PaysUs(w, tx.outs)
  {
    if !Relevant(w, coins, tx) {
      SpendUnknown(coins, tx.ins, |tx.ins|);
      AddNone(w, coins, h, blkHash, tx.outs, |tx.outs|);
    }
    if SpendInputs(coins, tx.ins, |tx.ins|).Returned? {
      AddOwned(w, SpendInputs(coins, tx.ins, |tx.ins|).value, h, blkHash, tx.outs, |tx.outs|);
    }
  }

  lemma {:induction false} LoadPrefix(w: Wallet, a: seq<Record>, b: seq<Record>, n: nat)
    requires n <= |a| && n <= |b| && a[..n] == b[..n]
    ensures Load(w, a, n) == Load(w, b, n)
  {
    if n > 0 {
      assert a[..n][..n - 1] == a[..n - 1] && b[..n][..n - 1] == b[..n - 1];
      assert a[..n][n - 1] == a[n - 1] && b[..n][n - 1] == b[n - 1];
      LoadPrefix(w, a, b, n - 1);
    }
  }

  /** Reading one more record. */
  lemma LoadSnoc(w: Wallet, records: seq<Record>, rec: Record)
    requires Load(w, records, |records|).Returned? && w.hash(rec.buf) == rec.txHash
    ensures var l := Load(w, records, |records|).value;
      var next := Remember(w, l, true, rec.timestamp, rec.buf, rec.txHash, rec.blkHash);
      Load(w, records + [rec], |records| + 1) ==
        if next.Stopped? then Stopped else Returned(next.value.(records := records + [rec]))
  {
    hide Remember;
    var all := records + [rec];
    assert all[..|records|] == records == records[..|records|];
    LoadPrefix(w, all, records, |records|);
    assert all[..|records| + 1] == all;
  }

  /** A new relevant transaction does the same to a ledger and to its mirror. */
  lemma RememberMirrors(w: Wallet, l: Db, db: Db, timestamp: nat, buf: seq<byte>, h: Hash, blkHash: Hash)
    requires Mirrors(l, db) && CoinsOwned(db) && h !in db.txs && ParseTx(buf, 0).Some?
    ensures var tx := ParseTx(buf, 0).value.value;
      var a, b := Remember(w, db, false, timestamp, buf, h, blkHash), Remember(w, l, true, timestamp, buf, h, blkHash);
      && (a.Stopped? <==> b.Stopped?)
      && (a.Stopped? <==> SpendInputs(db.coins, tx.ins, |tx.ins|).Stopped?)
      && (a.Returned? ==> CoinsOwned(a.value))
      && (a.Returned? && Relevant(w, db.coins, tx) ==> Mirrors(b.value, a.value))
      && (a.Returned? && !Relevant(w, db.coins, tx) ==> Mirrors(l, a.value))
  {
    hide Process, SpendInputs, ParseTx, Relevant, SameCoins;
    var tx := ParseTx(buf, 0).value.value;
    assert forall k :: k in db.coins ==> k.0 != h;
    SameFlip(l.coins, db.coins);
    ProcessFacts(w, db.coins, h, blkHash, tx);
    ProcessSame(w, db.coins, l.coins, h, blkHash, blkHash, tx);
    PaidIsRelevant(w, db.coins, tx);
    if Process(w, db.coins, h, blkHash, tx).Returned? {
      SameFlip(Process(w, db.coins, h, blkHash, tx).value, Process(w, l.coins, h, blkHash, tx).value);
    }
  }

  lemma PaidIsRelevant(w: Wallet, coins: map<OutPoint, Coin>, tx: Tx)
    ensures PaysUs(w, tx.outs) ==> Relevant(w, coins, tx)
  {
  }

  lemma SameFlip(a: map<OutPoint, Coin>, b: map<OutPoint, Coin>)
    ensures SameCoins(a, b) <==> SameCoins(b, a)
  {
  }

  /** `txdb_remember_tx` on a new transaction keeps the ledger rebuildable; it stops exactly on
      bytes that do not parse, or on an input whose coin is already spent. */
  lemma RememberKeeps(w: Wallet, db: Db, timestamp: nat, buf: seq<byte>, blkHash: Hash)
    requires Valid(w, db) && w.hash(buf) !in db.txs
    ensures var r := Remember(w, db, false, timestamp, buf, w.hash(buf), blkHash);
      && (r.Stopped? <==> ParseTx(buf, 0).None? ||
                          var ins := ParseTx(buf, 0).value.value.ins;
                          exists i :: 0 <= i < |ins| && SpentAlready(db.coins, ins, i))
      && (r.Returned? ==> Valid(w, r.value))
  {
    hide Process, SpendInputs, ParseTx, Relevant, Mirrors, CoinsOwned, SpentAlready;
    var h := w.hash(buf);
    if ParseTx(buf, 0).Some? {
      var ins := ParseTx(buf, 0).value.value.ins;
      SpendExact(db.coins, ins, |ins|);
      var l := Load(w, db.records, |db.records|).value;
      RememberMirrors(w, l, db, timestamp, buf, h, blkHash);
      LoadSnoc(w, db.records, Record(h, blkHash, timestamp, buf));
      var b := Remember(w, l, true, timestamp, buf, h, blkHash);
      if b.Returned? {
        MirrorsRecords(b.value, b.value.(records := db.records + [Record(h, blkHash, timestamp, buf)]));
      }
    }
  }

  lemma MirrorsRecords(l: Db, m: Db)
    requires l.txs == m.txs && l.coins == m.coins
    ensures forall db :: Mirrors(l, db) ==> Mirrors(m, db)
  {
  }

  // ----- what a new transaction leaves -----

  ghost function Names(i: TxIn): OutPoint {
    (i.prevTxHash, i.prevTxOutIdx as nat)
  }

  /** One of the first `n` inputs names this output. */
  ghost predicate NamedBy(ins: seq<TxIn>, n: nat, k: OutPoint)
    requires n <= |ins|
  {
    exists i :: 0 <= i < n && Names(ins[i]) == k
  }

  /** Input `i` names a known coin that was spent before, or that an input before it names too. */
  ghost predicate SpentAlready(coins: map<OutPoint, Coin>, ins: seq<TxIn>, i: nat)
    requires i < |ins|
  {
    Names(ins[i]) in coins && (coins[Names(ins[i])].spent || NamedBy(ins, i, Names(ins[i])))
  }

  lemma {:induction false} SpendExact(coins: map<OutPoint, Coin>, ins: seq<TxIn>, n: nat)
    requires n <= |ins|
    ensures SpendInputs(coins, ins, n).Stopped? <==> exists i :: 0 <= i < n && SpentAlready(coins, ins, i)
    ensures SpendInputs(coins, ins, n).Returned? ==> forall k :: k in coins ==>
      SpendInputs(coins, ins, n).value[k] == coins[k].(spent := coins[k].spent || NamedBy(ins, n, k))
  {
    if n > 0 {
      SpendExact(coins, ins, n - 1);
      var k := Names(ins[n - 1]);
      assert forall x :: NamedBy(ins, n, x) <==> NamedBy(ins, n - 1, x) || x == k;
      assert SpentAlready(coins, ins, n - 1) <==> k in coins && (coins[k].spent || NamedBy(ins, n - 1, k));
      if SpendInputs(coins, ins, n - 1).Stopped? {
        var i :| 0 <= i < n - 1 && SpentAlready(coins, ins, i);
      }
    }
  }

  lemma {:induction false} AddExact(w: Wallet, coins: map<OutPoint, Coin>, h: Hash, blkHash: Hash, outs: seq<TxOut>, n: nat)
    requires n <= |outs| && forall k :: k in coins ==> k.0 != h
    ensures AddOutputs(w, coins, h, blkHash, outs, n).Returned?
    ensures var c := AddOutputs(w, coins, h, blkHash, outs, n).value;
      && (forall k :: k in c <==> k in coins || (k.0 == h && k.1 < n && w.mine(outs[k.1].script)))
      && (forall k :: k in coins ==> c[k] == coins[k])
      && (forall k :: k in c && k !in coins ==>
            c[k] == Coin(blkHash, outs[k.1].value, false, w.spendable(outs[k.1].script)))
  {
    if n > 0 { AddExact(w, coins, h, blkHash, outs, n - 1); }
  }

  /** What a new transaction does to the coins: exactly those that an input names are spent, each
      output that pays the wallet is a new coin with its value, its block, and whether the wallet can
      sign for it, and the other coins stay as they are. It fails exactly if an input names a coin
      that is spent already. */
  lemma ProcessExact(w: Wallet, coins: map<OutPoint, Coin>, h: Hash, blkHash: Hash, tx: Tx)
    requires forall k :: k in coins ==> k.0 != h
    ensures Process(w, coins, h, blkHash, tx).Stopped? <==> exists i :: 0 <= i < |tx.ins| && SpentAlready(coins, tx.ins, i)
    ensures Process(w, coins, h, blkHash, tx).Returned? ==>
      var c := Process(w, coins, h, blkHash, tx).value;
      && (forall k :: k in c <==> k in coins || (k.0 == h && k.1 < |tx.outs| && w.mine(tx.outs[k.1].script)))
      && (forall k :: k in coins ==> c[k] == coins[k].(spent := coins[k].spent || NamedBy(tx.ins, |tx.ins|, k)))
      && (forall k :: k in c && k !in coins ==>
            c[k] == Coin(blkHash, tx.outs[k.1].value, false, w.spendable(tx.outs[k.1].script)))
  {
    hide SpendInputs, AddOutputs, NamedBy, SpentAlready;
    SpendExact(coins, tx.ins, |tx.ins|);
    if SpendInputs(coins, tx.ins, |tx.ins|).Returned? {
      AddExact(w, SpendInputs(coins, tx.ins, |tx.ins|).value, h, blkHash, tx.outs, |tx.outs|);
    }
  }

  /** What remembering a new transaction leaves: its entry, with its block and time, relevant exactly if
      an input names a known coin or an output pays the wallet; a record of it at the end if it is
      relevant; every other entry and record as it was. */
  lemma RememberExact(w: Wallet, db: Db, timestamp: nat, buf: seq<byte>, h: Hash, blkHash: Hash)
    requires CoinsOwned(db) && h !in db.txs && ParseTx(buf, 0).Some?
    requires Remember(w, db, false, timestamp, buf, h, blkHash).Returned?
    ensures var r, tx := Remember(w, db, false, timestamp, buf, h, blkHash).value, ParseTx(buf, 0).value.value;
      var concerns := (exists i :: 0 <= i < |tx.ins| && Names(tx.ins[i]) in db.coins)
                      || (exists i :: 0 <= i < |tx.outs| && w.mine(tx.outs[i].script));
      && r.txs == db.txs[h := TxEntry(tx, blkHash, timestamp, concerns)]
      && r.records == (if concerns then db.records + [Record(h, blkHash, timestamp, buf)] else db.records)
      && r.coins == Process(w, db.coins, h, blkHash, tx).value
  {
    hide Process, ParseTx;
    var tx := ParseTx(buf, 0).value.value;
    if i :| 0 <= i < |tx.ins| && Names(tx.ins[i]) in db.coins {
      assert (tx.ins[i].prevTxHash, tx.ins[i].prevTxOutIdx as nat) in db.coins;
    }
    if i :| 0 <= i < |tx.ins| && (tx.ins[i].prevTxHash, tx.ins[i].prevTxOutIdx as nat) in db.coins {
      assert Names(tx.ins[i]) in db.coins;
    }
  }

  // ----- confirming -----

  /** A loaded ledger knows the transactions of the records, each with its record's block. */
  lemma {:induction false} LoadedRecords(w: Wallet, records: seq<Record>, n: nat, h: Hash)
    requires n <= |records| && Load(w, records, n).Returned?
    ensures var l := Load(w, records, n).value;
      && (forall j :: 0 <= j < n ==> records[j].txHash in l.txs)
      && (h in l.txs ==>
            var i := FindRecord(records, h, 0);
            i < n && l.txs[h].blkHash == records[i].blkHash && l.txs[h].timestamp == records[i].timestamp)
  {
    hide Process, ParseTx, Relevant;
    if n > 0 {
      LoadedRecords(w, records, n - 1, h);
      var l, m := Load(w, records, n).value, Load(w, records, n - 1).value;
      var i := FindRecord(records, h, 0);
      if h in l.txs && h !in m.txs {
        assert records[n - 1].txHash == h;
        assert forall j :: 0 <= j < n - 1 ==> records[j].txHash != h;
        assert i == n - 1;
      }
    }
  }

  /** Giving one record a block changes nothing in what is loaded but that block. */
  lemma {:induction false} LoadConfirmed(w: Wallet, records: seq<Record>, i: nat, x: Hash, n: nat)
    requires i < |records| && n <= |records| && Load(w, records, n).Returned?
    ensures var after := records[i := records[i].(blkHash := x)];
      Load(w, after, n).Returned?
    ensures var a, b := Load(w, records, n).value, Load(w, records[i := records[i].(blkHash := x)], n).value;
      var h := records[i].txHash;
      && SameCoins(a.coins, b.coins)
      && (if i < n then h in a.txs && b.txs == a.txs[h := a.txs[h].(blkHash := x)] else b.txs == a.txs)
  {
    hide Process, ParseTx, Relevant, SameCoins;
    var after := records[i := records[i].(blkHash := x)];
    SameSelf(map[]);
    if n > 0 {
      LoadConfirmed(w, records, i, x, n - 1);
      var a, b := Load(w, records, n - 1).value, Load(w, after, n - 1).value;
      var rec := records[n - 1];
      ProcessSame(w, a.coins, b.coins, rec.txHash, rec.blkHash, after[n - 1].blkHash, ParseTx(rec.buf, 0).value.value);
    }
  }

  /** An unconfirmed relevant transaction has an unconfirmed record with its time. */
  lemma ConfirmRecord(w: Wallet, db: Db, h: Hash)
    requires Valid(w, db) && h in db.txs && db.txs[h].relevant
    ensures var i := FindRecord(db.records, h, 0);
      i < |db.records| && db.records[i].blkHash == db.txs[h].blkHash && db.records[i].timestamp == db.txs[h].timestamp
  {
    hide Load, CoinsOwned, SameCoins;
    LoadedRecords(w, db.records, |db.records|, h);
  }

  lemma ConfirmedValid(w: Wallet, db: Db, blkHash: Hash, h: Hash)
    requires Valid(w, db) && h in db.txs && db.txs[h].relevant
    ensures var i := FindRecord(db.records, h, 0);
      && i < |db.records|
      && Valid(w, db.(txs := db.txs[h := db.txs[h].(blkHash := blkHash)],
                      records := db.records[i := db.records[i].(blkHash := blkHash)]))
  {
    hide Load, SameCoins;
    ConfirmRecord(w, db, h);
    var i, n := FindRecord(db.records, h, 0), |db.records|;
    LoadConfirmed(w, db.records, i, blkHash, n);
    var b := Load(w, db.records[i := db.records[i].(blkHash := blkHash)], n).value;
    SameTrans(b.coins, Load(w, db.records, n).value.coins, db.coins);
  }

  lemma ForgottenValid(w: Wallet, db: Db, h: Hash)
    requires Valid(w, db) && h in db.txs && !db.txs[h].relevant
    ensures Valid(w, db.(txs := db.txs - {h}))
  {
    hide Load, SameCoins;
  }

  /** `txdb_confirm_one_tx` keeps the ledger rebuildable; it stops exactly on a zero hash, on a
      second block, or on a relevant transaction saved with no time. */
  lemma ConfirmKeeps(w: Wallet, db: Db, blkHash: Hash, h: Hash)
    requires Valid(w, db)
    ensures Confirm(db, blkHash, h).Stopped? <==>
      || h == ZeroHash || blkHash == ZeroHash
      || (h in db.txs && db.txs[h].relevant &&
            if db.txs[h].blkHash == ZeroHash then db.txs[h].timestamp == 0 else db.txs[h].blkHash != blkHash)
    ensures Confirm(db, blkHash, h).Returned? ==> Valid(w, Confirm(db, blkHash, h).value)
  {
    hide Valid;
    if h in db.txs {
      if db.txs[h].relevant {
        ConfirmRecord(w, db, h);
        ConfirmedValid(w, db, blkHash, h);
      } else {
        ForgottenValid(w, db, h);
      }
    }
  }

  /** What confirming a relevant transaction leaves: its entry and its record have the block, and every
      other entry, record and coin is as before. An unknown one changes nothing, and an irrelevant one
      is forgotten. */
  lemma ConfirmExact(w: Wallet, db: Db, blkHash: Hash, h: Hash) returns (i: nat)
    requires Valid(w, db) && Confirm(db, blkHash, h).Returned?
    ensures var r := Confirm(db, blkHash, h).value;
      && r.coins == db.coins
      && (forall x :: x in r.txs <==> x in db.txs && (x == h ==> db.txs[x].relevant))
      && (forall x :: x in r.txs && x != h ==> r.txs[x] == db.txs[x])
      && |r.records| == |db.records| && (forall j :: 0 <= j < |r.records| && j != i ==> r.records[j] == db.records[j])
      && if h in db.txs && db.txs[h].relevant then
           && r.txs[h] == db.txs[h].(blkHash := blkHash)
           && i < |r.records| && db.records[i].txHash == h && r.records[i] == db.records[i].(blkHash := blkHash)
         else r.records == db.records
  {
    hide Valid;
    i := FindRecord(db.records, h, 0);
    if h in db.txs && db.txs[h].relevant {
      ConfirmRecord(w, db, h);
    }
  }

  lemma SameSelf(a: map<OutPoint, Coin>)
    ensures SameCoins(a, a)
  {
  }

  lemma SameTrans(a: map<OutPoint, Coin>, b: map<OutPoint, Coin>, c: map<OutPoint, Coin>)
    ensures (SameCoins(b, a) || SameCoins(a, b)) && SameCoins(b, c) ==> SameCoins(a, c)
  {
  }

  /** A load that returns has checked every record: its bytes have the hash it is saved under. */
  lemma {:induction false} LoadChecksHashes(w: Wallet, records: seq<Record>, n: nat)
    requires n <= |records| && Load(w, records, n).Returned?
    ensures forall i :: 0 <= i < n ==> w.hash(records[i].buf) == records[i].txHash
  {
    hide Remember;
    if n > 0 { LoadChecksHashes(w, records, n - 1); }
  }

  // ----- runs -----

  /** A transaction from the network, with the block it came in or none; one of the wallet's own;
      a restart. */
  datatype Event =
    | Arrives(blkHash: Hash, buf: seq<byte>, timestamp: Outcome<nat>)
    | Crafted(buf: seq<byte>, clock: nat)
    | Restart

  function Step(w: Wallet, db: Db, e: Event): Outcome<Db> {
    match e
    case Arrives(blkHash, buf, timestamp) => HandleTx(w, db, blkHash, buf, timestamp)
    case Crafted(buf, timestamp) => Remember(w, db, false, timestamp, buf, w.hash(buf), ZeroHash)
    case Restart => Load(w, db.records, |db.records|)
  }

  lemma LoadedValid(w: Wallet, db: Db)
    requires Valid(w, db)
    ensures Valid(w, Load(w, db.records, |db.records|).value)
  {
    hide Load;
    assert db.records[..|db.records|] == db.records;
  }

  /** Every step that returns keeps the ledger rebuildable, and a restart always returns. */
  lemma StepKeeps(w: Wallet, db: Db, e: Event)
    requires Valid(w, db)
    ensures Step(w, db, e).Returned? ==> Valid(w, Step(w, db, e).value)
    ensures e.Restart? ==> Step(w, db, e).Returned?
  {
    hide Process, ParseTx, Mirrors, CoinsOwned, Load;
    match e
    case Restart =>
      assert Load(w, db.records, |db.records|).Returned?;
      LoadedValid(w, db);
    case Crafted(buf, timestamp) =>
      if w.hash(buf) !in db.txs {
        RememberKeeps(w, db, timestamp, buf, ZeroHash);
      }
    case Arrives(blkHash, buf, timestamp) =>
      var h := w.hash(buf);
      ConfirmKeeps(w, db, blkHash, h);
      if h !in db.txs && timestamp.Returned? {
        RememberKeeps(w, db, timestamp.value, buf, blkHash);
      }
  }

  function Run(w: Wallet, es: seq<Event>, n: nat): Outcome<Db>
    requires n <= |es|
  {
    if n == 0 then Returned(EmptyDb)
    else
      var db :- Run(w, es, n - 1);
      Step(w, db, es[n - 1])
  }

  /** After any run that trips no assertion, reading the saved records back in order trips none
      either, and rebuilds the same relevant transactions and the same coins, with the same values
      and spent flags. */
  lemma {:induction false} RunRebuilds(w: Wallet, es: seq<Event>, n: nat)
    requires n <= |es| && Run(w, es, n).Returned?
    ensures var db := Run(w, es, n).value;
      Valid(w, db) && Load(w, db.records, |db.records|).Returned? && Mirrors(Load(w, db.records, |db.records|).value, db)
  {
    hide Step;
    if n > 0 {
      RunRebuilds(w, es, n - 1);
      StepKeeps(w, Run(w, es, n - 1).value, es[n - 1]);
    }
  }

  /** Redelivering a transaction that is known in no block, or a relevant one in its block, changes
      nothing. */
  lemma RedeliveryIsNoOp(w: Wallet, db: Db, blkHash: Hash, buf: seq<byte>, timestamp: Outcome<nat>)
    requires w.hash(buf) in db.txs
    requires blkHash == ZeroHash
             || (blkHash == db.txs[w.hash(buf)].blkHash && db.txs[w.hash(buf)].relevant && w.hash(buf) != ZeroHash)
    ensures HandleTx(w, db, blkHash, buf, timestamp) == Returned(db)
  {
  }

  // ----- the balance -----

  function Worth(c: Coin): nat { if c.spent then 0 else c.value }

  /** What the unspent coins are worth together. */
  ghost function Balance(coins: map<OutPoint, Coin>): nat {
    if coins == map[] then 0
    else
      var k :| k in coins;
      Worth(coins[k]) + Balance(coins - {k})
  }

  lemma {:induction false} BalanceTake(coins: map<OutPoint, Coin>, k: OutPoint)
    requires k in coins
    ensures Balance(coins) == Worth(coins[k]) + Balance(coins - {k})
    decreases |coins|
  {
    var j :| j in coins && Balance(coins) == Worth(coins[j]) + Balance(coins - {j});
    if j != k {
      BalanceTake(coins - {j}, k);
      assert coins - {j} - {k} == coins - {k} - {j};
      BalanceTake(coins - {k}, j);
    }
  }

  lemma BalancePut(coins: map<OutPoint, Coin>, k: OutPoint, c: Coin)
    ensures Balance(coins[k := c]) == Balance(coins) - (if k in coins then Worth(coins[k]) else 0) + Worth(c)
  {
    BalanceTake(coins[k := c], k);
    if k in coins {
      BalanceTake(coins, k);
      assert coins[k := c] - {k} == coins - {k};
    } else {
      assert coins[k := c] - {k} == coins;
    }
  }

  lemma {:induction false} BalanceSame(a: map<OutPoint, Coin>, b: map<OutPoint, Coin>)
    requires SameCoins(a, b)
    ensures Balance(a) == Balance(b)
    decreases |a|
  {
    if a == map[] {
      assert b == map[];
    } else {
      var k :| k in a;
      BalanceTake(a, k);
      BalanceTake(b, k);
      BalanceSame(a - {k}, b - {k});
    }
  }

  /** What the first `n` outputs give the wallet. */
  function Credit(w: Wallet, outs: seq<TxOut>, n: nat): nat
    requires n <= |outs|
  {
    if n == 0 then 0 else Credit(w, outs, n - 1) + if w.mine(outs[n - 1].script) then outs[n - 1].value else 0
  }

  /** What the known coins named by the first `n` inputs are worth. */
  function Debit(coins: map<OutPoint, Coin>, ins: seq<TxIn>, n: nat): nat
    requires n <= |ins|
  {
    if n == 0 then 0
    else
      var k := (ins[n - 1].prevTxHash, ins[n - 1].prevTxOutIdx);
      Debit(coins, ins, n - 1) + if k in coins then coins[k].value else 0
  }

  lemma {:induction false} SpendBalance(coins: map<OutPoint, Coin>, ins: seq<TxIn>, n: nat)
    requires n <= |ins| && SpendInputs(coins, ins, n).Returned?
    ensures var c := SpendInputs(coins, ins, n).value;
      Balance(c) == Balance(coins) - Debit(coins, ins, n) && forall k :: k in coins ==> c[k].value == coins[k].value
  {
    if n > 0 {
      SpendBalance(coins, ins, n - 1);
      var c := SpendInputs(coins, ins, n - 1).value;
      var k := (ins[n - 1].prevTxHash, ins[n - 1].prevTxOutIdx);
      if k in c { BalancePut(c, k, c[k].(spent := true)); }
    }
  }

  lemma {:induction false} AddBalance(w: Wallet, coins: map<OutPoint, Coin>, h: Hash, blkHash: Hash, outs: seq<TxOut>, n: nat)
    requires n <= |outs| && AddOutputs(w, coins, h, blkHash, outs, n).Returned?
    ensures Balance(AddOutputs(w, coins, h, blkHash, outs, n).value) == Balance(coins) + Credit(w, outs, n)
  {
    if n > 0 {
      AddBalance(w, coins, h, blkHash, outs, n - 1);
      var c, o := AddOutputs(w, coins, h, blkHash, outs, n - 1).value, outs[n - 1];
      if w.mine(o.script) { BalancePut(c, (h, n - 1), Coin(blkHash, o.value, false, w.spendable(o.script))); }
    }
  }

  /** One transaction moves the balance by what it gives minus the known coins it spends. */
  lemma ProcessBalance(w: Wallet, coins: map<OutPoint, Coin>, h: Hash, blkHash: Hash, tx: Tx)
    requires Process(w, coins, h, blkHash, tx).Returned?
    ensures Balance(Process(w, coins, h, blkHash, tx).value)
            == Balance(coins) + Credit(w, tx.outs, |tx.outs|) - Debit(coins, tx.ins, |tx.ins|)
  {
    hide AddOutputs, SpendInputs;
    SpendBalance(coins, tx.ins, |tx.ins|);
    AddBalance(w, SpendInputs(coins, tx.ins, |tx.ins|).value, h, blkHash, tx.outs, |tx.outs|);
  }

  function TxOf(rec: Record): Tx {
    var r := ParseTx(rec.buf, 0);
    if r.None? then Tx(0, [], [], 0) else r.value.value
  }

  /** What the first `n` saved transactions gave the wallet, minus the known coins each spent when
      it was processed. */
  ghost function LedgerSum(w: Wallet, records: seq<Record>, n: nat): int
    requires n <= |records|
  {
    if n == 0 then 0
    else
      var tx, before := TxOf(records[n - 1]), Load(w, records, n - 1);
      var coins := if before.Returned? then before.value.coins else map[];
      LedgerSum(w, records, n - 1) + Credit(w, tx.outs, |tx.outs|) - Debit(coins, tx.ins, |tx.ins|)
  }

  lemma {:induction false} LoadedBalance(w: Wallet, records: seq<Record>, n: nat)
    requires n <= |records| && Load(w, records, n).Returned?
    ensures Balance(Load(w, records, n).value.coins) == LedgerSum(w, records, n)
  {
    hide Process, ParseTx, Relevant, Credit, Debit;
    if n > 0 {
      LoadedBalance(w, records, n - 1);
      var l, rec := Load(w, records, n - 1).value, records[n - 1];
      ProcessBalance(w, l.coins, rec.txHash, rec.blkHash, ParseTx(rec.buf, 0).value.value);
    }
  }

  /** Conservation: after any run the balance is what the distinct relevant transactions gave the
      wallet minus what they spent of its known coins. */
  lemma RunConserves(w: Wallet, es: seq<Event>, n: nat)
    requires n <= |es| && Run(w, es, n).Returned?
    ensures var db := Run(w, es, n).value;
      && Load(w, db.records, |db.records|).Returned?
      && Balance(db.coins) == LedgerSum(w, db.records, |db.records|)
      && (forall i, j :: 0 <= i < j < |db.records| ==> db.records[i].txHash != db.records[j].txHash)
      && (forall h :: h in db.txs && db.txs[h].relevant <==> exists i :: 0 <= i < |db.records| && db.records[i].txHash == h)
  {
    hide Step, Load, LedgerSum;
    RunRebuilds(w, es, n);
    var db := Run(w, es, n).value;
    var l := Load(w, db.records, |db.records|).value;
    LoadedBalance(w, db.records, |db.records|);
    BalanceSame(l.coins, db.coins);
    DistinctRecords(w, db.records, |db.records|);
    forall h ensures h in l.txs <==> exists i :: 0 <= i < |db.records| && db.records[i].txHash == h {
      LoadedRecords(w, db.records, |db.records|, h);
      var i := FindRecord(db.records, h, 0);
    }
  }

  lemma {:induction false} DistinctRecords(w: Wallet, records: seq<Record>, n: nat)
    requires n <= |records| && Load(w, records, n).Returned?
    ensures forall i, j :: 0 <= i < j < n ==> records[i].txHash != records[j].txHash
  {
    hide Process, ParseTx, Relevant;
    if n > 0 {
      DistinctRecords(w, records, n - 1);
      LoadedRecords(w, records, n - 1, records[n - 1].txHash);
    }
  }

  // ----- the block a coin names -----

  lemma {:induction false} SpendKeepsBlocks(coins: map<OutPoint, Coin>, ins: seq<TxIn>, n: nat)
    requires n <= |ins| && SpendInputs(coins, ins, n).Returned?
    ensures forall k :: k in coins ==> SpendInputs(coins, ins, n).value[k].blkHash == coins[k].blkHash
  {
    if n > 0 { SpendKeepsBlocks(coins, ins, n - 1); }
  }

  lemma ProcessBlocks(w: Wallet, coins: map<OutPoint, Coin>, h: Hash, blkHash: Hash, tx: Tx)
    requires (forall k :: k in coins ==> k.0 != h) && Process(w, coins, h, blkHash, tx).Returned?
    ensures var c := Process(w, coins, h, blkHash, tx).value;
      forall k :: k in c ==> if k in coins then c[k].blkHash == coins[k].blkHash else k.0 == h && c[k].blkHash == blkHash
  {
    hide AddOutputs, SpendInputs;
    SpendKeepsBlocks(coins, tx.ins, |tx.ins|);
    AddOwned(w, SpendInputs(coins, tx.ins, |tx.ins|).value, h, blkHash, tx.outs, |tx.outs|);
  }

  /** A loaded coin names the block of its transaction. */
  lemma {:induction false} LoadedBlocks(w: Wallet, records: seq<Record>, n: nat)
    requires n <= |records| && Load(w, records, n).Returned?
    ensures var l := Load(w, records, n).value;
      forall k :: k in l.coins ==> k.0 in l.txs && l.coins[k].blkHash == l.txs[k.0].blkHash
  {
    hide Process, ParseTx, Relevant;
    if n > 0 {
      LoadedBlocks(w, records, n - 1);
      var l, rec := Load(w, records, n - 1).value, records[n - 1];
      ProcessBlocks(w, l.coins, rec.txHash, rec.blkHash, ParseTx(rec.buf, 0).value.value);
    }
  }

  /** Every coin names the block of its transaction, or none. */
  ghost predicate NamesBlockOrNone(db: Db) {
    forall k :: k in db.coins ==>
      k.0 in db.txs && (db.coins[k].blkHash == db.txs[k.0].blkHash || db.coins[k].blkHash == ZeroHash)
  }

  /** Coins that are there in both name the same block; a new one names its transaction's. */
  ghost predicate BlocksStay(a: Db, b: Db) {
    && (forall k :: k in a.coins ==> k in b.coins && b.coins[k].blkHash == a.coins[k].blkHash)
    && (forall k :: k in b.coins && k !in a.coins ==> k.0 in b.txs && b.coins[k].blkHash == b.txs[k.0].blkHash)
  }

  lemma ConfirmBlocks(w: Wallet, db: Db, blkHash: Hash, h: Hash)
    requires CoinsOwned(db) && NamesBlockOrNone(db) && Confirm(db, blkHash, h).Returned?
    ensures var r := Confirm(db, blkHash, h).value; r.coins == db.coins && NamesBlockOrNone(r) && BlocksStay(db, r)
  {
  }

  lemma RememberBlocks(w: Wallet, db: Db, timestamp: nat, buf: seq<byte>, h: Hash, blkHash: Hash)
    requires CoinsOwned(db) && NamesBlockOrNone(db) && Remember(w, db, false, timestamp, buf, h, blkHash).Returned?
    ensures var r := Remember(w, db, false, timestamp, buf, h, blkHash).value; NamesBlockOrNone(r) && BlocksStay(db, r)
  {
    hide Process, ParseTx, Relevant;
    var tx := ParseTx(buf, 0).value.value;
    ProcessBlocks(w, db.coins, h, blkHash, tx);
    ProcessKeepsCoins(w, db.coins, h, blkHash, tx);
  }

  lemma ProcessKeepsCoins(w: Wallet, coins: map<OutPoint, Coin>, h: Hash, blkHash: Hash, tx: Tx)
    requires (forall k :: k in coins ==> k.0 != h) && Process(w, coins, h, blkHash, tx).Returned?
    ensures forall k :: k in coins ==> k in Process(w, coins, h, blkHash, tx).value
  {
    hide AddOutputs, SpendInputs;
    AddOwned(w, SpendInputs(coins, tx.ins, |tx.ins|).value, h, blkHash, tx.outs, |tx.outs|);
  }

  /** No step but a restart changes the block a coin names; after a restart every coin names its
      transaction's. */
  lemma StepBlocks(w: Wallet, db: Db, e: Event)
    requires Valid(w, db) && NamesBlockOrNone(db) && Step(w, db, e).Returned?
    ensures var r := Step(w, db, e).value;
      && NamesBlockOrNone(r) && (!e.Restart? ==> BlocksStay(db, r))
      && (e.Restart? ==> forall k :: k in r.coins ==> k.0 in r.txs && r.coins[k].blkHash == r.txs[k.0].blkHash)
  {
    hide Load, Mirrors, Remember, Confirm;
    match e
    case Restart => LoadedBlocks(w, db.records, |db.records|);
    case Crafted(buf, timestamp) => RememberBlocks(w, db, timestamp, buf, w.hash(buf), ZeroHash);
    case Arrives(blkHash, buf, timestamp) =>
      var h := w.hash(buf);
      if blkHash != ZeroHash { ConfirmBlocks(w, db, blkHash, h); }
      if h !in db.txs {
        if blkHash != ZeroHash { ConfirmUnknown(db, blkHash, h); }
        RememberBlocks(w, db, timestamp.value, buf, h, blkHash);
      }
  }

  lemma ConfirmUnknown(db: Db, blkHash: Hash, h: Hash)
    requires h !in db.txs && Confirm(db, blkHash, h).Returned?
    ensures Confirm(db, blkHash, h).value == db
  {
  }

  /** On every run a coin names the block of its transaction, or none. */
  lemma {:induction false} RunNamesBlockOrNone(w: Wallet, es: seq<Event>, n: nat)
    requires n <= |es| && Run(w, es, n).Returned?
    ensures Valid(w, Run(w, es, n).value) && NamesBlockOrNone(Run(w, es, n).value)
  {
    hide Step, Valid, Load, Mirrors;
    RunRebuilds(w, es, n);
    if n > 0 {
      hide NamesBlockOrNone, BlocksStay;
      RunNamesBlockOrNone(w, es, n - 1);
      StepBlocks(w, Run(w, es, n - 1).value, es[n - 1]);
    }
  }

  /** The coin was created, or loaded, by the `m`th event, and no restart came after it. */
  ghost predicate CameWith(w: Wallet, es: seq<Event>, m: nat, n: nat, k: OutPoint)
    requires m < n <= |es|
  {
    var was, came := Run(w, es, m), Run(w, es, m + 1);
    && was.Returned? && came.Returned? && k in came.value.coins
    && (es[m].Restart? || k !in was.value.coins)
    && forall i :: m < i < n ==> !es[i].Restart?
  }

  lemma {:induction false} RunPrefix(w: Wallet, es: seq<Event>, m: nat, n: nat)
    requires m <= n <= |es| && Run(w, es, n).Returned?
    ensures Run(w, es, m).Returned?
  {
    hide Step;
    if m < n { RunPrefix(w, es, m, n - 1); }
  }

  /** Exactly when a coin names a block: after any run it names the block that its transaction had
      when the coin was created or last loaded, and none if it had none then, whatever was confirmed
      since. */
  lemma {:induction false} CoinNamesBlockExactlyWhen(w: Wallet, es: seq<Event>, m: nat, n: nat, k: OutPoint)
    requires m < n <= |es| && Run(w, es, n).Returned? && CameWith(w, es, m, n, k)
    ensures Run(w, es, m + 1).Returned? && k.0 in Run(w, es, m + 1).value.txs && k in Run(w, es, n).value.coins
    ensures Run(w, es, n).value.coins[k].blkHash == Run(w, es, m + 1).value.txs[k.0].blkHash
  {
    hide Step, Valid;
    RunPrefix(w, es, n - 1, n);
    RunNamesBlockOrNone(w, es, n - 1);
    StepBlocks(w, Run(w, es, n - 1).value, es[n - 1]);
    if m + 1 < n {
      assert CameWith(w, es, m, n - 1, k);
      CoinNamesBlockExactlyWhen(w, es, m, n - 1, k);
    }
  }

  /** So the coins of a transaction that is confirmed after it was remembered name no block, and are
      not spent, until a restart, which makes them name it. */
  lemma ConfirmedCoinWaitsForRestart(w: Wallet, es: seq<Event>, m: nat, n: nat, k: OutPoint)
    requires m < n <= |es| && Run(w, es, n).Returned? && CameWith(w, es, m, n, k)
    requires var came := Run(w, es, m + 1);
      came.Returned? && k.0 in came.value.txs && came.value.txs[k.0].blkHash == ZeroHash
    ensures var r := Run(w, es, n).value;
      && k in r.coins && r.coins[k].blkHash == ZeroHash && k.0 in r.txs
      && Step(w, r, Restart).Returned?
      && var l := Step(w, r, Restart).value; k in l.coins && l.coins[k].blkHash == r.txs[k.0].blkHash
  {
    hide Run, Load, SameCoin;
    CoinNamesBlockExactlyWhen(w, es, m, n, k);
    RunNamesBlockOrNone(w, es, n);
    var r := Run(w, es, n).value;
    StepKeeps(w, r, Restart);
    StepBlocks(w, r, Restart);
  }

  // ----- the block a transaction has -----

  /** A transaction that arrives in a block and concerns the wallet has that block afterwards, whether
      it was known before or not; a new one has the time it came with too. No other is touched. */
  lemma ArrivalConfirms(w: Wallet, db: Db, blkHash: Hash, buf: seq<byte>, timestamp: Outcome<nat>)
    requires Valid(w, db) && HandleTx(w, db, blkHash, buf, timestamp).Returned?
    ensures var r, h := HandleTx(w, db, blkHash, buf, timestamp).value, w.hash(buf);
      && (blkHash != ZeroHash && h in r.txs && r.txs[h].relevant ==> r.txs[h].blkHash == blkHash)
      && (h in db.txs && db.txs[h].relevant ==> h in r.txs && r.txs[h].relevant)
      && (h !in db.txs ==>
            && h in r.txs && r.txs[h].blkHash == blkHash && timestamp.Returned? && r.txs[h].timestamp == timestamp.value)
      && (forall x :: x != h ==> (x in r.txs <==> x in db.txs) && (x in r.txs ==> r.txs[x] == db.txs[x]))
  {
    hide Valid, Confirm, Process, ParseTx, Relevant;
    if blkHash != ZeroHash {
      var i := ConfirmExact(w, db, blkHash, w.hash(buf));
    }
  }

  ghost predicate HasBlock(db: Db, h: Hash, b: Hash) {
    h in db.txs && db.txs[h].relevant && db.txs[h].blkHash == b
  }

  /** No step takes the block of a relevant transaction away again. */
  lemma BlockSticks(w: Wallet, db: Db, e: Event, h: Hash, b: Hash)
    requires Valid(w, db) && Step(w, db, e).Returned? && HasBlock(db, h, b) && b != ZeroHash
    ensures HasBlock(Step(w, db, e).value, h, b)
  {
    hide Load, Process, ParseTx, Relevant, SameCoins, CoinsOwned;
    if e.Arrives? && e.blkHash != ZeroHash {
      BlockSticksArrives(w, db, e, h, b);
    }
  }

  lemma BlockSticksArrives(w: Wallet, db: Db, e: Event, h: Hash, b: Hash)
    requires Valid(w, db) && Step(w, db, e).Returned? && HasBlock(db, h, b) && b != ZeroHash
    requires e.Arrives? && e.blkHash != ZeroHash
    ensures HasBlock(Step(w, db, e).value, h, b)
  {
    hide Valid, Remember;
    ArrivalConfirms(w, db, e.blkHash, e.buf, e.timestamp);
    ConfirmKeeps(w, db, e.blkHash, h);
  }

  lemma {:induction false} BlockStaysOverRun(w: Wallet, es: seq<Event>, m: nat, n: nat, h: Hash, b: Hash)
    requires m <= n <= |es| && Run(w, es, n).Returned? && b != ZeroHash
    requires Run(w, es, m).Returned? ==> HasBlock(Run(w, es, m).value, h, b)
    ensures HasBlock(Run(w, es, n).value, h, b)
  {
    hide Step, Valid, HasBlock, Load, Mirrors;
    RunPrefix(w, es, m, n);
    if m < n {
      RunPrefix(w, es, n - 1, n);
      BlockStaysOverRun(w, es, m, n - 1, h, b);
      RunRebuilds(w, es, n - 1);
      BlockSticks(w, Run(w, es, n - 1).value, es[n - 1], h, b);
    }
  }

  /** From a restart on, the coins of a transaction that arrived in a block before it name the block. */
  lemma {:induction false} ConfirmedCoinsNameBlock(w: Wallet, es: seq<Event>, a: nat, m: nat, n: nat, k: OutPoint)
    requires a < m < n <= |es| && Run(w, es, n).Returned?
    requires es[a].Arrives? && es[a].blkHash != ZeroHash && k.0 == w.hash(es[a].buf) && es[m].Restart?
    requires k in Run(w, es, n).value.coins
    requires var r := Run(w, es, a + 1); r.Returned? ==> k.0 in r.value.txs && r.value.txs[k.0].relevant
    ensures Run(w, es, n).value.coins[k].blkHash == es[a].blkHash
    decreases n
  {
    hide Step, Valid, Load, Mirrors, HandleTx;
    RunPrefix(w, es, a + 1, n);
    RunPrefix(w, es, a, a + 1);
    RunPrefix(w, es, n - 1, n);
    RunRebuilds(w, es, a);
    StepIsHandle(w, Run(w, es, a).value, es[a]);
    ArrivalConfirms(w, Run(w, es, a).value, es[a].blkHash, es[a].buf, es[a].timestamp);
    BlockStaysOverRun(w, es, a + 1, n, k.0, es[a].blkHash);
    RunNamesBlockOrNone(w, es, n - 1);
    var was, now := Run(w, es, n - 1).value, Run(w, es, n).value;
    StepBlocks(w, was, es[n - 1]);
    if m + 1 < n && k in was.coins && !es[n - 1].Restart? {
      ConfirmedCoinsNameBlock(w, es, a, m, n - 1, k);
    }
  }

  lemma StepIsHandle(w: Wallet, db: Db, e: Event)
    requires e.Arrives?
    ensures Step(w, db, e) == HandleTx(w, db, e.blkHash, e.buf, e.timestamp)
  {
  }
}
