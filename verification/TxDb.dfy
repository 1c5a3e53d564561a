/**
 The transaction database of core/txdb.c in its own form: two tables whose entries the handlers
 change, and the saved records. Each method is proved to compute the function of Ledger for its
 operation.
 */
module TxDb {
  import opened Bytes
  import opened Outcomes
  import opened TxFormat
  import opened Ledger

  class Database {
    const w: Wallet
    var txs: map<Hash, TxEntry>
    var coins: map<OutPoint, Coin>
    /** The records in key order; the next sequence number is their number. */
    var records: seq<Record>

    ghost function View(): Db
      reads this
    {
      Db(txs, coins, records)
    }

    constructor (w: Wallet)
      ensures View() == EmptyDb && this.w == w
    {
      this.w := w;
      txs, coins, records := map[], map[], [];
    }

    /** `txdb_process_tx_entry`. */
    method ProcessTxEntry(h: Hash, blkHash: Hash, tx: Tx) returns (r: Outcome<bool>)
      modifies this`coins
      ensures r.Stopped? <==> Process(w, old(coins), h, blkHash, tx).Stopped?
      ensures r.Returned? ==> coins == Process(w, old(coins), h, blkHash, tx).value
      ensures r.Returned? ==> (r.value <==> Relevant(w, old(coins), tx))
    {
      var relevant := false;
      for i := 0 to |tx.ins|
        invariant SpendInputs(old(coins), tx.ins, i) == Returned(coins)
        invariant relevant <==> exists j :: 0 <= j < i && (tx.ins[j].prevTxHash, tx.ins[j].prevTxOutIdx as nat) in old(coins)
      {
        var k := (tx.ins[i].prevTxHash, tx.ins[i].prevTxOutIdx as nat);
        if k !in coins {
          continue;
        }
        if coins[k].spent {
          SpendStays(old(coins), tx.ins, i + 1, |tx.ins|);
          return Stopped;
        }
        coins := coins[k := coins[k].(spent := true)];
        relevant := true;
      }
      ghost var spent := coins;
      for i := 0 to |tx.outs|
        invariant AddOutputs(w, spent, h, blkHash, tx.outs, i) == Returned(coins)
        invariant relevant <==> SpendsKnown(old(coins), tx.ins) || exists j :: 0 <= j < i && w.mine(tx.outs[j].script)
      {
        var o := tx.outs[i];
        if !w.mine(o.script) {
          continue;
        }
        relevant := true;
        if (h, i) in coins {
          AddStays(w, spent, h, blkHash, tx.outs, i + 1, |tx.outs|);
          return Stopped;
        }
        coins := coins[(h, i) := Coin(blkHash, o.value, false, w.spendable(o.script))];
      }
      r := Returned(relevant);
    }

    /** `txdb_remember_tx` with `txdb_add_to_hashtable` and `txdb_save_tx`. */
    method RememberTx(saved: bool, timestamp: nat, buf: seq<byte>, h: Hash, blkHash: Hash) returns (r: Outcome<()>)
      modifies this
      ensures r.Stopped? <==> Remember(w, old(View()), saved, timestamp, buf, h, blkHash).Stopped?
      ensures r.Returned? ==> View() == Remember(w, old(View()), saved, timestamp, buf, h, blkHash).value
    {
      hide Process, Relevant, ParseTx;
      var tx := ParseTx(buf, 0);
      if tx.None? {
        return Stopped;
      }
      if h in txs {
        return Stopped;
      }
      txs := txs[h := TxEntry(tx.value.value, blkHash, timestamp, false)];
      var relevant := ProcessTxEntry(h, blkHash, tx.value.value);
      if relevant.Stopped? {
        return Stopped;
      }
      txs := txs[h := TxEntry(tx.value.value, blkHash, timestamp, relevant.value)];
      if relevant.value && !saved {
        records := records + [Record(h, blkHash, timestamp, buf)];
      }
      assert txs == old(txs)[h := TxEntry(tx.value.value, blkHash, timestamp, relevant.value)];
      r := Returned(());
    }

    /** `txdb_confirm_one_tx`. */
    method ConfirmOneTx(blkHash: Hash, h: Hash) returns (r: Outcome<()>)
      modifies this
      ensures r.Stopped? <==> Confirm(old(View()), blkHash, h).Stopped?
      ensures r.Returned? ==> View() == Confirm(old(View()), blkHash, h).value
    {
      if blkHash == ZeroHash || h == ZeroHash {
        return Stopped;
      }
      if h !in txs {
        return Returned(());
      }
      if !txs[h].relevant {
        txs := txs - {h};
        return Returned(());
      }
      if txs[h].blkHash != ZeroHash {
        return if txs[h].blkHash == blkHash then Returned(()) else Stopped;
      }
      txs := txs[h := txs[h].(blkHash := blkHash)];
      for i := 0 to |records|
        invariant records == old(records) && txs == old(txs)[h := old(txs)[h].(blkHash := blkHash)]
        invariant FindRecord(records, h, 0) == FindRecord(records, h, i)
      {
        if records[i].txHash != h {
          continue;
        }
        if records[i].blkHash != ZeroHash || records[i].timestamp == 0 {
          return Stopped;
        }
        records := records[i := records[i].(blkHash := blkHash)];
        return Returned(());
      }
      r := Returned(());
    }

    /** `txdb_handle_tx`. */
    method HandleTransaction(blkHash: Hash, buf: seq<byte>, timestamp: Outcome<nat>) returns (r: Outcome<()>)
      modifies this
      ensures r.Stopped? <==> HandleTx(w, old(View()), blkHash, buf, timestamp).Stopped?
      ensures r.Returned? ==> View() == HandleTx(w, old(View()), blkHash, buf, timestamp).value
    {
      hide Confirm, Remember;
      var h := w.hash(buf);
      var known := h in txs;
      if blkHash != ZeroHash {
        var c := ConfirmOneTx(blkHash, h);
        if c.Stopped? {
          return Stopped;
        }
      }
      if known {
        return Returned(());
      }
      if timestamp.Stopped? {
        return Stopped;
      }
      r := RememberTx(false, timestamp.value, buf, h, blkHash);
    }

    /** `txdb_get_balance`: the table is walked in any order. */
    method GetBalance() returns (balance: uint64)
      ensures balance == Balance(coins) % TWO_64
    {
      hide Congruent, Balance;
      balance := 0;
      var rest := coins;
      Same(Balance(coins));
      while rest != map[]
        invariant Congruent(balance + Balance(rest), Balance(coins))
        decreases |rest|
      {
        var k :| k in rest;
        BalanceTake(rest, k);
        WrapSum(balance, Worth(rest[k]), Balance(rest - {k}), Balance(coins));
        if !rest[k].spent {
          balance := (balance + rest[k].value) % TWO_64;
        }
        rest := rest - {k};
      }
      Emptied(balance, Balance(coins));
    }
  }

  ghost predicate Congruent(a: nat, b: nat) {
    a % TWO_64 == b % TWO_64
  }

  lemma Same(a: nat)
    ensures Congruent(a, a)
  {
  }

  lemma WrapSum(a: uint64, b: nat, c: nat, all: nat)
    requires Congruent(a + (b + c), all)
    ensures Congruent((a + b) % TWO_64 + c, all) && (b == 0 ==> Congruent(a + c, all))
  {
    assert (a + b) % TWO_64 == a + b - (a + b) / TWO_64 * TWO_64;
  }

  lemma Emptied(balance: uint64, all: nat)
    ensures Congruent(balance + Balance(map[]), all) ==> balance == all % TWO_64
  {
    assert Balance(map[]) == 0;
  }

  /** `txdb_open`: loads the saved records one by one. */
  method Open(w: Wallet, saved: seq<Record>) returns (r: Outcome<Database>)
    ensures r.Stopped? <==> Load(w, saved, |saved|).Stopped?
    ensures r.Returned? ==> fresh(r.value) && r.value.w == w && Load(w, saved, |saved|) == Returned(r.value.View())
  {
    hide Remember;
    var db := new Database(w);
    assert saved[..0] == [];
    for i := 0 to |saved|
      invariant fresh(db) && db.w == w && Load(w, saved, i) == Returned(db.View())
    {
      var rec := saved[i];
      if w.hash(rec.buf) != rec.txHash {
        LoadStays(w, saved, i + 1, |saved|);
        return Stopped;
      }
      var o := db.RememberTx(true, rec.timestamp, rec.buf, rec.txHash, rec.blkHash);
      if o.Stopped? {
        LoadStays(w, saved, i + 1, |saved|);
        return Stopped;
      }
      db.records := saved[..i + 1];
    }
    r := Returned(db);
  }

  lemma {:induction false} SpendStays(coins: map<OutPoint, Coin>, ins: seq<TxIn>, m: nat, n: nat)
    requires m <= n <= |ins| && SpendInputs(coins, ins, m).Stopped?
    ensures SpendInputs(coins, ins, n).Stopped?
  {
    if m < n { SpendStays(coins, ins, m, n - 1); }
  }

  lemma {:induction false} AddStays(w: Wallet, coins: map<OutPoint, Coin>, h: Hash, blkHash: Hash, outs: seq<TxOut>, m: nat, n: nat)
    requires m <= n <= |outs| && AddOutputs(w, coins, h, blkHash, outs, m).Stopped?
    ensures AddOutputs(w, coins, h, blkHash, outs, n).Stopped?
  {
    if m < n { AddStays(w, coins, h, blkHash, outs, m, n - 1); }
  }

  lemma {:induction false} LoadStays(w: Wallet, records: seq<Record>, m: nat, n: nat)
    requires m <= n <= |records| && Load(w, records, m).Stopped?
    ensures Load(w, records, n).Stopped?
  {
    hide Remember;
    if m < n { LoadStays(w, records, m, n - 1); }
  }
}
