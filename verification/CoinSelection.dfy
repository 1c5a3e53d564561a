/**
 Coin selection of core/txdb.c: which coins a payment takes, and when the transaction it crafts
 pays out what it takes in. Amounts are 64 bits wide, as in the source.
 */
module CoinSelection {
  import opened Bytes
  import opened Outcomes
  import opened Ledger

  /** A coin as the table lists it. */
  type Listed = (OutPoint, Coin)

  /** Unspent, spendable, and in a block. */
  predicate Eligible(c: Coin) {
    !c.spent && c.spendable && c.blkHash != ZeroHash
  }

  /** Oldest block first, then by output index; other ties may fall either way. */
  predicate NotAfter(time: Hash -> int, a: Listed, b: Listed) {
    var s, t := time(a.1.blkHash), time(b.1.blkHash);
    s < t || (s == t && a.0.1 <= b.0.1)
  }

  /** Any coins can be listed in this order: of two, one is not after the other, and it is transitive. */
  lemma OrderIsTotal(time: Hash -> int, a: Listed, b: Listed, c: Listed)
    ensures NotAfter(time, a, b) || NotAfter(time, b, a)
    ensures NotAfter(time, a, b) && NotAfter(time, b, c) ==> NotAfter(time, a, c)
  {
  }

  /** What the eligible coins among the first `n` are worth. */
  function Total(list: seq<Listed>, n: nat): nat
    requires n <= |list|
  {
    if n == 0 then 0 else Total(list, n - 1) + if Eligible(list[n - 1].1) then list[n - 1].1.value else 0
  }

  /** The eligible coins among the first `n`. */
  function Picked(list: seq<Listed>, n: nat): (r: seq<OutPoint>)
    requires n <= |list|
    ensures |r| <= n
  {
    if n == 0 then [] else Picked(list, n - 1) + if Eligible(list[n - 1].1) then [list[n - 1].0] else []
  }

  /** Where the selection loop stops, from position `i` on: enough, or the end. The sum is kept in
      64 bits. */
  function StopAt(list: seq<Listed>, need: nat, i: nat): (m: nat)
    requires i <= |list|
    ensures i <= m <= |list|
    decreases |list| - i
  {
    if Total(list, i) % TWO_64 >= need || i == |list| then i else StopAt(list, need, i + 1)
  }

  datatype Choice = Choice(ins: seq<OutPoint>, change: uint64)

  /** `txdb_select_coins`: stops if there are no coins, or if what it took is below the total
      alone; the fee is not part of that test. */
  function Select(list: seq<Listed>, total: uint64, fee: uint64): Outcome<Choice> {
    var m := StopAt(list, (total + fee) % TWO_64, 0);
    var value := Total(list, m) % TWO_64;
    if list == [] || value < total then Stopped
    else Returned(Choice(Picked(list, m), (value - total - fee) % TWO_64))
  }

  /** The outputs of `txdb_craft_tx`: the payments, and the change if there is some. */
  function Outputs(payments: seq<uint64>, change: uint64): seq<uint64> {
    payments + if change > 0 then [change] else []
  }

  function Sum(xs: seq<uint64>, n: nat): nat
    requires n <= |xs|
  {
    if n == 0 then 0 else Sum(xs, n - 1) + xs[n - 1]
  }

  // ----- what is taken -----

  lemma {:induction false} TotalGrows(list: seq<Listed>, m: nat, n: nat)
    requires m <= n <= |list|
    ensures Total(list, m) <= Total(list, n)
  {
    if m < n { TotalGrows(list, m, n - 1); }
  }

  lemma SmallMod(x: nat)
    ensures x < TWO_64 ==> x % TWO_64 == x
  {
  }

  /** Without wrap-around the loop stops at the first position whose coins suffice. */
  lemma {:induction false} StopsAtFirst(list: seq<Listed>, need: nat, i: nat)
    requires i <= |list| && Total(list, |list|) < TWO_64
    ensures var m := StopAt(list, need, i);
      && (Total(list, m) >= need || m == |list|)
      && forall j :: i <= j < m ==> Total(list, j) < need
    decreases |list| - i
  {
    hide Total;
    TotalGrows(list, i, |list|);
    SmallMod(Total(list, i));
    if i < |list| && Total(list, i) < need { StopsAtFirst(list, need, i + 1); }
  }

  /** The inputs are different coins of the list, all eligible, and worth what was counted. */
  lemma {:induction false} PickedAre(list: seq<Listed>, n: nat)
    requires n <= |list| && forall i, j :: 0 <= i < j < |list| ==> list[i].0 != list[j].0
    ensures forall k :: k in Picked(list, n) ==> exists i :: 0 <= i < n && list[i].0 == k && Eligible(list[i].1)
    ensures forall i :: 0 <= i < n && Eligible(list[i].1) ==> list[i].0 in Picked(list, n)
    ensures forall i, j :: 0 <= i < j < |Picked(list, n)| ==> Picked(list, n)[i] != Picked(list, n)[j]
  {
    if n > 0 {
      PickedAre(list, n - 1);
      assert list[n - 1].0 !in Picked(list, n - 1);
    }
  }

  /** A list of every coin of the table, once, oldest first. */
  ghost predicate Lists(time: Hash -> int, list: seq<Listed>, coins: map<OutPoint, Coin>) {
    && (forall i, j :: 0 <= i < j < |list| ==> list[i].0 != list[j].0 && NotAfter(time, list[i], list[j]))
    && (forall i :: 0 <= i < |list| ==> list[i].0 in coins && coins[list[i].0] == list[i].1)
    && (forall k :: k in coins ==> exists i :: 0 <= i < |list| && list[i].0 == k)
  }

  lemma {:induction false} SumConcat(xs: seq<uint64>, x: uint64)
    ensures Sum(xs + [x], |xs| + 1) == Sum(xs, |xs|) + x
  {
    SumPrefix(xs, x, |xs|);
  }

  lemma {:induction false} SumPrefix(xs: seq<uint64>, x: uint64, n: nat)
    requires n <= |xs|
    ensures Sum(xs + [x], n) == Sum(xs, n)
  {
    if n > 0 { SumPrefix(xs, x, n - 1); }
  }

  lemma PickedInTable(time: Hash -> int, coins: map<OutPoint, Coin>, list: seq<Listed>, m: nat)
    requires Lists(time, list, coins) && m <= |list|
    ensures forall k :: k in Picked(list, m) ==> k in coins && Eligible(coins[k])
    ensures forall i, j :: 0 <= i < j < |Picked(list, m)| ==> Picked(list, m)[i] != Picked(list, m)[j]
  {
    hide Picked, NotAfter;
    PickedAre(list, m);
    forall k | k in Picked(list, m) ensures k in coins && Eligible(coins[k]) {
      var i :| 0 <= i < m && list[i].0 == k && Eligible(list[i].1);
    }
  }

  /** The 64-bit change is what is left over exactly if the fee is covered too. */
  lemma ChangeExact(value: uint64, total: uint64, fee: uint64)
    requires total <= value && total + fee < TWO_64
    ensures var change := (value - total - fee) % TWO_64;
      change == if value >= total + fee then value - total - fee else value - total - fee + TWO_64
  {
  }

  lemma OutputsSum(payments: seq<uint64>, change: uint64)
    ensures Sum(Outputs(payments, change), |Outputs(payments, change)|) == Sum(payments, |payments|) + change && Sum(payments, 0) == 0
  {
    SumConcat(payments, change);
    assert payments + [] == payments;
  }

  /** What counts toward a payment: a coin that is unspent, can be signed for and is in a block counts
      with its value, and no other does. */
  lemma TotalCounts(list: seq<Listed>, n: nat)
    requires n < |list|
    ensures var c := list[n].1;
      Total(list, 0) == 0 && Total(list, n + 1) ==
        Total(list, n) + if !c.spent && c.spendable && c.blkHash != ZeroHash then c.value else 0
  {
    assert Total(list, 0) == 0;
  }

  /** The change is paid out as one more output, unless it is zero. */
  lemma ChangeIsPaid(payments: seq<uint64>, change: uint64)
    ensures Outputs(payments, change)[..|payments|] == payments
    ensures Outputs(payments, change)[|payments|..] == if change == 0 then [] else [change]
  {
  }

  /** The coins before the `m`th that count, and no others, are taken: each is unspent, can be signed for
      and is in a block, and none that is left could have been taken as an older one. */
  lemma TakesOldest(time: Hash -> int, coins: map<OutPoint, Coin>, list: seq<Listed>, m: nat)
    requires Lists(time, list, coins) && m <= |list|
    ensures forall i :: 0 <= i < |list| ==>
      (list[i].0 in Picked(list, m) <==>
        i < m && !list[i].1.spent && list[i].1.spendable && list[i].1.blkHash != ZeroHash)
    ensures forall i, j :: 0 <= i < m <= j < |list| ==>
      var s, t := time(list[i].1.blkHash), time(list[j].1.blkHash);
      s < t || (s == t && list[i].0.1 <= list[j].0.1)
  {
    hide Picked;
    PickedAre(list, m);
    forall i | 0 <= i < |list| && list[i].0 in Picked(list, m) ensures i < m && Eligible(list[i].1) {
      var x :| 0 <= x < m && list[x].0 == list[i].0 && Eligible(list[x].1);
      assert x == i;
    }
    forall i, j | 0 <= i < m <= j < |list| ensures NotAfter(time, list[i], list[j]) {
    }
  }

  /** When the amounts stay within 64 bits: selection stops exactly if the eligible coins do not
      cover the payments; what it takes is the shortest sufficient part of the eligible coins,
      oldest first, without repetition and within the room made for one input a coin; and inputs
      equal outputs plus fee exactly if the eligible coins also cover the fee. */
  lemma SelectConserves(time: Hash -> int, coins: map<OutPoint, Coin>, list: seq<Listed>, payments: seq<uint64>,
                        total: uint64, fee: uint64)
    requires Lists(time, list, coins) && Sum(payments, |payments|) == total
    requires total + fee < TWO_64 && Total(list, |list|) < TWO_64
    ensures Select(list, total, fee).Stopped? <==> list == [] || Total(list, |list|) < total
    ensures Select(list, total, fee).Returned? ==>
      var m := StopAt(list, total + fee, 0);
      var c := Select(list, total, fee).value;
      && c.ins == Picked(list, m) && |c.ins| <= |list|
      && (forall j :: 0 <= j < m ==> Total(list, j) < total + fee)
      && (Total(list, m) >= total + fee || m == |list|)
      && (forall k :: k in c.ins ==>
            k in coins && !coins[k].spent && coins[k].spendable && coins[k].blkHash != ZeroHash)
      && (forall i, j :: 0 <= i < j < |c.ins| ==> c.ins[i] != c.ins[j])
      && var outs := Outputs(payments, c.change);
         (Total(list, m) == Sum(outs, |outs|) + fee <==> Total(list, |list|) >= total + fee)
  {
    hide Picked, Lists, Total, StopAt, Outputs, Sum;
    var m := StopAt(list, total + fee, 0);
    StopsAtFirst(list, total + fee, 0);
    TotalGrows(list, m, |list|);
    PickedInTable(time, coins, list, m);
    if Total(list, m) >= total {
      ChangeExact(Total(list, m), total, fee);
      OutputsSum(payments, (Total(list, m) - total - fee) % TWO_64);
    }
  }

  /** The lookups of `txdb_sign_tx_inputs` never miss: every input names an output of a transaction
      that is in the table. */
  lemma SignedInputsAreKnown(w: Wallet, db: Db, time: Hash -> int, list: seq<Listed>, m: nat)
    requires Ledger.Valid(w, db) && Lists(time, list, db.coins) && m <= |list|
    ensures forall k :: k in Picked(list, m) ==> k.0 in db.txs && k.1 < |db.txs[k.0].tx.outs|
  {
    hide Picked, Load, Mirrors, Lists;
    PickedInTable(time, db.coins, list, m);
  }

  /** Coins that cover the payments but not the fee: the change wraps around, and the outputs are
      worth far more than the inputs. */
  lemma FeeNotCovered(coin: Listed, fee: uint64)
    requires Eligible(coin.1) && fee > 0 && coin.1.value + fee < TWO_64
    ensures Select([coin], coin.1.value, fee) == Returned(Choice([coin.0], TWO_64 - fee))
  {
    var list := [coin];
    assert Total(list, 0) == 0 && Total(list, 1) == coin.1.value;
    assert StopAt(list, coin.1.value + fee, 1) == 1;
    assert StopAt(list, coin.1.value + fee, 0) == 1;
    assert Picked(list, 0) == [] && Picked(list, 1) == [coin.0];
  }

  /** The selection loop itself. */
  method SelectCoins(list: seq<Listed>, total: uint64, fee: uint64) returns (r: Outcome<Choice>)
    ensures r == Select(list, total, fee)
  {
    if |list| == 0 {
      return Stopped;
    }
    hide Total, Picked, StopAt, ZeroHash;
    var need := (total + fee) % TWO_64;
    Start(list);
    var i, value, ins := 0, 0, [];
    while value < need && i < |list|
      invariant i <= |list| && value == Total(list, i) % TWO_64 && ins == Picked(list, i)
      invariant StopAt(list, need, 0) == StopAt(list, need, i)
      decreases |list| - i
    {
      var coin := list[i];
      OneMore(list, need, i);
      i := i + 1;
      if coin.1.spent || !coin.1.spendable {
        continue;
      }
      if coin.1.blkHash == ZeroHash {
        continue;
      }
      value := (value + coin.1.value) % TWO_64;
      ins := ins + [coin.0];
    }
    AtStop(list, need, i);
    if value < total {
      return Stopped;
    }
    r := Returned(Choice(ins, (value - total - fee) % TWO_64));
  }

  lemma Start(list: seq<Listed>)
    ensures Total(list, 0) % TWO_64 == 0 && Picked(list, 0) == []
  {
  }

  /** One more coin looked at. */
  lemma OneMore(list: seq<Listed>, need: nat, i: nat)
    requires i < |list| && Total(list, i) % TWO_64 < need
    ensures StopAt(list, need, i) == StopAt(list, need, i + 1)
    ensures var c := list[i].1;
      && Total(list, i + 1) % TWO_64 == (if Eligible(c) then (Total(list, i) % TWO_64 + c.value) % TWO_64 else Total(list, i) % TWO_64)
      && Picked(list, i + 1) == if Eligible(c) then Picked(list, i) + [list[i].0] else Picked(list, i)
  {
    hide Eligible;
    WrapAdd(Total(list, i), list[i].1.value);
  }

  lemma AtStop(list: seq<Listed>, need: nat, i: nat)
    requires i <= |list| && (Total(list, i) % TWO_64 >= need || i == |list|)
    ensures StopAt(list, need, i) == i
  {
  }

  lemma WrapAdd(a: nat, b: nat)
    ensures (a % TWO_64 + b) % TWO_64 == (a + b) % TWO_64
  {
  }
}
