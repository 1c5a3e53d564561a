/**
 The wire format of core/serialize.c on values: what is printed for a transaction, what a parser
 makes of bytes at a position, and when the two are inverse. A parser also says whether every
 length it read was in the form the printer uses.
 */
module TxFormat {
  import opened Bytes
  import opened Outcomes

  datatype TxIn = TxIn(prevTxHash: Bytes32, prevTxOutIdx: uint32, script: seq<byte>, sequence: uint32)

  datatype TxOut = TxOut(value: uint64, script: seq<byte>)

  datatype Tx = Tx(version: uint32, ins: seq<TxIn>, outs: seq<TxOut>, lockTime: uint32)

  /** The smallest input, output and transaction on the wire, as the guards have it. */
  const MIN_IN := 41
  const MIN_OUT := 9
  const MIN_TX := 10
  const HEADER_SIZE := 80

  // ----- printing -----

  /** `serialize_varint`: a value of 2^32 or more loses its high half. */
  function PrintVarint(v: nat): (bs: seq<byte>)
    ensures 1 <= |bs| <= 5
  {
    if v < 253 then [v]
    else if v < 0x1_0000 then [253] + ToLE(v, 2)
    else [254] + ToLE(v % TWO_32, 4)
  }

  function PrintIn(t: TxIn): (bs: seq<byte>)
    ensures |bs| >= MIN_IN + |t.script|
  {
    t.prevTxHash + (ToLE(t.prevTxOutIdx, 4) + (PrintVarint(|t.script|) + (t.script + ToLE(t.sequence, 4))))
  }

  function PrintOut(t: TxOut): (bs: seq<byte>)
    ensures |bs| >= MIN_OUT + |t.script|
  {
    ToLE(t.value, 8) + (PrintVarint(|t.script|) + t.script)
  }

  function PrintIns(ts: seq<TxIn>, n: nat): (bs: seq<byte>)
    requires n <= |ts|
    ensures |bs| >= MIN_IN * n
  {
    if n == 0 then [] else PrintIns(ts, n - 1) + PrintIn(ts[n - 1])
  }

  function PrintOuts(ts: seq<TxOut>, n: nat): (bs: seq<byte>)
    requires n <= |ts|
    ensures |bs| >= MIN_OUT * n
  {
    if n == 0 then [] else PrintOuts(ts, n - 1) + PrintOut(ts[n - 1])
  }

  function PrintInputs(ts: seq<TxIn>): seq<byte> {
    PrintVarint(|ts|) + PrintIns(ts, |ts|)
  }

  function PrintOutputs(ts: seq<TxOut>): seq<byte> {
    PrintVarint(|ts|) + PrintOuts(ts, |ts|)
  }

  function PrintTx(tx: Tx): (bs: seq<byte>)
    ensures |bs| >= MIN_TX
  {
    ToLE(tx.version, 4) + (PrintInputs(tx.ins) + (PrintOutputs(tx.outs) + ToLE(tx.lockTime, 4)))
  }

  function PrintTxs(txs: seq<Tx>, n: nat): (bs: seq<byte>)
    requires n <= |txs|
    ensures |bs| >= MIN_TX * n
  {
    if n == 0 then [] else PrintTxs(txs, n - 1) + PrintTx(txs[n - 1])
  }

  // ----- parsing -----

  /** A value, the position after it, and whether all lengths in it were in the printed form. */
  datatype Parsed<+T> = Parsed(value: T, next: nat, minimal: bool)

  function ParseBytes(bs: seq<byte>, p: nat, n: nat): (r: Option<Parsed<seq<byte>>>)
    ensures r.Some? ==> r.value.next == p + n <= |bs| && |r.value.value| == n
  {
    if p + n > |bs| then None else Some(Parsed(bs[p..p + n], p + n, true))
  }

  function ParseLE(bs: seq<byte>, p: nat, n: nat): (r: Option<Parsed<nat>>)
    ensures r.Some? ==> r.value.next == p + n <= |bs| && r.value.value < Pow256(n)
  {
    if p + n > |bs| then None
    else
      ToFromLE(bs[p..p + n]);
      Some(Parsed(FromLE(bs[p..p + n]), p + n, true))
  }

  /** `deserialize_varint`. */
  function ParseVarint(bs: seq<byte>, p: nat): (r: Option<Parsed<nat>>)
    ensures r.Some? ==> p < r.value.next <= |bs|
  {
    if p >= |bs| then None
    else if bs[p] < 253 then Some(Parsed(bs[p], p + 1, true))
    else
      var r :- ParseLE(bs, p + 1, if bs[p] == 253 then 2 else if bs[p] == 254 then 4 else 8);
      var minimal := if bs[p] == 253 then r.value >= 253 else if bs[p] == 254 then r.value >= 0x1_0000 else false;
      Some(r.(minimal := minimal))
  }

  function ParseIn(bs: seq<byte>, p: nat): (r: Option<Parsed<TxIn>>)
    ensures r.Some? ==> p <= r.value.next <= |bs|
  {
    Widths();
    var hash :- ParseBytes(bs, p, 32);
    var idx :- ParseLE(bs, hash.next, 4);
    var len :- ParseVarint(bs, idx.next);
    var script :- ParseBytes(bs, len.next, len.value);
    var sequence :- ParseLE(bs, script.next, 4);
    Some(Parsed(TxIn(hash.value, idx.value, script.value, sequence.value), sequence.next, len.minimal))
  }

  function ParseOut(bs: seq<byte>, p: nat): (r: Option<Parsed<TxOut>>)
    ensures r.Some? ==> p <= r.value.next <= |bs|
  {
    Widths();
    var value :- ParseLE(bs, p, 8);
    var len :- ParseVarint(bs, value.next);
    var script :- ParseBytes(bs, len.next, len.value);
    Some(Parsed(TxOut(value.value, script.value), script.next, len.minimal))
  }

  function ParseIns(bs: seq<byte>, p: nat, n: nat): (r: Option<Parsed<seq<TxIn>>>)
    requires p <= |bs|
    ensures r.Some? ==> p <= r.value.next <= |bs| && |r.value.value| == n
  {
    if n == 0 then Some(Parsed([], p, true))
    else
      var ts :- ParseIns(bs, p, n - 1);
      var t :- ParseIn(bs, ts.next);
      Some(Parsed(ts.value + [t.value], t.next, ts.minimal && t.minimal))
  }

  function ParseOuts(bs: seq<byte>, p: nat, n: nat): (r: Option<Parsed<seq<TxOut>>>)
    requires p <= |bs|
    ensures r.Some? ==> p <= r.value.next <= |bs| && |r.value.value| == n
  {
    if n == 0 then Some(Parsed([], p, true))
    else
      var ts :- ParseOuts(bs, p, n - 1);
      var t :- ParseOut(bs, ts.next);
      Some(Parsed(ts.value + [t.value], t.next, ts.minimal && t.minimal))
  }

  function ParseInputs(bs: seq<byte>, p: nat): (r: Option<Parsed<seq<TxIn>>>)
    ensures r.Some? ==> p <= r.value.next <= |bs|
  {
    var count :- ParseVarint(bs, p);
    if count.value > (|bs| - count.next) / MIN_IN then None
    else
      var ts :- ParseIns(bs, count.next, count.value);
      Some(ts.(minimal := count.minimal && ts.minimal))
  }

  function ParseOutputs(bs: seq<byte>, p: nat): (r: Option<Parsed<seq<TxOut>>>)
    ensures r.Some? ==> p <= r.value.next <= |bs|
  {
    var count :- ParseVarint(bs, p);
    if count.value > (|bs| - count.next) / MIN_OUT then None
    else
      var ts :- ParseOuts(bs, count.next, count.value);
      Some(ts.(minimal := count.minimal && ts.minimal))
  }

  /** `deserialize_tx`. */
  function ParseTx(bs: seq<byte>, p: nat): (r: Option<Parsed<Tx>>)
    ensures r.Some? ==> p <= r.value.next <= |bs|
  {
    Widths();
    var version :- ParseLE(bs, p, 4);
    var ins :- ParseInputs(bs, version.next);
    var outs :- ParseOutputs(bs, ins.next);
    var lockTime :- ParseLE(bs, outs.next, 4);
    Some(Parsed(Tx(version.value, ins.value, outs.value, lockTime.value), lockTime.next, ins.minimal && outs.minimal))
  }

  function ParseTxs(bs: seq<byte>, p: nat, n: nat): (r: Option<Parsed<seq<Tx>>>)
    requires p <= |bs|
    ensures r.Some? ==> p <= r.value.next <= |bs| && |r.value.value| == n
  {
    if n == 0 then Some(Parsed([], p, true))
    else
      var ts :- ParseTxs(bs, p, n - 1);
      var t :- ParseTx(bs, ts.next);
      Some(Parsed(ts.value + [t.value], t.next, ts.minimal && t.minimal))
  }

  datatype Block = Block(header: seq<byte>, txs: seq<Tx>)

  /** `deserialize_block`: the transactions must end where the bytes end. */
  function ParseBlock(bs: seq<byte>): (r: Option<Parsed<Block>>) {
    var header :- ParseBytes(bs, 0, HEADER_SIZE);
    var count :- ParseVarint(bs, header.next);
    if count.value > (|bs| - count.next) / MIN_TX then None
    else
      var txs :- ParseTxs(bs, count.next, count.value);
      if txs.next != |bs| then None
      else Some(Parsed(Block(header.value, txs.value), txs.next, count.minimal && txs.minimal))
  }

  // ----- bytes at a position -----

  /** `xs` stand in `bs` at `p`. */
  ghost predicate At(bs: seq<byte>, p: nat, xs: seq<byte>) {
    p + |xs| <= |bs| && bs[p..p + |xs|] == xs
  }

  lemma AtConcat(bs: seq<byte>, p: nat, a: seq<byte>, b: seq<byte>)
    ensures At(bs, p, a + b) <==> At(bs, p, a) && At(bs, p + |a|, b)
  {
    var n := |a + b|;
    if p + n <= |bs| {
      var c := bs[p..p + n];
      assert c == bs[p..p + |a|] + bs[p + |a|..p + n];
      assert c == a + b ==> c[..|a|] == a && c[|a|..] == b;
      assert c[..|a|] == bs[p..p + |a|] && c[|a|..] == bs[p + |a|..p + n];
    }
  }

  /** What was read from `p` to `next` is what is printed, if it was minimal; else it was longer. */
  ghost predicate Exact(bs: seq<byte>, p: nat, next: nat, minimal: bool, printed: seq<byte>) {
    && p + |printed| <= next <= |bs|
    && (minimal ==> next == p + |printed| && At(bs, p, printed))
    && (!minimal ==> next > p + |printed|)
  }

  lemma ExactConcat(bs: seq<byte>, p: nat, m: nat, n: nat, a: seq<byte>, b: seq<byte>, aMinimal: bool, bMinimal: bool)
    requires Exact(bs, p, m, aMinimal, a) && Exact(bs, m, n, bMinimal, b)
    ensures Exact(bs, p, n, aMinimal && bMinimal, a + b)
  {
    AtConcat(bs, p, a, b);
  }

  lemma BytesExact(bs: seq<byte>, p: nat, n: nat)
    ensures p + n <= |bs| ==> Exact(bs, p, p + n, true, bs[p..p + n])
  {
  }

  lemma LEExact(bs: seq<byte>, p: nat, n: nat)
    requires ParseLE(bs, p, n).Some?
    ensures var r := ParseLE(bs, p, n).value; Exact(bs, p, r.next, true, ToLE(r.value, n))
  {
    ToFromLE(bs[p..p + n]);
  }

  /** A varint reads back as printed exactly if it is below 2^32. */
  lemma VarintRoundTrip(bs: seq<byte>, p: nat, v: uint64)
    requires At(bs, p, PrintVarint(v))
    ensures ParseVarint(bs, p) == Some(Parsed(v, p + |PrintVarint(v)|, true)) <==> v < 0x1_0000_0000
  {
    Widths();
    if v >= 253 {
      var n := if v < 0x1_0000 then 2 else 4;
      var low := v % TWO_32;
      FromToLE(low, n);
      AtConcat(bs, p, [if n == 2 then 253 else 254], ToLE(low, n));
      assert bs[p..p + 1][0] == bs[p];
    } else {
      assert bs[p..p + 1][0] == bs[p];
    }
  }

  lemma VarintExact(bs: seq<byte>, p: nat)
    requires ParseVarint(bs, p).Some?
    ensures var r := ParseVarint(bs, p).value; Exact(bs, p, r.next, r.minimal, PrintVarint(r.value))
  {
    hide FromLE, ToLE, Pow256;
    Widths();
    var r := ParseVarint(bs, p).value;
    assert bs[p..p + 1] == [bs[p]];
    if bs[p] >= 253 {
      var n := if bs[p] == 253 then 2 else if bs[p] == 254 then 4 else 8;
      ToFromLE(bs[p + 1..p + 1 + n]);
      AtConcat(bs, p, [bs[p]], ToLE(r.value, n));
    }
  }

  // ----- the wire layout -----

  /** A varint on the wire: one byte below 253, or a byte that says how many follow and then the number,
      the lowest byte first; of a number of 2^32 and more the low half. */
  lemma VarintLayout(v: nat)
    ensures var bs := PrintVarint(v);
      if v < 253 then bs == [v]
      else if v < 0x1_0000 then |bs| == 3 && bs[0] == 253 && FromLE(bs[1..]) == v
      else |bs| == 5 && bs[0] == 254 && FromLE(bs[1..]) == v % 0x1_0000_0000
  {
    Widths();
    if v >= 253 {
      var n := if v < 0x1_0000 then 2 else 4;
      FromToLE(v % TWO_32, n);
      assert PrintVarint(v)[1..] == ToLE(v % TWO_32, n);
    }
  }

  /** What the varint reader makes of any bytes: it takes every form, minimal or not, with two, four or
      eight bytes of number, and fails exactly if the bytes end first. */
  lemma VarintReads(bs: seq<byte>, p: nat)
    ensures ParseVarint(bs, p).None? <==>
      p >= |bs| || p + (if bs[p] < 253 then 1 else if bs[p] == 253 then 3 else if bs[p] == 254 then 5 else 9) > |bs|
    ensures ParseVarint(bs, p).Some? ==>
      var r := ParseVarint(bs, p).value;
      if bs[p] < 253 then r.value == bs[p] && r.next == p + 1
      else
        && r.next == (if bs[p] == 253 then p + 3 else if bs[p] == 254 then p + 5 else p + 9)
        && r.value == FromLE(bs[p + 1..r.next])
  {
  }

  /** An input on the wire: the hash, the index, the length of the script, the script, the sequence. */
  lemma InLayout(t: TxIn)
    ensures var bs, n := PrintIn(t), 36 + |PrintVarint(|t.script|)|;
      && |bs| == n + |t.script| + 4
      && bs[..32] == t.prevTxHash && FromLE(bs[32..36]) == t.prevTxOutIdx
      && bs[36..n] == PrintVarint(|t.script|) && bs[n..n + |t.script|] == t.script
      && FromLE(bs[n + |t.script|..]) == t.sequence
  {
    hide PrintVarint, ToLE, FromLE;
    var bs, len := PrintIn(t), PrintVarint(|t.script|);
    var n := 36 + |len|;
    Widths();
    FromToLE(t.prevTxOutIdx, 4);
    FromToLE(t.sequence, 4);
    assert bs == t.prevTxHash + ToLE(t.prevTxOutIdx, 4) + len + t.script + ToLE(t.sequence, 4);
    assert bs[32..36] == ToLE(t.prevTxOutIdx, 4);
    assert bs[n + |t.script|..] == ToLE(t.sequence, 4);
  }

  /** An output on the wire: the value, the length of the script, the script. */
  lemma OutLayout(t: TxOut)
    ensures var bs, n := PrintOut(t), 8 + |PrintVarint(|t.script|)|;
      && |bs| == n + |t.script|
      && FromLE(bs[..8]) == t.value && bs[8..n] == PrintVarint(|t.script|) && bs[n..] == t.script
  {
    hide PrintVarint, ToLE, FromLE;
    var bs := PrintOut(t);
    Widths();
    FromToLE(t.value, 8);
    assert bs == ToLE(t.value, 8) + PrintVarint(|t.script|) + t.script;
    assert bs[..8] == ToLE(t.value, 8);
  }

  /** The inputs stand one after another in their order, and so do the outputs. */
  lemma {:induction false} InsLayout(ts: seq<TxIn>, n: nat, k: nat)
    requires k < n <= |ts|
    ensures At(PrintIns(ts, n), |PrintIns(ts, k)|, PrintIn(ts[k]))
    ensures |PrintIns(ts, 0)| == 0 && |PrintIns(ts, k + 1)| == |PrintIns(ts, k)| + |PrintIn(ts[k])|
  {
    hide PrintIn;
    if k + 1 < n { InsLayout(ts, n - 1, k); }
    assert PrintIns(ts, n)[..|PrintIns(ts, n - 1)|] == PrintIns(ts, n - 1);
  }

  lemma {:induction false} OutsLayout(ts: seq<TxOut>, n: nat, k: nat)
    requires k < n <= |ts|
    ensures At(PrintOuts(ts, n), |PrintOuts(ts, k)|, PrintOut(ts[k]))
    ensures |PrintOuts(ts, 0)| == 0 && |PrintOuts(ts, k + 1)| == |PrintOuts(ts, k)| + |PrintOut(ts[k])|
  {
    hide PrintOut;
    if k + 1 < n { OutsLayout(ts, n - 1, k); }
    assert PrintOuts(ts, n)[..|PrintOuts(ts, n - 1)|] == PrintOuts(ts, n - 1);
  }

  lemma {:induction false} TxsLayout(ts: seq<Tx>, n: nat, k: nat)
    requires k < n <= |ts|
    ensures At(PrintTxs(ts, n), |PrintTxs(ts, k)|, PrintTx(ts[k]))
    ensures |PrintTxs(ts, 0)| == 0 && |PrintTxs(ts, k + 1)| == |PrintTxs(ts, k)| + |PrintTx(ts[k])|
  {
    hide PrintTx;
    if k + 1 < n { TxsLayout(ts, n - 1, k); }
    assert PrintTxs(ts, n)[..|PrintTxs(ts, n - 1)|] == PrintTxs(ts, n - 1);
  }

  /** A transaction on the wire: the version in 4 bytes, the number of inputs and the inputs, the number of
      outputs and the outputs, and the lock time in the last 4 bytes. */
  lemma TxLayout(tx: Tx)
    ensures var bs := PrintTx(tx);
      var a, b := PrintVarint(|tx.ins|), PrintVarint(|tx.outs|);
      var o := 4 + |a| + |PrintIns(tx.ins, |tx.ins|)|;
      && |bs| == o + |b| + |PrintOuts(tx.outs, |tx.outs|)| + 4
      && FromLE(bs[..4]) == tx.version && bs[4..4 + |a|] == a && bs[4 + |a|..o] == PrintIns(tx.ins, |tx.ins|)
      && bs[o..o + |b|] == b && bs[o + |b|..|bs| - 4] == PrintOuts(tx.outs, |tx.outs|)
      && FromLE(bs[|bs| - 4..]) == tx.lockTime
  {
    hide PrintVarint, PrintIns, PrintOuts, ToLE, FromLE;
    var bs := PrintTx(tx);
    Widths();
    FromToLE(tx.version, 4);
    FromToLE(tx.lockTime, 4);
    assert bs == ToLE(tx.version, 4) + PrintVarint(|tx.ins|) + PrintIns(tx.ins, |tx.ins|)
                 + PrintVarint(|tx.outs|) + PrintOuts(tx.outs, |tx.outs|) + ToLE(tx.lockTime, 4);
    assert bs[..4] == ToLE(tx.version, 4);
    assert bs[|bs| - 4..] == ToLE(tx.lockTime, 4);
  }

  lemma InLong(bs: seq<byte>, p: nat)
    ensures ParseIn(bs, p).Some? ==> ParseIn(bs, p).value.next >= p + 41
    ensures ParseOut(bs, p).Some? ==> ParseOut(bs, p).value.next >= p + 9
  {
    hide ParseVarint, FromLE, Pow256;
  }

  lemma TxLong(bs: seq<byte>, p: nat)
    ensures ParseTx(bs, p).Some? ==> ParseTx(bs, p).value.next >= p + 10
  {
    hide ParseVarint, ParseIns, ParseOuts, FromLE, Pow256;
  }

  /** The guards on the counts refuse nothing that could be read: an input has 41 bytes at least, an
      output 9, and a transaction 10. */
  lemma {:induction false} GuardsRefuseNothing(bs: seq<byte>, p: nat, n: nat)
    requires p <= |bs|
    ensures ParseIns(bs, p, n).Some? ==> ParseIns(bs, p, n).value.next >= p + 41 * n
    ensures ParseOuts(bs, p, n).Some? ==> ParseOuts(bs, p, n).value.next >= p + 9 * n
    ensures ParseTxs(bs, p, n).Some? ==> ParseTxs(bs, p, n).value.next >= p + 10 * n
  {
    hide ParseIn, ParseOut, ParseTx;
    if n > 0 {
      GuardsRefuseNothing(bs, p, n - 1);
      if ParseIns(bs, p, n - 1).Some? { InLong(bs, ParseIns(bs, p, n - 1).value.next); }
      if ParseOuts(bs, p, n - 1).Some? { InLong(bs, ParseOuts(bs, p, n - 1).value.next); }
      if ParseTxs(bs, p, n - 1).Some? { TxLong(bs, ParseTxs(bs, p, n - 1).value.next); }
    }
  }

  // ----- printing what was parsed -----

  lemma InExact(bs: seq<byte>, p: nat)
    requires ParseIn(bs, p).Some?
    ensures var r := ParseIn(bs, p).value; Exact(bs, p, r.next, r.minimal, PrintIn(r.value))
  {
    hide Exact, PrintVarint, ParseVarint, FromLE, ToLE, Pow256;
    var r := ParseIn(bs, p).value;
    var t, at := r.value, p + 36;
    BytesExact(bs, p, 32);
    LEExact(bs, p + 32, 4);
    VarintExact(bs, at);
    var len := ParseVarint(bs, at).value;
    BytesExact(bs, len.next, len.value);
    var end := len.next + len.value;
    LEExact(bs, end, 4);
    ExactConcat(bs, len.next, end, r.next, t.script, ToLE(t.sequence, 4), true, true);
    ExactConcat(bs, at, len.next, r.next, PrintVarint(|t.script|), t.script + ToLE(t.sequence, 4), len.minimal, true);
    var tail := PrintVarint(|t.script|) + (t.script + ToLE(t.sequence, 4));
    ExactConcat(bs, p + 32, at, r.next, ToLE(t.prevTxOutIdx, 4), tail, true, len.minimal);
    ExactConcat(bs, p, p + 32, r.next, t.prevTxHash, ToLE(t.prevTxOutIdx, 4) + tail, true, len.minimal);
  }

  lemma OutExact(bs: seq<byte>, p: nat)
    requires ParseOut(bs, p).Some?
    ensures var r := ParseOut(bs, p).value; Exact(bs, p, r.next, r.minimal, PrintOut(r.value))
  {
    hide Exact, PrintVarint, ParseVarint, FromLE, ToLE, Pow256;
    var r := ParseOut(bs, p).value;
    var t, at := r.value, p + 8;
    LEExact(bs, p, 8);
    VarintExact(bs, at);
    var len := ParseVarint(bs, at).value;
    BytesExact(bs, len.next, len.value);
    ExactConcat(bs, at, len.next, r.next, PrintVarint(|t.script|), t.script, len.minimal, true);
    ExactConcat(bs, p, at, r.next, ToLE(t.value, 8), PrintVarint(|t.script|) + t.script, true, len.minimal);
  }

  lemma PrintInsPrefix(a: seq<TxIn>, b: seq<TxIn>, n: nat)
    requires n <= |a| && n <= |b| && forall i :: 0 <= i < n ==> a[i] == b[i]
    ensures PrintIns(a, n) == PrintIns(b, n)
  {
    hide PrintIn;
    if n > 0 { PrintInsPrefix(a, b, n - 1); }
  }

  lemma PrintOutsPrefix(a: seq<TxOut>, b: seq<TxOut>, n: nat)
    requires n <= |a| && n <= |b| && forall i :: 0 <= i < n ==> a[i] == b[i]
    ensures PrintOuts(a, n) == PrintOuts(b, n)
  {
    hide PrintOut;
    if n > 0 { PrintOutsPrefix(a, b, n - 1); }
  }

  lemma PrintTxsPrefix(a: seq<Tx>, b: seq<Tx>, n: nat)
    requires n <= |a| && n <= |b| && forall i :: 0 <= i < n ==> a[i] == b[i]
    ensures PrintTxs(a, n) == PrintTxs(b, n)
  {
    hide PrintTx;
    if n > 0 { PrintTxsPrefix(a, b, n - 1); }
  }

  lemma {:induction false} InsExact(bs: seq<byte>, p: nat, n: nat)
    requires p <= |bs| && ParseIns(bs, p, n).Some?
    ensures var r := ParseIns(bs, p, n).value; Exact(bs, p, r.next, r.minimal, PrintIns(r.value, n))
  {
    hide PrintIn, ParseIn;
    if n > 0 {
      InsExact(bs, p, n - 1);
      var ts, r := ParseIns(bs, p, n - 1).value, ParseIns(bs, p, n).value;
      InExact(bs, ts.next);
      PrintInsPrefix(ts.value, r.value, n - 1);
      var t := ParseIn(bs, ts.next).value;
      ExactConcat(bs, p, ts.next, r.next, PrintIns(ts.value, n - 1), PrintIn(t.value), ts.minimal, t.minimal);
    }
  }

  lemma {:induction false} OutsExact(bs: seq<byte>, p: nat, n: nat)
    requires p <= |bs| && ParseOuts(bs, p, n).Some?
    ensures var r := ParseOuts(bs, p, n).value; Exact(bs, p, r.next, r.minimal, PrintOuts(r.value, n))
  {
    hide PrintOut, ParseOut;
    if n > 0 {
      OutsExact(bs, p, n - 1);
      var ts, r := ParseOuts(bs, p, n - 1).value, ParseOuts(bs, p, n).value;
      OutExact(bs, ts.next);
      PrintOutsPrefix(ts.value, r.value, n - 1);
      var t := ParseOut(bs, ts.next).value;
      ExactConcat(bs, p, ts.next, r.next, PrintOuts(ts.value, n - 1), PrintOut(t.value), ts.minimal, t.minimal);
    }
  }

  lemma InputsExact(bs: seq<byte>, p: nat)
    requires ParseInputs(bs, p).Some?
    ensures var r := ParseInputs(bs, p).value; Exact(bs, p, r.next, r.minimal, PrintInputs(r.value))
  {
    hide ParseVarint, PrintVarint, ParseIns, PrintIns, Exact;
    VarintExact(bs, p);
    var count := ParseVarint(bs, p).value;
    InsExact(bs, count.next, count.value);
    var ts := ParseIns(bs, count.next, count.value).value;
    ExactConcat(bs, p, count.next, ts.next, PrintVarint(count.value), PrintIns(ts.value, count.value), count.minimal, ts.minimal);
  }

  lemma OutputsExact(bs: seq<byte>, p: nat)
    requires ParseOutputs(bs, p).Some?
    ensures var r := ParseOutputs(bs, p).value; Exact(bs, p, r.next, r.minimal, PrintOutputs(r.value))
  {
    hide ParseVarint, PrintVarint, ParseOuts, PrintOuts, Exact;
    VarintExact(bs, p);
    var count := ParseVarint(bs, p).value;
    OutsExact(bs, count.next, count.value);
    var ts := ParseOuts(bs, count.next, count.value).value;
    ExactConcat(bs, p, count.next, ts.next, PrintVarint(count.value), PrintOuts(ts.value, count.value), count.minimal, ts.minimal);
  }

  lemma TxExact(bs: seq<byte>, p: nat)
    requires ParseTx(bs, p).Some?
    ensures var r := ParseTx(bs, p).value; Exact(bs, p, r.next, r.minimal, PrintTx(r.value))
  {
    hide ParseInputs, PrintInputs, ParseOutputs, PrintOutputs, Exact, FromLE, ToLE, Pow256;
    var r := ParseTx(bs, p).value;
    var tx, at := r.value, p + 4;
    LEExact(bs, p, 4);
    InputsExact(bs, at);
    var ins := ParseInputs(bs, at).value;
    OutputsExact(bs, ins.next);
    var outs := ParseOutputs(bs, ins.next).value;
    LEExact(bs, outs.next, 4);
    var lock := ToLE(tx.lockTime, 4);
    ExactConcat(bs, ins.next, outs.next, r.next, PrintOutputs(tx.outs), lock, outs.minimal, true);
    ExactConcat(bs, at, ins.next, r.next, PrintInputs(tx.ins), PrintOutputs(tx.outs) + lock, ins.minimal, outs.minimal);
    ExactConcat(bs, p, at, r.next, ToLE(tx.version, 4), PrintInputs(tx.ins) + (PrintOutputs(tx.outs) + lock), true, r.minimal);
  }

  /** Printing an accepted transaction gives back the bytes it was read from exactly if every
      length in them was in the printed form. */
  lemma ReprintsExactly(bs: seq<byte>, p: nat)
    requires ParseTx(bs, p).Some?
    ensures var r := ParseTx(bs, p).value;
      p <= r.next <= |bs| && (PrintTx(r.value) == bs[p..r.next] <==> r.minimal)
  {
    TxExact(bs, p);
  }

  // ----- parsing what was printed -----

  /** Every length is below 2^32, so that no varint is truncated. */
  ghost predicate Printable(tx: Tx) {
    && |tx.ins| < TWO_32 && |tx.outs| < TWO_32
    && (forall i :: 0 <= i < |tx.ins| ==> |tx.ins[i].script| < TWO_32)
    && (forall i :: 0 <= i < |tx.outs| ==> |tx.outs[i].script| < TWO_32)
  }

  lemma LEAt(bs: seq<byte>, p: nat, v: nat, n: nat)
    requires At(bs, p, ToLE(v, n)) && v < Pow256(n)
    ensures ParseLE(bs, p, n) == Some(Parsed(v, p + n, true))
  {
    FromToLE(v, n);
  }

  lemma InRoundTrip(bs: seq<byte>, p: nat, t: TxIn)
    requires At(bs, p, PrintIn(t)) && |t.script| < TWO_32
    ensures ParseIn(bs, p) == Some(Parsed(t, p + |PrintIn(t)|, true))
  {
    hide At, PrintVarint, ParseVarint, FromLE, ToLE, Pow256, ParseLE;
    Widths();
    var sequence := ToLE(t.sequence, 4);
    var body := PrintVarint(|t.script|) + (t.script + sequence);
    AtConcat(bs, p, t.prevTxHash, ToLE(t.prevTxOutIdx, 4) + body);
    AtConcat(bs, p + 32, ToLE(t.prevTxOutIdx, 4), body);
    AtConcat(bs, p + 36, PrintVarint(|t.script|), t.script + sequence);
    var at := p + 36 + |PrintVarint(|t.script|)|;
    AtConcat(bs, at, t.script, sequence);
    BytesAt(bs, p, t.prevTxHash);
    LEAt(bs, p + 32, t.prevTxOutIdx, 4);
    VarintRoundTrip(bs, p + 36, |t.script|);
    BytesAt(bs, at, t.script);
    LEAt(bs, at + |t.script|, t.sequence, 4);
  }

  lemma BytesAt(bs: seq<byte>, p: nat, xs: seq<byte>)
    requires At(bs, p, xs)
    ensures ParseBytes(bs, p, |xs|) == Some(Parsed(xs, p + |xs|, true))
  {
  }

  lemma OutRoundTrip(bs: seq<byte>, p: nat, t: TxOut)
    requires At(bs, p, PrintOut(t)) && |t.script| < TWO_32
    ensures ParseOut(bs, p) == Some(Parsed(t, p + |PrintOut(t)|, true))
  {
    hide At, PrintVarint, ParseVarint, FromLE, ToLE, Pow256, ParseLE;
    Widths();
    AtConcat(bs, p, ToLE(t.value, 8), PrintVarint(|t.script|) + t.script);
    AtConcat(bs, p + 8, PrintVarint(|t.script|), t.script);
    LEAt(bs, p, t.value, 8);
    VarintRoundTrip(bs, p + 8, |t.script|);
    BytesAt(bs, p + 8 + |PrintVarint(|t.script|)|, t.script);
  }

  lemma {:induction false} InsRoundTrip(bs: seq<byte>, p: nat, ts: seq<TxIn>, n: nat)
    requires p <= |bs| && n <= |ts| && At(bs, p, PrintIns(ts, n)) && forall i :: 0 <= i < n ==> |ts[i].script| < TWO_32
    ensures ParseIns(bs, p, n) == Some(Parsed(ts[..n], p + |PrintIns(ts, n)|, true))
  {
    hide PrintIn, ParseIn, At;
    if n > 0 {
      AtConcat(bs, p, PrintIns(ts, n - 1), PrintIn(ts[n - 1]));
      InsRoundTrip(bs, p, ts, n - 1);
      InRoundTrip(bs, p + |PrintIns(ts, n - 1)|, ts[n - 1]);
      assert ts[..n] == ts[..n - 1] + [ts[n - 1]];
    }
  }

  lemma {:induction false} OutsRoundTrip(bs: seq<byte>, p: nat, ts: seq<TxOut>, n: nat)
    requires p <= |bs| && n <= |ts| && At(bs, p, PrintOuts(ts, n)) && forall i :: 0 <= i < n ==> |ts[i].script| < TWO_32
    ensures ParseOuts(bs, p, n) == Some(Parsed(ts[..n], p + |PrintOuts(ts, n)|, true))
  {
    hide PrintOut, ParseOut, At;
    if n > 0 {
      AtConcat(bs, p, PrintOuts(ts, n - 1), PrintOut(ts[n - 1]));
      OutsRoundTrip(bs, p, ts, n - 1);
      OutRoundTrip(bs, p + |PrintOuts(ts, n - 1)|, ts[n - 1]);
      assert ts[..n] == ts[..n - 1] + [ts[n - 1]];
    }
  }

  lemma AtFits(bs: seq<byte>, p: nat, xs: seq<byte>)
    requires At(bs, p, xs)
    ensures p + |xs| <= |bs|
  {
  }

  /** The guard of 41 bytes an input rejects nothing that was printed. */
  lemma InputsRoundTrip(bs: seq<byte>, p: nat, ts: seq<TxIn>)
    requires At(bs, p, PrintInputs(ts)) && |ts| < TWO_32 && forall i :: 0 <= i < |ts| ==> |ts[i].script| < TWO_32
    ensures ParseInputs(bs, p) == Some(Parsed(ts, p + |PrintInputs(ts)|, true))
  {
    hide ParseVarint, PrintVarint, ParseIns, PrintIns, At;
    AtConcat(bs, p, PrintVarint(|ts|), PrintIns(ts, |ts|));
    VarintRoundTrip(bs, p, |ts|);
    var at := p + |PrintVarint(|ts|)|;
    AtFits(bs, at, PrintIns(ts, |ts|));
    InsRoundTrip(bs, at, ts, |ts|);
    assert ts[..|ts|] == ts;
  }

  /** The guard of 9 bytes an output rejects nothing that was printed. */
  lemma OutputsRoundTrip(bs: seq<byte>, p: nat, ts: seq<TxOut>)
    requires At(bs, p, PrintOutputs(ts)) && |ts| < TWO_32 && forall i :: 0 <= i < |ts| ==> |ts[i].script| < TWO_32
    ensures ParseOutputs(bs, p) == Some(Parsed(ts, p + |PrintOutputs(ts)|, true))
  {
    hide ParseVarint, PrintVarint, ParseOuts, PrintOuts, At;
    AtConcat(bs, p, PrintVarint(|ts|), PrintOuts(ts, |ts|));
    VarintRoundTrip(bs, p, |ts|);
    var at := p + |PrintVarint(|ts|)|;
    AtFits(bs, at, PrintOuts(ts, |ts|));
    OutsRoundTrip(bs, at, ts, |ts|);
    assert ts[..|ts|] == ts;
  }

  /** A printed transaction, wherever it stands, parses to itself and nothing more is read. */
  lemma TxRoundTrip(bs: seq<byte>, p: nat, tx: Tx)
    requires At(bs, p, PrintTx(tx)) && Printable(tx)
    ensures ParseTx(bs, p) == Some(Parsed(tx, p + |PrintTx(tx)|, true))
  {
    hide ParseInputs, PrintInputs, ParseOutputs, PrintOutputs, At, FromLE, ToLE, Pow256, ParseLE;
    Widths();
    var lock := ToLE(tx.lockTime, 4);
    AtConcat(bs, p, ToLE(tx.version, 4), PrintInputs(tx.ins) + (PrintOutputs(tx.outs) + lock));
    AtConcat(bs, p + 4, PrintInputs(tx.ins), PrintOutputs(tx.outs) + lock);
    var at := p + 4 + |PrintInputs(tx.ins)|;
    AtConcat(bs, at, PrintOutputs(tx.outs), lock);
    LEAt(bs, p, tx.version, 4);
    InputsRoundTrip(bs, p + 4, tx.ins);
    OutputsRoundTrip(bs, at, tx.outs);
    LEAt(bs, at + |PrintOutputs(tx.outs)|, tx.lockTime, 4);
  }

  /** Parsing the printed bytes followed by anything gives the transaction back and leaves exactly
      what followed. */
  lemma PrintedTxParses(tx: Tx, rest: seq<byte>)
    requires Printable(tx)
    ensures ParseTx(PrintTx(tx) + rest, 0) == Some(Parsed(tx, |PrintTx(tx)|, true))
  {
    hide PrintTx, ParseTx, Printable;
    assert (PrintTx(tx) + rest)[0..0 + |PrintTx(tx)|] == PrintTx(tx);
    TxRoundTrip(PrintTx(tx) + rest, 0, tx);
  }

  // ----- blocks -----

  lemma {:induction false} TxsExact(bs: seq<byte>, p: nat, n: nat)
    requires p <= |bs| && ParseTxs(bs, p, n).Some?
    ensures var r := ParseTxs(bs, p, n).value; Exact(bs, p, r.next, r.minimal, PrintTxs(r.value, n))
  {
    hide PrintTx, ParseTx;
    if n > 0 {
      TxsExact(bs, p, n - 1);
      var ts, r := ParseTxs(bs, p, n - 1).value, ParseTxs(bs, p, n).value;
      TxExact(bs, ts.next);
      PrintTxsPrefix(ts.value, r.value, n - 1);
      var t := ParseTx(bs, ts.next).value;
      ExactConcat(bs, p, ts.next, r.next, PrintTxs(ts.value, n - 1), PrintTx(t.value), ts.minimal, t.minimal);
    }
  }

  lemma {:induction false} TxsRoundTrip(bs: seq<byte>, p: nat, ts: seq<Tx>, n: nat)
    requires p <= |bs| && n <= |ts| && At(bs, p, PrintTxs(ts, n)) && forall i :: 0 <= i < n ==> Printable(ts[i])
    ensures ParseTxs(bs, p, n) == Some(Parsed(ts[..n], p + |PrintTxs(ts, n)|, true))
  {
    hide PrintTx, ParseTx, At, Printable;
    if n > 0 {
      AtConcat(bs, p, PrintTxs(ts, n - 1), PrintTx(ts[n - 1]));
      TxsRoundTrip(bs, p, ts, n - 1);
      TxRoundTrip(bs, p + |PrintTxs(ts, n - 1)|, ts[n - 1]);
      assert ts[..n] == ts[..n - 1] + [ts[n - 1]];
    }
  }

  /** A block as it is on the wire. */
  function PrintBlock(blk: Block): seq<byte> {
    blk.header + (PrintVarint(|blk.txs|) + PrintTxs(blk.txs, |blk.txs|))
  }

  /** An accepted block is used up to its last byte, and printing it gives it back exactly if
      every length in it was in the printed form. */
  lemma BlockReprintsExactly(bs: seq<byte>)
    requires ParseBlock(bs).Some?
    ensures var r := ParseBlock(bs).value;
      r.next == |bs| && |r.value.header| == 80 && (PrintBlock(r.value) == bs <==> r.minimal)
  {
    hide ParseVarint, PrintVarint, ParseTxs, PrintTxs, Exact;
    var r := ParseBlock(bs).value;
    BytesExact(bs, 0, HEADER_SIZE);
    VarintExact(bs, HEADER_SIZE);
    var count := ParseVarint(bs, HEADER_SIZE).value;
    TxsExact(bs, count.next, count.value);
    var txs := ParseTxs(bs, count.next, count.value).value;
    var n := PrintVarint(count.value);
    ExactConcat(bs, HEADER_SIZE, count.next, |bs|, n, PrintTxs(txs.value, count.value), count.minimal, txs.minimal);
    ExactConcat(bs, 0, HEADER_SIZE, |bs|, r.value.header, n + PrintTxs(txs.value, count.value), true, r.minimal);
    WholeExact(bs, r.minimal, PrintBlock(r.value));
  }

  lemma WholeExact(bs: seq<byte>, minimal: bool, printed: seq<byte>)
    requires Exact(bs, 0, |bs|, minimal, printed)
    ensures printed == bs <==> minimal
  {
    assert bs[0..|bs|] == bs;
  }

  lemma BlockRoundTrip(blk: Block)
    requires |blk.header| == 80 && |blk.txs| < TWO_32 && forall i :: 0 <= i < |blk.txs| ==> Printable(blk.txs[i])
    ensures ParseBlock(PrintBlock(blk)) == Some(Parsed(blk, |PrintBlock(blk)|, true))
  {
    hide ParseVarint, PrintVarint, ParseTxs, PrintTxs, At, Printable;
    var bs := PrintBlock(blk);
    assert At(bs, 0, bs) by { WholeAt(bs); }
    AtConcat(bs, 0, blk.header, PrintVarint(|blk.txs|) + PrintTxs(blk.txs, |blk.txs|));
    AtConcat(bs, HEADER_SIZE, PrintVarint(|blk.txs|), PrintTxs(blk.txs, |blk.txs|));
    BytesAt(bs, 0, blk.header);
    VarintRoundTrip(bs, HEADER_SIZE, |blk.txs|);
    var at := HEADER_SIZE + |PrintVarint(|blk.txs|)|;
    TxsRoundTrip(bs, at, blk.txs, |blk.txs|);
    assert blk.txs[..|blk.txs|] == blk.txs;
  }

  lemma WholeAt(bs: seq<byte>)
    ensures At(bs, 0, bs)
  {
  }
}
