/**
 core/serialize.c over the buffer of core/buff.h: an array that grows when it is written past its
 end, and a position in it. Each method is proved to print, or to parse, what TxFormat says.
 */
module Serialize {
  import opened Bytes
  import opened Outcomes
  import opened TxFormat

  /** `buff_check_overflow` adds in 64 bits, so it is right exactly when the sum does not wrap, or
      wraps to something past the end all the same. */
  function Overflows(idx: nat, size: nat, len: nat): bool {
    (idx + size) % TWO_64 > len
  }

  lemma OverflowsExact(idx: nat, size: nat, len: nat)
    requires idx <= len < TWO_64 && size < TWO_64
    ensures (Overflows(idx, size, len) <==> idx + size > len) <==> idx + size < TWO_64 || idx + size - TWO_64 > len
  {
  }

  /** No object is larger than this, and so no buffer. */
  const MAX_OBJECT := 0x8000_0000_0000_0000

  /** What may be printed into one buffer, so that growing it stays possible. */
  const MAX_SIZE := 0x1000_0000_0000_0000

  class Buff {
    var base: array<byte>
    var idx: nat
    var grow: bool

    ghost predicate Valid()
      reads this
    {
      idx <= base.Length < MAX_OBJECT && (grow ==> base.Length <= 64 + 2 * idx)
    }

    /** What has been written. */
    ghost function Contents(): seq<byte>
      requires Valid()
      reads this, base
    {
      base[..idx]
    }

    /** `buff_init` on bytes that were received. */
    constructor (bytes: seq<byte>)
      requires |bytes| < MAX_OBJECT
      ensures Valid() && fresh(base) && base[..] == bytes && idx == 0 && !grow
    {
      base := new byte[|bytes|](i requires 0 <= i < |bytes| => bytes[i]);
      idx, grow := 0, false;
    }

    /** `buff_alloc`. */
    constructor Alloc()
      ensures Valid() && fresh(base) && idx == 0 && grow && Contents() == []
    {
      base := new byte[64];
      idx, grow := 0, true;
    }

    /** `buff_resize`: at least doubles. */
    method Resize(size: nat)
      requires idx <= base.Length
      modifies this`base
      ensures base.Length == if old(base.Length) > size then 2 * old(base.Length) else old(base.Length) + size
      ensures fresh(base) && base[..old(base.Length)] == old(base[..])
    {
      var newLen := if base.Length * 2 > base.Length + size then base.Length * 2 else base.Length + size;
      var was := base;
      base := new byte[newLen];
      forall i | 0 <= i < was.Length {
        base[i] := was[i];
      }
    }

    /** `buff_copy_to`: fails exactly when the bytes do not fit and the buffer may not grow. What it
        grows to must be an object. */
    method CopyTo(src: seq<byte>) returns (failed: bool)
      requires Valid() && |src| < MAX_OBJECT
      requires grow && idx + |src| > base.Length ==> 2 * base.Length < MAX_OBJECT && base.Length + |src| < MAX_OBJECT
      modifies this`base, this`idx, base
      ensures Valid() && (base == old(base) || fresh(base))
      ensures failed <==> !grow && old(idx) + |src| > old(base.Length)
      ensures Contents() == old(Contents()) + if failed then [] else src
      ensures !grow ==> base.Length == old(base.Length)
    {
      ghost var was := Contents();
      if Overflows(idx, |src|, base.Length) {
        if !grow {
          return true;
        }
        Resize(|src|);
        assert base[..idx] == was;
      }
      if |src| > 0 {
        forall i | 0 <= i < |src| {
          base[idx + i] := src[i];
        }
        assert base[..idx] == was;
        idx := idx + |src|;
      }
      assert base[..idx] == was + src;
      failed := false;
    }

    /** `buff_copy_from`. */
    method CopyFrom(len: nat) returns (r: Option<seq<byte>>)
      requires Valid() && len < MAX_OBJECT
      modifies this`idx
      ensures Valid()
      ensures match ParseBytes(base[..], old(idx), len)
        case None => r.None? && idx == old(idx)
        case Some(p) => r == Some(p.value) && idx == p.next
    {
      if Overflows(idx, len, base.Length) {
        return None;
      }
      r := Some(base[idx..idx + len]);
      assert base[..][idx..idx + len] == base[idx..idx + len];
      idx := idx + len;
    }

    function SpaceLeft(): nat
      requires Valid()
      reads this
    {
      base.Length - idx
    }

    /** `deserialize_uint8` to `deserialize_uint64`: a number of `n` bytes, least significant first. */
    method ReadLE(n: nat) returns (r: Option<nat>)
      requires Valid() && n <= 8
      modifies this`idx
      ensures Valid()
      ensures match ParseLE(base[..], old(idx), n)
        case None => r.None? && idx == old(idx)
        case Some(p) => r == Some(p.value) && idx == p.next
    {
      var bytes := CopyFrom(n);
      r := if bytes.None? then None else Some(FromLE(bytes.value));
    }

    /** `deserialize_varint`. */
    method ReadVarint() returns (r: Option<nat>)
      requires Valid()
      modifies this`idx
      ensures Valid()
      ensures match ParseVarint(base[..], old(idx))
        case None => r.None?
        case Some(p) => r == Some(p.value) && idx == p.next
    {
      var c := ReadLE(1);
      if c.None? {
        return None;
      }
      OneByte(base[..], old(idx));
      if c.value < 253 {
        r := c;
      } else if c.value == 253 {
        r := ReadLE(2);
      } else if c.value == 254 {
        r := ReadLE(4);
      } else {
        r := ReadLE(8);
      }
    }
  }

  lemma OneByte(bs: seq<byte>, p: nat)
    ensures p < |bs| ==> ParseLE(bs, p, 1) == Some(Parsed(bs[p] as int, p + 1, true))
  {
    if p < |bs| {
      assert bs[p..p + 1] == [bs[p]];
      assert FromLE([bs[p]][1..]) == 0;
    }
  }

  // ----- parsing -----

  method DeserializeIn(buf: Buff) returns (r: Option<TxIn>)
    requires buf.Valid()
    modifies buf`idx
    ensures buf.Valid()
    ensures match ParseIn(buf.base[..], old(buf.idx))
      case None => r.None?
      case Some(p) => r == Some(p.value) && buf.idx == p.next
  {
    hide ParseVarint, ParseLE, ParseBytes;
    Widths();
    var hash := buf.CopyFrom(32);
    if hash.None? { return None; }
    var idx := buf.ReadLE(4);
    if idx.None? { return None; }
    var len := buf.ReadVarint();
    if len.None? { return None; }
    if len.value > buf.SpaceLeft() {
      NoBytes(buf.base[..], buf.idx, len.value);
      return None;
    }
    var script := buf.CopyFrom(len.value);
    if script.None? { return None; }
    var sequence := buf.ReadLE(4);
    if sequence.None? { return None; }
    r := Some(TxIn(hash.value, idx.value, script.value, sequence.value));
  }

  lemma NoBytes(bs: seq<byte>, p: nat, n: nat)
    requires p + n > |bs|
    ensures ParseBytes(bs, p, n).None?
  {
  }

  method DeserializeOut(buf: Buff) returns (r: Option<TxOut>)
    requires buf.Valid()
    modifies buf`idx
    ensures buf.Valid()
    ensures match ParseOut(buf.base[..], old(buf.idx))
      case None => r.None?
      case Some(p) => r == Some(p.value) && buf.idx == p.next
  {
    hide ParseVarint, ParseLE, ParseBytes;
    Widths();
    var value := buf.ReadLE(8);
    if value.None? { return None; }
    var len := buf.ReadVarint();
    if len.None? { return None; }
    if len.value > buf.SpaceLeft() {
      NoBytes(buf.base[..], buf.idx, len.value);
      return None;
    }
    var script := buf.CopyFrom(len.value);
    if script.None? { return None; }
    r := Some(TxOut(value.value, script.value));
  }

  lemma {:induction false} InsStayNone(bs: seq<byte>, p: nat, m: nat, n: nat)
    requires p <= |bs| && m <= n && ParseIns(bs, p, m).None?
    ensures ParseIns(bs, p, n).None?
  {
    if m < n { InsStayNone(bs, p, m, n - 1); }
  }

  lemma {:induction false} OutsStayNone(bs: seq<byte>, p: nat, m: nat, n: nat)
    requires p <= |bs| && m <= n && ParseOuts(bs, p, m).None?
    ensures ParseOuts(bs, p, n).None?
  {
    if m < n { OutsStayNone(bs, p, m, n - 1); }
  }

  lemma {:induction false} TxsStayNone(bs: seq<byte>, p: nat, m: nat, n: nat)
    requires p <= |bs| && m <= n && ParseTxs(bs, p, m).None?
    ensures ParseTxs(bs, p, n).None?
  {
    hide ParseTx;
    if m < n { TxsStayNone(bs, p, m, n - 1); }
  }

  /** The input count, the guard on it, and the input loop of `deserialize_tx`. */
  method DeserializeInputs(buf: Buff) returns (r: Option<seq<TxIn>>)
    requires buf.Valid()
    modifies buf`idx
    ensures buf.Valid()
    ensures match ParseInputs(buf.base[..], old(buf.idx))
      case None => r.None?
      case Some(p) => r == Some(p.value) && buf.idx == p.next
  {
    hide ParseVarint, ParseIn;
    var count := buf.ReadVarint();
    if count.None? || count.value > buf.SpaceLeft() / MIN_IN {
      return None;
    }
    ghost var bs, p := buf.base[..], buf.idx;
    var ins := [];
    for i := 0 to count.value
      invariant buf.Valid() && buf.base[..] == bs
      invariant ParseIns(bs, p, i).Some? && ParseIns(bs, p, i).value.value == ins && ParseIns(bs, p, i).value.next == buf.idx
    {
      var t := DeserializeIn(buf);
      if t.None? {
        InsStayNone(bs, p, i + 1, count.value);
        return None;
      }
      ins := ins + [t.value];
    }
    r := Some(ins);
  }

  /** The output count, the guard on it, and the output loop of `deserialize_tx`. */
  method DeserializeOutputs(buf: Buff) returns (r: Option<seq<TxOut>>)
    requires buf.Valid()
    modifies buf`idx
    ensures buf.Valid()
    ensures match ParseOutputs(buf.base[..], old(buf.idx))
      case None => r.None?
      case Some(p) => r == Some(p.value) && buf.idx == p.next
  {
    hide ParseVarint, ParseOut;
    var count := buf.ReadVarint();
    if count.None? || count.value > buf.SpaceLeft() / MIN_OUT {
      return None;
    }
    ghost var bs, p := buf.base[..], buf.idx;
    var outs := [];
    for i := 0 to count.value
      invariant buf.Valid() && buf.base[..] == bs
      invariant ParseOuts(bs, p, i).Some? && ParseOuts(bs, p, i).value.value == outs && ParseOuts(bs, p, i).value.next == buf.idx
    {
      var t := DeserializeOut(buf);
      if t.None? {
        OutsStayNone(bs, p, i + 1, count.value);
        return None;
      }
      outs := outs + [t.value];
    }
    r := Some(outs);
  }

  /** `deserialize_tx`. */
  method DeserializeTx(buf: Buff) returns (r: Option<Tx>)
    requires buf.Valid()
    modifies buf`idx
    ensures buf.Valid()
    ensures match ParseTx(buf.base[..], old(buf.idx))
      case None => r.None?
      case Some(p) => r == Some(p.value) && buf.idx == p.next
  {
    hide ParseInputs, ParseOutputs, ParseLE;
    Widths();
    var version := buf.ReadLE(4);
    if version.None? { return None; }
    var ins := DeserializeInputs(buf);
    if ins.None? { return None; }
    var outs := DeserializeOutputs(buf);
    if outs.None? { return None; }
    var lockTime := buf.ReadLE(4);
    if lockTime.None? { return None; }
    r := Some(Tx(version.value, ins.value, outs.value, lockTime.value));
  }

  /** `deserialize_block`. */
  method DeserializeBlock(buf: Buff) returns (r: Option<Block>)
    requires buf.Valid() && buf.idx == 0
    modifies buf`idx
    ensures buf.Valid()
    ensures match ParseBlock(buf.base[..])
      case None => r.None?
      case Some(p) => r == Some(p.value)
  {
    hide ParseVarint, ParseTx, ParseBytes;
    var header := buf.CopyFrom(HEADER_SIZE);
    if header.None? { return None; }
    var count := buf.ReadVarint();
    if count.None? || count.value > buf.SpaceLeft() / MIN_TX {
      return None;
    }
    ghost var bs, p := buf.base[..], buf.idx;
    var txs := [];
    for i := 0 to count.value
      invariant buf.Valid() && buf.base[..] == bs
      invariant ParseTxs(bs, p, i).Some? && ParseTxs(bs, p, i).value.value == txs && ParseTxs(bs, p, i).value.next == buf.idx
    {
      var t := DeserializeTx(buf);
      if t.None? {
        TxsStayNone(bs, p, i + 1, count.value);
        return None;
      }
      txs := txs + [t.value];
    }
    if buf.SpaceLeft() != 0 {
      return None;
    }
    r := Some(Block(header.value, txs));
  }

  // ----- printing -----

  /** After `printed` was written to a buffer that held `was`: it failed exactly if it does not fit
      and the buffer may not grow, and else it is there. */
  ghost predicate Written(buf: Buff, was: seq<byte>, cap: nat, printed: seq<byte>, failed: bool)
    reads buf, buf.base
  {
    && buf.Valid()
    && (!failed ==> buf.Contents() == was + printed)
    && (failed ==> !buf.grow && |buf.Contents()| <= |was| + |printed|)
    && (!buf.grow ==> buf.base.Length == cap && (failed <==> |was| + |printed| > cap))
  }

  /** One more piece; `serialize_tx` goes on after a piece that failed. */
  method Put(buf: Buff, src: seq<byte>, failed: bool, ghost was: seq<byte>, ghost cap: nat, ghost printed: seq<byte>)
    returns (f: bool)
    requires Written(buf, was, cap, printed, failed) && |was| + |printed| + |src| < MAX_SIZE
    modifies buf`base, buf`idx, buf.base
    ensures Written(buf, was, cap, printed + src, f) && (buf.base == old(buf.base) || fresh(buf.base))
    ensures !failed && f ==> buf.Contents() == was + printed
  {
    f := buf.CopyTo(src);
    assert f && !failed ==> was + printed + [] == was + printed;
    f := failed || f;
    assert !f ==> was + printed + src == was + (printed + src);
  }

  /** A prefix byte and the number after it; the prefix stays if the number does not fit. */
  method PutPrefixed(buf: Buff, prefix: byte, number: seq<byte>, failed: bool, ghost was: seq<byte>, ghost cap: nat,
                     ghost printed: seq<byte>)
    returns (f: bool)
    requires Written(buf, was, cap, printed, failed) && |was| + |printed| + 1 + |number| < MAX_SIZE
    modifies buf`base, buf`idx, buf.base
    ensures Written(buf, was, cap, printed + ([prefix] + number), f) && (buf.base == old(buf.base) || fresh(buf.base))
    ensures !failed && f && |was| + |printed| < cap ==> buf.Contents() == was + (printed + [prefix])
  {
    var g := buf.CopyTo([prefix]);
    f := failed || g;
    assert !f ==> was + printed + [prefix] == was + (printed + [prefix]);
    if g {
      return;
    }
    f := Put(buf, number, f, was, cap, printed + [prefix]);
    assert printed + [prefix] + number == printed + ([prefix] + number);
  }

  /** `serialize_varint`. */
  method SerializeVarint(buf: Buff, v: uint64, failed: bool, ghost was: seq<byte>, ghost cap: nat, ghost printed: seq<byte>)
    returns (f: bool)
    requires Written(buf, was, cap, printed, failed) && |was| + |printed| + |PrintVarint(v)| < MAX_SIZE
    modifies buf`base, buf`idx, buf.base
    ensures Written(buf, was, cap, printed + PrintVarint(v), f) && (buf.base == old(buf.base) || fresh(buf.base))
    ensures !failed && f && v >= 253 && |was| + |printed| < cap ==> buf.Contents() == was + (printed + [PrintVarint(v)[0]])
  {
    hide Written, ToLE;
    if v < 253 {
      f := Put(buf, [v], failed, was, cap, printed);
    } else if v < 0x1_0000 {
      f := PutPrefixed(buf, 253, ToLE(v, 2), failed, was, cap, printed);
    } else {
      f := PutPrefixed(buf, 254, ToLE(v % TWO_32, 4), failed, was, cap, printed);
    }
  }

  method SerializeIn(buf: Buff, t: TxIn, failed: bool, ghost was: seq<byte>, ghost cap: nat, ghost printed: seq<byte>)
    returns (f: bool)
    requires Written(buf, was, cap, printed, failed) && |was| + |printed| + |PrintIn(t)| < MAX_SIZE
    modifies buf`base, buf`idx, buf.base
    ensures Written(buf, was, cap, printed + PrintIn(t), f) && (buf.base == old(buf.base) || fresh(buf.base))
  {
    hide Written, PrintVarint, ToLE;
    ghost var p0, i, n, s := t.prevTxHash, ToLE(t.prevTxOutIdx, 4), PrintVarint(|t.script|), ToLE(t.sequence, 4);
    f := Put(buf, t.prevTxHash, failed, was, cap, printed);
    f := Put(buf, ToLE(t.prevTxOutIdx, 4), f, was, cap, printed + p0);
    f := SerializeVarint(buf, |t.script|, f, was, cap, printed + p0 + i);
    f := Put(buf, t.script, f, was, cap, printed + p0 + i + n);
    f := Put(buf, ToLE(t.sequence, 4), f, was, cap, printed + p0 + i + n + t.script);
    assert printed + PrintIn(t) == printed + p0 + i + n + t.script + s;
  }

  method SerializeOut(buf: Buff, t: TxOut, failed: bool, ghost was: seq<byte>, ghost cap: nat, ghost printed: seq<byte>)
    returns (f: bool)
    requires Written(buf, was, cap, printed, failed) && |was| + |printed| + |PrintOut(t)| < MAX_SIZE
    modifies buf`base, buf`idx, buf.base
    ensures Written(buf, was, cap, printed + PrintOut(t), f) && (buf.base == old(buf.base) || fresh(buf.base))
  {
    hide Written, PrintVarint, ToLE;
    ghost var v, n := ToLE(t.value, 8), PrintVarint(|t.script|);
    f := Put(buf, ToLE(t.value, 8), failed, was, cap, printed);
    f := SerializeVarint(buf, |t.script|, f, was, cap, printed + v);
    f := Put(buf, t.script, f, was, cap, printed + v + n);
    assert printed + PrintOut(t) == printed + v + n + t.script;
  }

  lemma {:induction false} InsGrow(ts: seq<TxIn>, m: nat, n: nat)
    requires m <= n <= |ts|
    ensures |PrintIns(ts, m)| <= |PrintIns(ts, n)|
  {
    if m < n { InsGrow(ts, m, n - 1); }
  }

  lemma {:induction false} OutsGrow(ts: seq<TxOut>, m: nat, n: nat)
    requires m <= n <= |ts|
    ensures |PrintOuts(ts, m)| <= |PrintOuts(ts, n)|
  {
    if m < n { OutsGrow(ts, m, n - 1); }
  }

  method SerializeInputs(buf: Buff, ts: seq<TxIn>, failed: bool, ghost was: seq<byte>, ghost cap: nat, ghost printed: seq<byte>)
    returns (f: bool)
    requires Written(buf, was, cap, printed, failed) && |was| + |printed| + |PrintInputs(ts)| < MAX_SIZE
    modifies buf`base, buf`idx, buf.base
    ensures Written(buf, was, cap, printed + PrintInputs(ts), f) && (buf.base == old(buf.base) || fresh(buf.base))
  {
    hide Written, PrintVarint, PrintIn;
    f := SerializeVarint(buf, |ts|, failed, was, cap, printed);
    ghost var pre := printed + PrintVarint(|ts|);
    assert pre + PrintIns(ts, 0) == pre;
    for i := 0 to |ts|
      invariant Written(buf, was, cap, pre + PrintIns(ts, i), f) && (buf.base == old(buf.base) || fresh(buf.base))
    {
      InsGrow(ts, i + 1, |ts|);
      f := SerializeIn(buf, ts[i], f, was, cap, pre + PrintIns(ts, i));
      assert pre + PrintIns(ts, i) + PrintIn(ts[i]) == pre + PrintIns(ts, i + 1);
    }
    assert pre + PrintIns(ts, |ts|) == printed + PrintInputs(ts);
  }

  method SerializeOutputs(buf: Buff, ts: seq<TxOut>, failed: bool, ghost was: seq<byte>, ghost cap: nat, ghost printed: seq<byte>)
    returns (f: bool)
    requires Written(buf, was, cap, printed, failed) && |was| + |printed| + |PrintOutputs(ts)| < MAX_SIZE
    modifies buf`base, buf`idx, buf.base
    ensures Written(buf, was, cap, printed + PrintOutputs(ts), f) && (buf.base == old(buf.base) || fresh(buf.base))
  {
    hide Written, PrintVarint, PrintOut;
    f := SerializeVarint(buf, |ts|, failed, was, cap, printed);
    ghost var pre := printed + PrintVarint(|ts|);
    assert pre + PrintOuts(ts, 0) == pre;
    for i := 0 to |ts|
      invariant Written(buf, was, cap, pre + PrintOuts(ts, i), f) && (buf.base == old(buf.base) || fresh(buf.base))
    {
      OutsGrow(ts, i + 1, |ts|);
      f := SerializeOut(buf, ts[i], f, was, cap, pre + PrintOuts(ts, i));
      assert pre + PrintOuts(ts, i) + PrintOut(ts[i]) == pre + PrintOuts(ts, i + 1);
    }
    assert pre + PrintOuts(ts, |ts|) == printed + PrintOutputs(ts);
  }

  /** `serialize_tx`: appends the printed transaction, or fails because it does not fit. */
  method SerializeTx(buf: Buff, tx: Tx) returns (failed: bool)
    requires buf.Valid() && buf.idx + |PrintTx(tx)| < MAX_SIZE
    modifies buf`base, buf`idx, buf.base
    ensures buf.Valid() && (failed <==> !buf.grow && old(buf.idx) + |PrintTx(tx)| > old(buf.base.Length))
    ensures !failed ==> buf.Contents() == old(buf.Contents()) + PrintTx(tx)
  {
    hide PrintInputs, PrintOutputs, ToLE;
    ghost var was, cap := buf.Contents(), buf.base.Length;
    ghost var v, ins, outs := ToLE(tx.version, 4), PrintInputs(tx.ins), PrintOutputs(tx.outs);
    failed := Put(buf, ToLE(tx.version, 4), false, was, cap, []);
    failed := SerializeInputs(buf, tx.ins, failed, was, cap, [] + v);
    failed := SerializeOutputs(buf, tx.outs, failed, was, cap, [] + v + ins);
    failed := Put(buf, ToLE(tx.lockTime, 4), failed, was, cap, [] + v + ins + outs);
    assert PrintTx(tx) == [] + v + ins + outs + ToLE(tx.lockTime, 4);
  }

  /** What `peergroup_handle_block` relies on: a transaction parsed from a block and printed into a
      new buffer gives the bytes it had in the block, if they were in the printed form. */
  method Reprint(bs: seq<byte>, p: nat) returns (r: Option<seq<byte>>)
    requires p <= |bs| < MAX_SIZE
    ensures r.None? <==> ParseTx(bs, p).None?
    ensures r.Some? ==> r.value == PrintTx(ParseTx(bs, p).value.value)
    ensures r.Some? ==> (r.value == bs[p..ParseTx(bs, p).value.next] <==> ParseTx(bs, p).value.minimal)
  {
    hide PrintTx, ParseTx;
    var src := new Buff(bs);
    src.idx := p;
    var tx := DeserializeTx(src);
    if tx.None? {
      return None;
    }
    ReprintsExactly(bs, p);
    TxExact(bs, p);
    var buf := new Buff.Alloc();
    var failed := SerializeTx(buf, tx.value);
    r := Some(buf.base[..buf.idx]);
    assert [] + PrintTx(tx.value) == PrintTx(tx.value);
  }
}
