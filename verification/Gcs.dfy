/**
 core/gcs.c: the MSB-first bit reader, the Golomb-Rice decoder, and the BIP158 matcher that
 merges the decoded filter with the sorted query hashes. The matcher is proved equal to naive
 membership on arbitrary bytes, and, on a filter built as BIP158 "Set Construction" says, to
 membership in the encoded set.
 */
module Gcs {
  import opened Bytes
  import opened Outcomes

  const P: nat := 19
  const TWO_P := 0x8_0000
  const M := 784931
  const MAX_ITEMS := 10_000_000
  const MAX_QUOTIENT := 100_000_000

  // ----- what the bytes say -----

  /** Bit `p` of `data`, the most significant bit of a byte first. */
  function Bit(data: seq<byte>, p: nat): (b: int)
    requires p < 8 * |data|
    ensures b == 0 || b == 1
  {
    data[p / 8] / Pow2(7 - p % 8) % 2
  }

  /** The `n` bits from `p` on as a number, the most significant first. */
  function Bits(data: seq<byte>, p: nat, n: nat): (v: nat)
    requires p + n <= 8 * |data|
  {
    if n == 0 then 0 else 2 * Bits(data, p, n - 1) + Bit(data, p + n - 1)
  }

  /** A run of one bits ended by a zero bit, `q` of them already seen: its length and where the
      bits after it start. */
  function Unary(data: seq<byte>, p: nat, q: nat): (r: Option<(nat, nat)>)
    ensures r.Some? ==> p < r.value.1 <= 8 * |data| && r.value.0 == q + r.value.1 - p - 1
    decreases 8 * |data| - p
  {
    if p >= 8 * |data| then None
    else if Bit(data, p) == 0 then Some((q, p + 1))
    else if q + 1 > MAX_QUOTIENT then None
    else Unary(data, p + 1, q + 1)
  }

  /** A Golomb-Rice coded value at bit `p` and where the next one starts. */
  function Delta(data: seq<byte>, p: nat): (r: Option<(nat, nat)>)
    ensures r.Some? ==> p + P < r.value.1 <= 8 * |data|
  {
    var (q, at) :- Unary(data, p, 0);
    if at + P > 8 * |data| then None else Some((q * TWO_P + Bits(data, at, P), at + P))
  }

  /** The running sums from `sum` on of the values decoded at `p` and after it, up to the first
      failed read. */
  ghost function Sums(data: seq<byte>, p: nat, sum: nat): (s: seq<nat>)
    ensures |s| > 0 && s[0] == sum
    decreases 8 * |data| - p
  {
    match Delta(data, p)
    case None => [sum]
    case Some((v, next)) => [sum] + Sums(data, next, sum + v)
  }

  lemma {:induction false} SumsAscend(data: seq<byte>, p: nat, sum: nat)
    ensures forall x :: x in Sums(data, p, sum) ==> x >= sum
    decreases 8 * |data| - p
  {
    match Delta(data, p)
    case None =>
    case Some((v, next)) => SumsAscend(data, next, sum + v);
  }

  /** No running sum reaches the bits read times 2^19, so none overflows an int64 unless the
      filter has 2^41 bytes. */
  lemma {:induction false} SumsBounded(data: seq<byte>, p: nat, sum: nat)
    requires p <= 8 * |data| && sum <= p * TWO_P
    ensures forall x :: x in Sums(data, p, sum) ==> x <= 8 * |data| * 0x8_0000
    decreases 8 * |data| - p
  {
    match Delta(data, p)
    case None =>
    case Some((v, next)) =>
      var (q, at) := Unary(data, p, 0).value;
      BitsBound(data, at, P);
      assert Pow2(P) == TWO_P by { assert Pow2(10) == 1024; }
      SumsBounded(data, next, sum + v);
  }

  lemma {:induction false} BitsBound(data: seq<byte>, p: nat, n: nat)
    requires p + n <= 8 * |data|
    ensures Bits(data, p, n) < Pow2(n)
  {
    if n > 0 { BitsBound(data, p, n - 1); }
  }

  // ----- the reader -----

  class BitReader {
    const data: seq<byte>
    var bytePos: nat
    var bitPos: int
    var exhausted: bool

    ghost predicate Valid()
      reads this
    {
      && bytePos <= |data| && 0 <= bitPos <= 7
      && (exhausted <==> bytePos == |data|) && (exhausted ==> bitPos == 7)
    }

    /** The number of bits read. */
    ghost function At(): nat
      requires Valid()
      reads this
    {
      8 * bytePos + 7 - bitPos
    }

    constructor (data: seq<byte>)
      ensures Valid() && this.data == data && At() == 0
    {
      this.data := data;
      bytePos, bitPos, exhausted := 0, 7, |data| == 0;
    }

    method ReadBit() returns (bit: int)
      requires Valid()
      modifies this
      ensures Valid()
      ensures old(At()) < 8 * |data| ==> bit == Bit(data, old(At())) && At() == old(At()) + 1
      ensures old(At()) >= 8 * |data| ==> bit == -1 && At() == old(At())
    {
      if exhausted {
        return -1;
      }
      bit := data[bytePos] / Pow2(bitPos) % 2;
      bitPos := bitPos - 1;
      if bitPos < 0 {
        bitPos := 7;
        bytePos := bytePos + 1;
        if bytePos >= |data| {
          exhausted := true;
        }
      }
    }

    method ReadBits(n: nat) returns (val: int)
      requires Valid()
      modifies this
      ensures Valid()
      ensures old(At()) + n <= 8 * |data| ==> val == Bits(data, old(At()), n) && At() == old(At()) + n
      ensures old(At()) + n > 8 * |data| ==> val == -1
    {
      val := 0;
      for i := 0 to n
        invariant Valid() && At() == old(At()) + i <= 8 * |data|
        invariant val == Bits(data, old(At()), i)
      {
        var bit := ReadBit();
        if bit < 0 {
          return -1;
        }
        val := val * 2 + bit;
      }
    }

    /** `bit_reader_read_gr` with the filter's parameter. */
    method ReadDelta() returns (v: int)
      requires Valid()
      modifies this
      ensures Valid()
      ensures match Delta(data, old(At()))
        case None => v == -1
        case Some((value, next)) => v == value && At() == next
    {
      ghost var start := At();
      var quotient := 0;
      while true
        invariant Valid() && At() <= 8 * |data| && start <= At()
        invariant Unary(data, start, 0) == Unary(data, At(), quotient)
        decreases 8 * |data| - At()
      {
        var bit := ReadBit();
        if bit < 0 {
          return -1;
        }
        if bit == 0 {
          break;
        }
        quotient := quotient + 1;
        if quotient > MAX_QUOTIENT {
          return -1;
        }
      }
      var remainder := ReadBits(P);
      if remainder < 0 {
        return -1;
      }
      v := quotient * TWO_P + remainder;
    }
  }

  // ----- CompactSize -----

  /** The number of items, read from the front of a filter, and where the coded values start. */
  function CompactSize(data: seq<byte>): (r: Option<(uint64, nat)>)
    ensures r.Some? ==> r.value.1 <= |data|
  {
    if data == [] then None
    else if data[0] < 253 then Some((data[0], 1))
    else
      var n := if data[0] == 253 then 2 else if data[0] == 254 then 4 else 8;
      if 1 + n > |data| then None
      else
        Widths();
        ToFromLE(data[1..1 + n]);
        Some((FromLE(data[1..1 + n]), 1 + n))
  }

  /** CompactSize as the Bitcoin wire format defines it, each number in its shortest form. */
  function EncodeCompactSize(n: uint64): seq<byte> {
    if n < 253 then [n]
    else if n < 0x1_0000 then [253] + ToLE(n, 2)
    else if n < TWO_32 then [254] + ToLE(n, 4)
    else [255] + ToLE(n, 8)
  }

  lemma CompactSizeRoundTrip(n: uint64, rest: seq<byte>)
    ensures CompactSize(EncodeCompactSize(n) + rest) == Some((n, |EncodeCompactSize(n)|))
  {
    Widths();
    if n >= 253 {
      var w := if n < 0x1_0000 then 2 else if n < TWO_32 then 4 else 8;
      FromToLE(n, w);
      assert (EncodeCompactSize(n) + rest)[1..1 + w] == ToLE(n, w);
    }
  }

  /** Every way to write a count is read, shortest or not: one byte below 253, or 253, 254 or 255 and
      then a number of 2, 4 or 8 bytes, lowest first; a number cut short is refused. */
  lemma CompactSizeExact(w: nat, bs: seq<byte>, rest: seq<byte>)
    requires w == 2 || w == 4 || w == 8
    ensures CompactSize([]) == None
    ensures forall c: byte :: c < 253 ==> CompactSize([c] + rest) == Some((c, 1))
    ensures var first := if w == 2 then 253 else if w == 4 then 254 else 255;
      if |bs| < w then CompactSize([first] + bs) == None
      else CompactSize([first] + bs[..w] + rest) == Some((FromLE(bs[..w]), 1 + w))
  {
    if |bs| >= w {
      var first := if w == 2 then 253 else if w == 4 then 254 else 255;
      assert ([first] + bs[..w] + rest)[1..1 + w] == bs[..w];
    }
  }

  /** `read_compactsize` from position 0. */
  method ReadCompactSize(data: seq<byte>) returns (failed: bool, pos: nat, out: uint64)
    ensures failed <==> CompactSize(data).None?
    ensures !failed ==> CompactSize(data) == Some((out, pos))
  {
    pos, out := 0, 0;
    if pos >= |data| {
      return true, pos, out;
    }
    var c := data[pos];
    pos := pos + 1;
    if c < 253 {
      out := c;
    } else if c == 253 {
      if pos + 2 > |data| { return true, pos, out; }
      FromLE2(data[pos..pos + 2]);
      out := data[pos] + (data[pos + 1] as int) * 0x100;
      pos := pos + 2;
    } else if c == 254 {
      if pos + 4 > |data| { return true, pos, out; }
      FromLE4(data[pos..pos + 4]);
      out := data[pos] + (data[pos + 1] as int) * 0x100 + (data[pos + 2] as int) * 0x1_0000
             + (data[pos + 3] as int) * 0x100_0000;
      pos := pos + 4;
    } else {
      if pos + 8 > |data| { return true, pos, out; }
      var v := 0;
      for i := 0 to 8
        invariant v == FromLE(data[pos..pos + i])
      {
        LEStep(data[pos..pos + i], data[pos + i]);
        assert data[pos..pos + i] + [data[pos + i]] == data[pos..pos + i + 1];
        v := v + data[pos + i] * Pow256(i);
      }
      Widths();
      ToFromLE(data[pos..pos + 8]);
      out := v;
      pos := pos + 8;
    }
    failed := false;
  }

  lemma Scale(b: byte, p: nat)
    ensures b * (256 * p) == 256 * (b * p)
  {
  }

  lemma {:induction false} LEStep(bs: seq<byte>, b: byte)
    ensures FromLE(bs + [b]) == FromLE(bs) + b * Pow256(|bs|)
  {
    if bs != [] {
      LEStep(bs[1..], b);
      Scale(b, Pow256(|bs| - 1));
      assert (bs + [b])[1..] == bs[1..] + [b];
    } else {
      assert ([b])[1..] == [];
    }
  }

  // ----- sorting the query hashes -----

  ghost predicate Sorted(s: seq<int>) {
    forall i, j :: 0 <= i < j < |s| ==> s[i] <= s[j]
  }

  ghost predicate Permuted(s: seq<int>, t: seq<int>) {
    multiset(s) == multiset(t)
  }

  /** The value at `j - 1` moves up to `j`, and `v` is looked for one place further down. */
  lemma ShiftKeeps(s: seq<int>, j: nat, v: int, was: seq<int>)
    requires 0 < j < |s| && Permuted(s[j := v], was)
    ensures Permuted(s[j := s[j - 1]][j - 1 := v], was)
  {
    assert s[j := v][j := s[j - 1]][j - 1 := v] == s[j := s[j - 1]][j - 1 := v];
  }

  method Sort(a: array<int>)
    modifies a
    ensures Sorted(a[..]) && Permuted(a[..], old(a[..]))
  {
    var i := 1;
    while i < a.Length
      invariant 1 <= i && (i <= a.Length || a.Length == 0) && (a.Length > 0 ==> Sorted(a[..i]))
      invariant Permuted(a[..], old(a[..]))
    {
      Insert(a, i);
      i := i + 1;
    }
  }

  /** One round: puts `a[i]` in its place among the sorted values before it. */
  method Insert(a: array<int>, i: nat)
    requires i < a.Length && Sorted(a[..i])
    modifies a
    ensures Sorted(a[..i + 1]) && Permuted(a[..], old(a[..]))
  {
    hide Permuted;
    var v := a[i];
    var j := i;
    ghost var was := a[..];
    SamePermuted(was, i);
    while j > 0 && a[j - 1] > v
      invariant j <= i
      invariant forall x, y :: 0 <= x < y <= i && x != j && y != j ==> a[x] <= a[y]
      invariant forall x :: j < x <= i ==> v < a[x]
      invariant Permuted(a[..][j := v], was)
    {
      ghost var s := a[..];
      ShiftKeeps(s, j, v, was);
      a[j] := a[j - 1];
      assert a[..] == s[j := s[j - 1]];
      j := j - 1;
    }
    ghost var s := a[..];
    a[j] := v;
    assert a[..] == s[j := v];
  }

  lemma SamePermuted(s: seq<int>, i: nat)
    requires i < |s|
    ensures Permuted(s[i := s[i]], s)
  {
    assert s[i := s[i]] == s;
  }

  // ----- matching -----

  /** `h` mapped to [0, n * M), by the high half of a 64 by 64 bit product. */
  function HashToRange(h: uint64, n: nat): (r: nat)
    ensures n > 0 ==> r < n * M
  {
    if n > 0 then HashInRange(h, n * M); h * (n * M) / TWO_64 else 0
  }

  lemma HashInRange(h: uint64, f: nat)
    requires f > 0
    ensures h * f / TWO_64 < f
  {
    Below(h, TWO_64, f);
    QuotientBelow(h * f, TWO_64, f);
  }

  /** The value is the whole part of the hash over 2^64 times the range: the high half of the product,
      with BIP158's numbers written out. */
  lemma HashToRangeExact(h: uint64, n: nat)
    ensures var r := HashToRange(h, n);
      r * 0x1_0000_0000_0000_0000 <= h * (n * 784931) < (r + 1) * 0x1_0000_0000_0000_0000
  {
    if n > 0 { Quotient(h * (n * M), TWO_64); }
  }

  lemma Quotient(x: nat, t: nat)
    requires t > 0
    ensures x / t * t <= x < (x / t + 1) * t
  {
    assert x == x / t * t + x % t;
  }

  /** The values of hashes come in the order of the hashes. */
  lemma HashToRangeMonotone(a: uint64, b: uint64, n: nat)
    requires a <= b
    ensures HashToRange(a, n) <= HashToRange(b, n)
  {
    if n > 0 {
      var q, r := HashToRange(a, n), HashToRange(b, n);
      HashToRangeExact(a, n);
      HashToRangeExact(b, n);
      NotAbove(a, b, n * M);
      LessFactor(q, TWO_64, r + 1);
    }
  }

  lemma NotAbove(a: nat, b: nat, f: nat)
    requires a <= b
    ensures a * f <= b * f
  {
  }

  lemma Below(h: nat, t: nat, f: nat)
    requires h < t && f > 0
    ensures h * f < t * f
  {
  }

  lemma QuotientBelow(x: nat, t: nat, f: nat)
    requires t > 0 && x < t * f
    ensures x / t < f
  {
    LessFactor(x / t, t, f);
  }

  lemma LessFactor(q: nat, t: nat, f: nat)
    requires t > 0 && q * t < f * t
    ensures q < f
  {
    assert (f - q) * t > 0;
  }

  type Item = seq<byte>

  /** Some query value is a running sum of the filter. */
  ghost predicate Meets(queries: seq<int>, k: nat, sums: seq<nat>) {
    exists i :: k <= i < |queries| && queries[i] in sums
  }

  /** The merge of the two sorted streams. */
  method Merge(br: BitReader, queries: array<int>) returns (found: bool)
    requires br.Valid() && br.At() == 0 && Sorted(queries[..])
    modifies br
    ensures found <==> Meets(queries[..], 0, Sums(br.data, 0, 0))
  {
    var n, qIdx, filterVal := queries.Length, 0, 0;
    while qIdx < n
      invariant br.Valid() && 0 <= qIdx <= n && filterVal >= 0 && br.At() <= 8 * |br.data|
      invariant Meets(queries[..], 0, Sums(br.data, 0, 0)) <==> Meets(queries[..], qIdx, Sums(br.data, br.At(), filterVal))
      decreases n - qIdx + 8 * |br.data| - br.At()
    {
      var target := queries[qIdx];
      ghost var at := br.At();
      SumsAscend(br.data, at, filterVal);
      assert queries[..][qIdx] == target;
      if filterVal == target {
        return true;
      }
      if filterVal < target {
        var delta := br.ReadDelta();
        NextQuery(queries[..], qIdx, br.data, at, filterVal);
        if delta < 0 {
          break;
        }
        filterVal := filterVal + delta;
      } else {
        NextSum(queries[..], qIdx, Sums(br.data, at, filterVal));
        qIdx := qIdx + 1;
      }
    }
    found := false;
  }

  /** A running sum below every query left meets none of them. */
  lemma NextQuery(queries: seq<int>, k: nat, data: seq<byte>, p: nat, sum: nat)
    requires Sorted(queries) && k < |queries| && sum < queries[k]
    ensures match Delta(data, p)
      case None => !Meets(queries, k, Sums(data, p, sum))
      case Some((v, next)) => Meets(queries, k, Sums(data, p, sum)) <==> Meets(queries, k, Sums(data, next, sum + v))
  {
    assert forall i :: k <= i < |queries| ==> queries[i] != sum;
  }

  /** A query below every running sum left meets none of them. */
  lemma NextSum(queries: seq<int>, k: nat, sums: seq<nat>)
    requires k < |queries| && forall x :: x in sums ==> queries[k] < x
    ensures Meets(queries, k, sums) <==> Meets(queries, k + 1, sums)
  {
  }

  /** What the filter says of an item: the value its hash maps to. */
  function ItemValue(sip: (seq<byte>, Item) -> uint64, blockHash: seq<byte>, item: Item, n: nat): nat
    requires |blockHash| == 32
  {
    HashToRange(sip(blockHash[..16], item), n)
  }

  /** The hash is keyed with the first 16 bytes of the block hash, whatever follows them. */
  lemma ItemValueExact(sip: (seq<byte>, Item) -> uint64, key: seq<byte>, rest: seq<byte>, item: Item, n: nat)
    requires |key| == 16 && |rest| == 16
    ensures var r := ItemValue(sip, key + rest, item, n);
      r * 0x1_0000_0000_0000_0000 <= sip(key, item) * (n * 784931) < (r + 1) * 0x1_0000_0000_0000_0000
  {
    assert (key + rest)[..16] == key;
    HashToRangeExact(sip(key, item), n);
  }

  /** Naive membership: the value of some item is 0 or a running sum of the coded deltas. */
  ghost predicate Matches(sip: (seq<byte>, Item) -> uint64, filter: seq<byte>, blockHash: seq<byte>, items: seq<Item>)
    requires |blockHash| == 32
  {
    match CompactSize(filter)
    case None => false
    case Some((n, pos)) =>
      0 < n <= MAX_ITEMS
      && exists i :: 0 <= i < |items| && ItemValue(sip, blockHash, items[i], n) in Sums(filter[pos..], 0, 0)
  }

  /** A filter whose count does not read, is 0 or is above 10,000,000 matches nothing. */
  lemma BadCountMatchesNothing(sip: (seq<byte>, Item) -> uint64, filter: seq<byte>, blockHash: seq<byte>, items: seq<Item>)
    requires |blockHash| == 32 && (CompactSize(filter).Some? ==> CompactSize(filter).value.0 == 0
                                                                 || CompactSize(filter).value.0 > 10_000_000)
    ensures !Matches(sip, filter, blockHash, items)
  {
  }

  /** `gcs_filter_match_any`. */
  method MatchAny(sip: (seq<byte>, Item) -> uint64, filter: seq<byte>, blockHash: seq<byte>, items: seq<Item>)
    returns (found: bool)
    requires |blockHash| == 32
    ensures found <==> Matches(sip, filter, blockHash, items)
  {
    if |filter| == 0 || |items| == 0 {
      return false;
    }
    var failed, pos, n := ReadCompactSize(filter);
    if failed || n > MAX_ITEMS || n == 0 {
      return false;
    }
    var queries := new int[|items|];
    for i := 0 to |items|
      invariant forall k :: 0 <= k < i ==> queries[k] == ItemValue(sip, blockHash, items[k], n)
    {
      queries[i] := HashToRange(sip(blockHash[..16], items[i]), n);
    }
    ghost var hashes := queries[..];
    Sort(queries);
    var br := new BitReader(filter[pos..]);
    found := Merge(br, queries);
    SortedMeets(queries[..], hashes, Sums(filter[pos..], 0, 0));
    assert Matches(sip, filter, blockHash, items) <==> Meets(hashes, 0, Sums(filter[pos..], 0, 0));
  }

  lemma SortedMeets(a: seq<int>, b: seq<int>, sums: seq<nat>)
    requires Permuted(a, b)
    ensures Meets(a, 0, sums) <==> Meets(b, 0, sums)
  {
    if Meets(a, 0, sums) {
      var i :| 0 <= i < |a| && a[i] in sums;
      assert a[i] in multiset(b);
    }
    if Meets(b, 0, sums) {
      var i :| 0 <= i < |b| && b[i] in sums;
      assert b[i] in multiset(a);
    }
  }

  // ----- the encoder of BIP158 -----

  type bit = x: int | 0 <= x < 2

  /** `n` bits of `v`, the most significant first. */
  function Number(v: nat, n: nat): (bits: seq<bit>)
    ensures |bits| == n
  {
    if n == 0 then [] else Number(v / 2, n - 1) + [v % 2]
  }

  function UnaryCode(q: nat): (bits: seq<bit>)
    ensures |bits| == q + 1
  {
    if q == 0 then [0] else [1] + UnaryCode(q - 1)
  }

  /** "Golomb-Rice Coding": the quotient in unary, then the remainder. */
  function GolombRice(v: nat): seq<bit> {
    UnaryCode(v / 0x8_0000) + Number(v % 0x8_0000, 19)
  }

  /** The coded differences of ascending values, from position `i` on. */
  function Deltas(values: seq<nat>, i: nat, last: nat): seq<bit>
    requires Sorted(values) && i <= |values| && (i < |values| ==> last <= values[i])
    decreases |values| - i
  {
    if i == |values| then [] else GolombRice(values[i] - last) + Deltas(values, i + 1, values[i])
  }

  function PaddedBit(bits: seq<bit>, p: nat): bit {
    if p < |bits| then bits[p] else 0
  }

  function PackByte(bits: seq<bit>, p: nat): byte {
    (PaddedBit(bits, p) as int) * 128 + (PaddedBit(bits, p + 1) as int) * 64 + (PaddedBit(bits, p + 2) as int) * 32
    + (PaddedBit(bits, p + 3) as int) * 16 + (PaddedBit(bits, p + 4) as int) * 8 + (PaddedBit(bits, p + 5) as int) * 4
    + (PaddedBit(bits, p + 6) as int) * 2 + PaddedBit(bits, p + 7)
  }

  /** Bits to bytes, the last byte filled up with zero bits. */
  function Pack(bits: seq<bit>): (data: seq<byte>)
    ensures |data| == (|bits| + 7) / 8
  {
    seq((|bits| + 7) / 8, i requires i >= 0 => PackByte(bits, 8 * i))
  }

  /** "Set Construction": the number of items, then their sorted values as coded differences. */
  function Encode(values: seq<nat>): seq<byte>
    requires Sorted(values) && |values| < TWO_64
  {
    EncodeCompactSize(|values|) + Pack(Deltas(values, 0, 0))
  }

  /** `bits` stand in `data` from `p` on. */
  ghost predicate Holds(data: seq<byte>, p: nat, bits: seq<bit>)
    decreases |bits|
  {
    if bits == [] then p <= 8 * |data|
    else p < 8 * |data| && Bit(data, p) == bits[0] && Holds(data, p + 1, bits[1..])
  }

  lemma {:induction false} HoldsConcat(data: seq<byte>, p: nat, a: seq<bit>, b: seq<bit>)
    ensures Holds(data, p, a + b) <==> Holds(data, p, a) && Holds(data, p + |a|, b)
    ensures Holds(data, p, a) ==> p + |a| <= 8 * |data|
    decreases |a|
  {
    if a == [] {
      assert a + b == b;
      HoldsFits(data, p, b);
    } else {
      assert (a + b)[1..] == a[1..] + b;
      HoldsConcat(data, p + 1, a[1..], b);
    }
  }

  lemma {:induction false} HoldsFits(data: seq<byte>, p: nat, bits: seq<bit>)
    ensures Holds(data, p, bits) ==> p + |bits| <= 8 * |data|
    decreases |bits|
  {
    if bits != [] { HoldsFits(data, p + 1, bits[1..]); }
  }

  lemma {:induction false} HoldsEach(data: seq<byte>, bits: seq<bit>, i: nat)
    requires i <= |bits| <= 8 * |data| && forall j :: i <= j < |bits| ==> Bit(data, j) == bits[j]
    ensures Holds(data, i, bits[i..])
    decreases |bits| - i
  {
    if i < |bits| {
      HoldsEach(data, bits, i + 1);
      assert bits[i..][1..] == bits[i + 1..];
    }
  }

  lemma LowBit(b: int, hi: int, c: int)
    requires b == 2 * hi + c && 0 <= c < 2
    ensures b / 2 == hi && b % 2 == c
  {
  }

  lemma ByteBits(c0: int, c1: int, c2: int, c3: int, c4: int, c5: int, c6: int, c7: int)
    requires 0 <= c0 < 2 && 0 <= c1 < 2 && 0 <= c2 < 2 && 0 <= c3 < 2
    requires 0 <= c4 < 2 && 0 <= c5 < 2 && 0 <= c6 < 2 && 0 <= c7 < 2
    ensures var b := c0 * 128 + c1 * 64 + c2 * 32 + c3 * 16 + c4 * 8 + c5 * 4 + c6 * 2 + c7;
      && b / 128 % 2 == c0 && b / 64 % 2 == c1 && b / 32 % 2 == c2 && b / 16 % 2 == c3
      && b / 8 % 2 == c4 && b / 4 % 2 == c5 && b / 2 % 2 == c6 && b / 1 % 2 == c7
  {
    var b1 := c0 * 64 + c1 * 32 + c2 * 16 + c3 * 8 + c4 * 4 + c5 * 2 + c6;
    var b2 := c0 * 32 + c1 * 16 + c2 * 8 + c3 * 4 + c4 * 2 + c5;
    var b3 := c0 * 16 + c1 * 8 + c2 * 4 + c3 * 2 + c4;
    var b4 := c0 * 8 + c1 * 4 + c2 * 2 + c3;
    var b5 := c0 * 4 + c1 * 2 + c2;
    var b6 := c0 * 2 + c1;
    var b := 2 * b1 + c7;
    LowBit(b, b1, c7);
    LowBit(b1, b2, c6);
    LowBit(b2, b3, c5);
    LowBit(b3, b4, c4);
    LowBit(b4, b5, c3);
    LowBit(b5, b6, c2);
    LowBit(b6, c0, c1);
    assert b / 4 == b2;
    assert b / 8 == b3;
    assert b / 16 == b4;
    assert b / 32 == b5;
    assert b / 64 == b6;
    assert b / 128 == c0;
  }

  lemma PackBit(bits: seq<bit>, i: nat, k: nat)
    requires i < |Pack(bits)| && k < 8
    ensures Bit(Pack(bits), 8 * i + k) == PaddedBit(bits, 8 * i + k)
  {
    hide PaddedBit, Pow2, PackByte;
    PackedBit(bits, 8 * i, k);
    assert Pack(bits)[i] == PackByte(bits, 8 * i);
    assert (8 * i + k) / 8 == i && (8 * i + k) % 8 == k;
  }

  lemma PackedBit(bits: seq<bit>, p: nat, k: nat)
    requires k < 8
    ensures PackByte(bits, p) / Pow2(7 - k) % 2 == PaddedBit(bits, p + k)
  {
    hide PaddedBit, Pow2;
    ByteBits(PaddedBit(bits, p), PaddedBit(bits, p + 1), PaddedBit(bits, p + 2), PaddedBit(bits, p + 3),
             PaddedBit(bits, p + 4), PaddedBit(bits, p + 5), PaddedBit(bits, p + 6), PaddedBit(bits, p + 7));
    SmallPowers();
  }

  lemma PackHolds(bits: seq<bit>)
    ensures Holds(Pack(bits), 0, bits)
  {
    forall p | 0 <= p < |bits| ensures Bit(Pack(bits), p) == bits[p] {
      PackBit(bits, p / 8, p % 8);
    }
    HoldsEach(Pack(bits), bits, 0);
    assert bits[0..] == bits;
  }

  lemma SmallPowers()
    ensures Pow2(0) == 1 && Pow2(1) == 2 && Pow2(2) == 4 && Pow2(3) == 8
    ensures Pow2(4) == 16 && Pow2(5) == 32 && Pow2(6) == 64 && Pow2(7) == 128 && Pow2(P) == TWO_P
  {
    assert Pow2(10) == 1024 && Pow2(14) == 16384;
  }

  lemma {:induction false} NumberExact(data: seq<byte>, p: nat, v: nat, n: nat)
    requires p + n <= 8 * |data| && v < Pow2(n)
    ensures Holds(data, p, Number(v, n)) <==> Bits(data, p, n) == v
  {
    hide Bit;
    if n > 0 {
      NumberExact(data, p, v / 2, n - 1);
      HoldsConcat(data, p, Number(v / 2, n - 1), [v % 2]);
      OneBit(data, p + n - 1, v % 2);
      LowBit(v, v / 2, v % 2);
    }
  }

  lemma OneBit(data: seq<byte>, p: nat, b: bit)
    ensures Holds(data, p, [b]) <==> p < 8 * |data| && Bit(data, p) == b
  {
    assert ([b])[1..] == [];
  }

  lemma {:induction false} UnaryExact(data: seq<byte>, p: nat, seen: nat, q: nat)
    ensures Unary(data, p, seen) == Some((seen + q, p + q + 1))
            <==> Holds(data, p, UnaryCode(q)) && (q > 0 ==> seen + q <= MAX_QUOTIENT)
    decreases q
  {
    hide Bit;
    if q == 0 {
      OneBit(data, p, 0);
    } else {
      UnaryExact(data, p + 1, seen + 1, q - 1);
      assert UnaryCode(q)[1..] == UnaryCode(q - 1);
    }
  }

  /** The decoder reads a value exactly when its code stands there and its quotient is within
      the cap. */
  lemma DeltaExact(data: seq<byte>, p: nat, v: nat)
    ensures Delta(data, p) == Some((v, p + |GolombRice(v)|)) <==> Holds(data, p, GolombRice(v)) && v / 0x8_0000 <= 100_000_000
  {
    hide Unary, Bits, Number, Holds, UnaryCode;
    var q := v / TWO_P;
    HoldsConcat(data, p, UnaryCode(q), Number(v % TWO_P, P));
    HoldsFits(data, p + q + 1, Number(v % TWO_P, P));
    UnaryExact(data, p, 0, q);
    SmallPowers();
    if p + q + 1 + P <= 8 * |data| {
      NumberExact(data, p + q + 1, v % TWO_P, P);
      BitsBound(data, p + q + 1, P);
    }
  }

  // ----- the matcher on an encoded set -----

  /** What `Encode` asks of the values: sorted, and each in the range the hashes map to. */
  ghost predicate Encodable(values: seq<nat>) {
    && 1 <= |values| <= 10_000_000 && Sorted(values)
    && forall i :: 0 <= i < |values| ==> values[i] < |values| * 784931
  }

  /** Decoding the code of the values from `i` on finds them one by one; what is left after them
      is shorter than a byte and too short for another value. */
  lemma {:induction false} SumsOfDeltas(data: seq<byte>, p: nat, values: seq<nat>, i: nat, last: nat)
    requires Encodable(values) && i <= |values| && (i < |values| ==> last <= values[i])
    requires Holds(data, p, Deltas(values, i, last)) && 8 * |data| - p - |Deltas(values, i, last)| < 8
    ensures Sums(data, p, last) == [last] + values[i..]
    decreases |values| - i
  {
    hide Delta, Holds, GolombRice, Sorted;
    if i < |values| {
      if i + 1 < |values| { Neighbours(values, i); }
      var v := values[i] - last;
      var code, rest := GolombRice(v), Deltas(values, i + 1, values[i]);
      HoldsConcat(data, p, code, rest);
      QuotientFits(v, |values|);
      DeltaExact(data, p, v);
      SumsOfDeltas(data, p + |code|, values, i + 1, values[i]);
      assert [values[i]] + values[i + 1..] == values[i..];
    } else {
      assert Delta(data, p) == None;
    }
  }

  lemma Neighbours(values: seq<nat>, i: nat)
    requires Sorted(values) && i + 1 < |values|
    ensures values[i] <= values[i + 1]
  {
  }

  /** The cap on quotients never fires for a value in range. */
  lemma QuotientFits(v: nat, n: nat)
    requires n <= 10_000_000 && v < n * 784931
    ensures v / 0x8_0000 <= 100_000_000
  {
  }

  lemma EncodedSums(values: seq<nat>)
    requires Encodable(values)
    ensures CompactSize(Encode(values)) == Some((|values|, |EncodeCompactSize(|values|)|))
    ensures Sums(Encode(values)[|EncodeCompactSize(|values|)|..], 0, 0) == [0] + values
  {
    var bits, size := Deltas(values, 0, 0), EncodeCompactSize(|values|);
    CompactSizeRoundTrip(|values|, Pack(bits));
    PackHolds(bits);
    assert Encode(values)[|size|..] == Pack(bits);
    SumsOfDeltas(Pack(bits), 0, values, 0, 0);
    assert values[0..] == values;
  }

  /** BIP158 "Set Construction" for a block's items: `values` are their hashes in order. */
  ghost predicate SetOf(sip: (seq<byte>, Item) -> uint64, blockHash: seq<byte>, items: seq<Item>, values: seq<nat>)
    requires |blockHash| == 32
  {
    && 1 <= |items| <= 10_000_000 && Sorted(values) && |values| == |items|
    && multiset(values) == multiset(seq(|items|, i requires 0 <= i < |items| => ItemValue(sip, blockHash, items[i], |items|)))
  }

  /** On the filter of a block's items, the matcher answers yes exactly when the value of some
      query is 0 or the value of an item of the block. */
  lemma MatchesEncodedSet(sip: (seq<byte>, Item) -> uint64, blockHash: seq<byte>, items: seq<Item>, values: seq<nat>, queries: seq<Item>)
    requires |blockHash| == 32 && SetOf(sip, blockHash, items, values)
    ensures Encodable(values)
    ensures Matches(sip, Encode(values), blockHash, queries) <==>
      exists k :: 0 <= k < |queries| &&
        var v := ItemValue(sip, blockHash, queries[k], |items|);
        v == 0 || exists i :: 0 <= i < |items| && ItemValue(sip, blockHash, items[i], |items|) == v
  {
    var n := |items|;
    var hashes: seq<nat> := seq(n, i requires 0 <= i < n => ItemValue(sip, blockHash, items[i], n));
    forall v ensures v in values <==> exists i :: 0 <= i < n && ItemValue(sip, blockHash, items[i], n) == v {
      assert v in values <==> v in multiset(values);
      assert v in hashes <==> v in multiset(hashes);
      if v in hashes {
        var i :| 0 <= i < n && hashes[i] == v;
      }
      assert forall i :: 0 <= i < n ==> hashes[i] == ItemValue(sip, blockHash, items[i], n) && hashes[i] in hashes;
    }
    forall i | 0 <= i < |values| ensures values[i] < n * M {
      assert values[i] in values;
    }
    EncodedSums(values);
    assert forall v :: v in [0] + values <==> v == 0 || v in values;
  }

  /** No false negatives: a query that is an item of the block always matches. */
  lemma NoFalseNegative(sip: (seq<byte>, Item) -> uint64, blockHash: seq<byte>, items: seq<Item>, values: seq<nat>, queries: seq<Item>)
    requires |blockHash| == 32 && SetOf(sip, blockHash, items, values)
    requires exists q :: q in queries && q in items
    ensures Matches(sip, Encode(values), blockHash, queries)
  {
    MatchesEncodedSet(sip, blockHash, items, values, queries);
    var q :| q in queries && q in items;
    var k :| 0 <= k < |queries| && queries[k] == q;
    var i :| 0 <= i < |items| && items[i] == q;
    assert ItemValue(sip, blockHash, items[i], |items|) == ItemValue(sip, blockHash, queries[k], |items|);
  }
}
