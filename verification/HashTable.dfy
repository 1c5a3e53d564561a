/**
 lib/hashtable/hashtable.c: buckets of chained entries that are relinked in place, by an insert or
 a remove and by a resize in either direction. The table is proved to be a finite map, whatever
 the hash function does.
 */
module HashTable {
  import opened Bytes
  import opened Outcomes

  type Key = seq<byte>

  // ----- the bucket of a key -----

  /** Bitwise exclusive or. */
  function Xor(a: nat, b: nat): (x: nat)
    ensures x <= a + b
  {
    if a == 0 && b == 0 then 0 else (if a % 2 != b % 2 then 1 else 0) + 2 * Xor(a / 2, b / 2)
  }

  lemma FoldDecreases(h: nat, bits: nat)
    requires bits > 0 && h >= Pow2(bits)
    ensures Xor(h % Pow2(bits), h / Pow2(bits)) < h
  {
    var p := Pow2(bits);
    assert p >= 2 by { assert Pow2(bits) == 2 * Pow2(bits - 1); }
    DivisionFacts(h, p);
  }

  lemma DivisionFacts(h: nat, p: nat)
    requires p >= 2 && h >= p
    ensures h % p + h / p < h
  {
    var q, r := h / p, h % p;
    assert h == q * p + r;
    assert q >= 1;
    assert q * p >= q * 2;
  }

  /** The bucket number the folding loop ends with. */
  function Fold(h: nat, bits: nat): (slot: nat)
    requires bits > 0
    ensures slot < Pow2(bits)
    decreases h
  {
    if h < Pow2(bits) then h
    else
      FoldDecreases(h, bits);
      Fold(Xor(h % Pow2(bits), h / Pow2(bits)), bits)
  }

  lemma FoldStep(h: nat, bits: nat)
    requires bits > 0 && h >= Pow2(bits)
    ensures Fold(h, bits) == Fold(Xor(h % Pow2(bits), h / Pow2(bits)), bits)
    ensures Xor(h % Pow2(bits), h / Pow2(bits)) < h
  {
    FoldDecreases(h, bits);
  }

  // ----- which bucket it is -----

  /** Bit `k` of `v`, counted from the low end. */
  function BitOf(v: nat, k: nat): (b: nat)
    ensures b < 2
  {
    if k == 0 then v % 2 else BitOf(v / 2, k - 1)
  }

  function Parity(n: nat): (p: nat)
    ensures p < 2
  {
    n % 2
  }

  /** A bit of an exclusive or is set exactly if one of the two bits is. */
  lemma {:induction false} XorBit(a: nat, b: nat, k: nat)
    ensures BitOf(Xor(a, b), k) == Parity(BitOf(a, k) + BitOf(b, k))
    decreases k
  {
    XorHalf(a, b);
    if k > 0 { XorBit(a / 2, b / 2, k - 1); }
  }

  lemma XorHalf(a: nat, b: nat)
    ensures Xor(a, b) / 2 == Xor(a / 2, b / 2) && Xor(a, b) % 2 == Parity(a % 2 + b % 2)
  {
    hide Xor;
    XorStep(a, b);
    ModIs(Xor(a, b), 2, Xor(a / 2, b / 2), Parity(a % 2 + b % 2));
  }

  lemma XorStep(a: nat, b: nat)
    ensures Xor(a, b) == 2 * Xor(a / 2, b / 2) + Parity(a % 2 + b % 2)
  {
    hide Xor, Parity;
    OddSum(a % 2, b % 2);
    if a == 0 && b == 0 {
      ZeroXor();
    } else {
      XorUnfold(a, b);
    }
  }

  lemma XorUnfold(a: nat, b: nat)
    requires a > 0 || b > 0
    ensures Xor(a, b) == (if a % 2 != b % 2 then 1 else 0) + 2 * Xor(a / 2, b / 2)
  {
  }

  lemma OddSum(x: nat, y: nat)
    requires x < 2 && y < 2
    ensures Parity(x + y) == if x != y then 1 else 0
  {
  }

  /** `v` without its low bits, and the low bits alone. */
  ghost function High(v: nat, bits: nat): nat {
    QuotientNat(v, Pow2(bits));
    v / Pow2(bits)
  }

  ghost function Low(v: nat, bits: nat): nat { v % Pow2(bits) }

  lemma QuotientNat(v: nat, p: nat)
    requires p > 0
    ensures v / p >= 0
  {
  }

  lemma SplitStep(v: nat, bits: nat)
    ensures bits == 0 ==> High(v, bits) == v && Low(v, bits) == 0
    ensures bits > 0 ==> High(v, bits) == High(v / 2, bits - 1)
    ensures bits > 0 ==> Low(v, bits) / 2 == Low(v / 2, bits - 1) && Low(v, bits) % 2 == v % 2
  {
    hide Pow2;
    PowerStep(bits);
    if bits > 0 { HalfDivision(v, Pow2(bits - 1)); }
  }

  lemma {:induction false} SplitBit(v: nat, bits: nat, k: nat)
    ensures BitOf(High(v, bits), k) == BitOf(v, k + bits)
    ensures k < bits ==> BitOf(Low(v, bits), k) == BitOf(v, k)
    decreases bits
  {
    hide BitOf, High, Low;
    SplitStep(v, bits);
    BitStep(v, k + bits);
    if bits > 0 {
      SplitBit(v / 2, bits - 1, k);
      BitStep(v, k);
      BitStep(Low(v, bits), k);
      if k > 0 { SplitBit(v / 2, bits - 1, k - 1); }
    }
  }

  lemma BitStep(v: nat, k: nat)
    ensures BitOf(v, k) == if k == 0 then v % 2 else BitOf(v / 2, k - 1)
  {
  }

  lemma PowerStep(bits: nat)
    ensures Pow2(bits) == if bits == 0 then 1 else 2 * Pow2(bits - 1)
  {
  }

  lemma {:induction false} NoBits(k: nat)
    ensures BitOf(0, k) == 0
  {
    if k > 0 { NoBits(k - 1); }
  }

  lemma HalfDivision(v: nat, p: nat)
    requires p > 0
    ensures v / (2 * p) == v / 2 / p && v % (2 * p) == 2 * (v / 2 % p) + v % 2
    ensures v % (2 * p) / 2 == v / 2 % p && v % (2 * p) % 2 == v % 2
  {
    var q, r := v / 2 / p, v / 2 % p;
    assert v / 2 == p * q + r;
    assert 2 * (p * q) == 2 * p * q;
    ModIs(v, 2 * p, q, 2 * r + v % 2);
  }

  /** How many of the bits `k`, `k + bits`, `k + 2 * bits`, ... of a number are set: odd or even. */
  ghost function ColumnParity(v: nat, bits: nat, k: nat): (p: nat)
    requires bits > 0
    ensures p < 2
    decreases v
  {
    if v == 0 then 0 else PowerAbove(bits); Parity(BitOf(v, k) + ColumnParity(v / Pow2(bits), bits, k))
  }

  lemma PowerAbove(bits: nat)
    requires bits > 0
    ensures Pow2(bits) >= 2 && forall v: nat :: v > 0 ==> v / Pow2(bits) < v
  {
    var p := Pow2(bits);
    assert p == 2 * Pow2(bits - 1);
    forall v: nat | v > 0 ensures v / p < v {
      assert v == v / p * p + v % p;
    }
  }

  lemma {:induction false} ColumnXor(a: nat, b: nat, bits: nat, k: nat)
    requires bits > 0
    ensures ColumnParity(Xor(a, b), bits, k) == Parity(ColumnParity(a, bits, k) + ColumnParity(b, bits, k))
    decreases a + b
  {
    hide Xor, BitOf, Pow2, ColumnParity;
    ColumnStep(a, bits, k);
    ColumnStep(b, bits, k);
    ColumnStep(Xor(a, b), bits, k);
    XorBit(a, b, k);
    ZeroXor();
    if a > 0 || b > 0 {
      XorHigh(a, b, bits);
      ColumnXor(a / Pow2(bits), b / Pow2(bits), bits, k);
    }
  }

  lemma ColumnStep(v: nat, bits: nat, k: nat)
    requires bits > 0
    ensures Pow2(bits) >= 2 && 0 <= v / Pow2(bits) <= v && (v > 0 ==> v / Pow2(bits) < v)
    ensures ColumnParity(v, bits, k) == Parity(BitOf(v, k) + ColumnParity(v / Pow2(bits), bits, k))
    ensures ColumnParity(0, bits, k) == 0
  {
    hide Pow2, BitOf;
    PowerAbove(bits);
    NoBits(k);
    if v == 0 { ModIs(0, Pow2(bits), 0, 0); }
  }

  lemma ZeroXor()
    ensures Xor(0, 0) == 0
  {
  }

  /** Dropping low bits of an exclusive or. */
  lemma {:induction false} XorHigh(a: nat, b: nat, bits: nat)
    ensures High(Xor(a, b), bits) == Xor(High(a, bits), High(b, bits))
    decreases bits
  {
    hide Xor, High, Low;
    SplitStep(a, bits);
    SplitStep(b, bits);
    SplitStep(Xor(a, b), bits);
    if bits > 0 {
      XorHalf(a, b);
      XorHigh(a / 2, b / 2, bits - 1);
    }
  }

  /** The bucket of a hash: the hash is cut into pieces as long as a bucket number, and bit `k` of the
      bucket number is set exactly if bit `k` is set in an odd number of the pieces. */
  lemma {:induction false} FoldExact(h: nat, bits: nat, k: nat)
    requires bits > 0 && k < bits
    ensures BitOf(Fold(h, bits), k) == ColumnParity(h, bits, k)
    decreases h
  {
    hide Xor, BitOf, Pow2, ColumnParity;
    var p := Pow2(bits);
    ColumnStep(h, bits, k);
    if h < p {
      ModIs(h, p, 0, h);
      ColumnStep(h / p, bits, k);
    } else {
      FoldDecreases(h, bits);
      FoldExact(Xor(h % p, h / p), bits, k);
      ColumnXor(h % p, h / p, bits, k);
      ColumnStep(h % p, bits, k);
      ModIs(h % p, p, 0, h % p);
      SplitBit(h, bits, k);
    }
  }

  /** `hashtable_compute_hash`: terminates, with a bucket in range. */
  method ComputeHash(murmur: Key -> uint32, numBuckets: nat, numBits: nat, key: Key) returns (h: nat)
    requires numBits > 0 && numBuckets == Pow2(numBits)
    ensures h == Fold(murmur(key), numBits) < numBuckets
  {
    hide Xor, Pow2;
    h := murmur(key);
    var mask := numBuckets - 1;
    while h > mask
      invariant Fold(murmur(key), numBits) == Fold(h, numBits)
      decreases h
    {
      FoldStep(h, numBits);
      h := Xor(h % numBuckets, h / numBuckets);
    }
  }

  function FloorLog2(v: nat): nat {
    if v <= 1 then 0 else 1 + FloorLog2(v / 2)
  }

  lemma {:induction false} Log2OfPower(bits: nat)
    ensures FloorLog2(Pow2(bits)) == bits
  {
    if bits > 0 { Log2OfPower(bits - 1); }
  }

  /** `util_log2`. */
  method Log2(v: nat) returns (r: nat)
    ensures r == FloorLog2(v)
  {
    var i, w := 0, v;
    while w > 0
      invariant i >= 0 && w >= 0 && (w > 0 ==> FloorLog2(v) == i + FloorLog2(w))
      invariant w == 0 ==> FloorLog2(v) == if i > 0 then i - 1 else 0
      decreases w
    {
      i := i + 1;
      w := w / 2;
    }
    r := if i > 0 then i - 1 else i;
  }

  // ----- entries and buckets -----

  class Entry<V> {
    const key: Key
    const data: V
    var next: Entry?<V>

    constructor (key: Key, data: V)
      ensures this.key == key && this.data == data && next == null
    {
      this.key, this.data, next := key, data, null;
    }
  }

  /** `c` is the chain that starts at `head`. */
  ghost predicate Linked<V>(head: Entry?<V>, c: seq<Entry<V>>)
    reads c`next
  {
    && (if c == [] then head == null else head == c[0] && c[|c| - 1].next == null)
    && forall i, j :: 0 <= i < j <= i + 1 && j < |c| ==> c[i].next == c[j]
  }

  /** One bucket: a chain of entries of `all` with this slot and different keys. */
  ghost predicate BucketOk<V>(murmur: Key -> uint32, bits: nat, b: nat, c: seq<Entry<V>>, all: set<Entry<V>>)
    requires bits > 0
  {
    && (forall i :: 0 <= i < |c| ==> c[i] in all && Fold(murmur(c[i].key), bits) == b)
    && (forall i, j :: 0 <= i < j < |c| ==> c[i].key != c[j].key)
  }

  /** The chains hold exactly the entries of `all`, each in the bucket of its key. */
  ghost predicate Sorted<V>(murmur: Key -> uint32, bits: nat, cs: seq<seq<Entry<V>>>, all: set<Entry<V>>)
    requires bits > 0
  {
    && |cs| == Pow2(bits)
    && (forall b :: 0 <= b < |cs| ==> BucketOk(murmur, bits, b, cs[b], all))
    && (forall e :: e in all ==> e in cs[Fold(murmur(e.key), bits)])
  }

  ghost predicate AllLinked<V>(bs: seq<Entry?<V>>, cs: seq<seq<Entry<V>>>, all: set<Entry<V>>)
    reads all`next
  {
    && |bs| == |cs|
    && forall b :: 0 <= b < |cs| ==> (forall e :: e in cs[b] ==> e in all) && Linked(bs[b], cs[b])
  }

  /** The entries of `all` are the pairs of `m`. */
  ghost predicate Represents<V>(all: set<Entry<V>>, m: map<Key, V>) {
    && (forall e :: e in all ==> e.key in m && m[e.key] == e.data)
    && (forall k :: k in m ==> exists e :: e in all && e.key == k)
  }

  /** One entry for each key. */
  lemma UniqueKeys<V>(murmur: Key -> uint32, bits: nat, cs: seq<seq<Entry<V>>>, all: set<Entry<V>>, x: Entry<V>, y: Entry<V>)
    requires bits > 0 && Sorted(murmur, bits, cs, all) && x in all && y in all && x.key == y.key
    ensures x == y
  {
    var b := Fold(murmur(x.key), bits);
    assert BucketOk(murmur, bits, b, cs[b], all);
    var i :| 0 <= i < |cs[b]| && cs[b][i] == x;
    var j :| 0 <= j < |cs[b]| && cs[b][j] == y;
  }

  // ----- one entry pushed onto a bucket -----

  lemma PushSorted<V>(murmur: Key -> uint32, bits: nat, cs: seq<seq<Entry<V>>>, all: set<Entry<V>>, e: Entry<V>)
    requires bits > 0 && Sorted(murmur, bits, cs, all) && e !in all
    requires forall x :: x in all ==> x.key != e.key
    ensures var b := Fold(murmur(e.key), bits);
      Sorted(murmur, bits, cs[b := [e] + cs[b]], all + {e})
  {
    var b := Fold(murmur(e.key), bits);
    var after := cs[b := [e] + cs[b]];
    forall c | 0 <= c < |after| ensures BucketOk(murmur, bits, c, after[c], all + {e}) {
      assert BucketOk(murmur, bits, c, cs[c], all);
    }
    forall x | x in all + {e} ensures x in after[Fold(murmur(x.key), bits)] {
      var c := Fold(murmur(x.key), bits);
      if x == e {
        assert after[b][0] == e;
      } else {
        var i :| 0 <= i < |cs[c]| && cs[c][i] == x;
        assert after[c][if c == b then i + 1 else i] == x;
      }
    }
  }

  /** Links `e` in at the front of its bucket. */
  method Push<V>(bs: array<Entry?<V>>, b: nat, e: Entry<V>, ghost cs: seq<seq<Entry<V>>>, ghost all: set<Entry<V>>)
    requires b < bs.Length && AllLinked(bs[..], cs, all) && e !in all
    modifies bs, e`next
    ensures AllLinked(bs[..], cs[b := [e] + cs[b]], all + {e})
    ensures e.next == old(bs[b])
  {
    ghost var after := cs[b := [e] + cs[b]];
    e.next := bs[b];
    assert forall c :: 0 <= c < |cs| ==> Linked(bs[c], cs[c]);
    bs[b] := e;
    PushLinked(e, e.next, cs[b]);
    forall c | 0 <= c < |after| ensures (forall x :: x in after[c] ==> x in all + {e}) && Linked(bs[..][c], after[c]) {
      assert Linked(old(bs[..])[c], cs[c]);
    }
  }

  lemma PushLinked<V>(e: Entry<V>, head: Entry?<V>, c: seq<Entry<V>>)
    requires Linked(head, c) && e !in c && e.next == head
    ensures Linked(e, [e] + c)
  {
  }

  // ----- resizing -----

  /** Moves one entry into a new table. */
  method MoveEntry<V>(murmur: Key -> uint32, bs: array<Entry?<V>>, numBits: nat, e: Entry<V>,
                      ghost cs: seq<seq<Entry<V>>>, ghost all: set<Entry<V>>)
    returns (ghost after: seq<seq<Entry<V>>>)
    requires numBits > 0 && bs.Length == Pow2(numBits) && e !in all && forall x :: x in all ==> x.key != e.key
    requires AllLinked(bs[..], cs, all) && Sorted(murmur, numBits, cs, all)
    modifies bs, e`next
    ensures AllLinked(bs[..], after, all + {e}) && Sorted(murmur, numBits, after, all + {e})
  {
    hide BucketOk, Pow2, AllLinked, Fold;
    var h := ComputeHash(murmur, bs.Length, numBits, e.key);
    PushSorted(murmur, numBits, cs, all, e);
    after := cs[h := [e] + cs[h]];
    Push(bs, h, e, cs, all);
  }

  /** Moves one old chain into a new table. */
  method MoveChain<V>(murmur: Key -> uint32, bs: array<Entry?<V>>, numBits: nat, head: Entry?<V>,
                      ghost chain: seq<Entry<V>>, ghost cs: seq<seq<Entry<V>>>, ghost all: set<Entry<V>>)
    returns (ghost after: seq<seq<Entry<V>>>)
    requires numBits > 0 && bs.Length == Pow2(numBits) && Linked(head, chain)
    requires AllLinked(bs[..], cs, all) && Sorted(murmur, numBits, cs, all)
    requires forall i, j :: 0 <= i < j < |chain| ==> chain[i].key != chain[j].key
    requires forall i, x :: 0 <= i < |chain| && x in all ==> chain[i].key != x.key
    modifies bs, chain`next
    ensures AllLinked(bs[..], after, all + Elements(chain)) && Sorted(murmur, numBits, after, all + Elements(chain))
  {
    hide BucketOk, Pow2, Sorted, AllLinked, Fold, Elements;
    var e := head;
    NoElements(chain, all);
    after := cs;
    ghost var k := 0;
    while e != null
      invariant k <= |chain| && LinkedFrom(e, chain, k)
      invariant AllLinked(bs[..], after, all + Elements(chain[..k])) && Sorted(murmur, numBits, after, all + Elements(chain[..k]))
      decreases |chain| - k
    {
      var next := e.next;
      NextFrom(e, chain, k);
      MovedKeys(chain, all, k);
      after := MoveEntry(murmur, bs, numBits, e, after, all + Elements(chain[..k]));
      e := next;
      k := k + 1;
    }
    assert chain[..k] == chain;
  }

  /** `e` is the entry at position `k`, and the chain is linked from there on. */
  ghost predicate LinkedFrom<V>(e: Entry?<V>, chain: seq<Entry<V>>, k: nat)
    requires k <= |chain|
    reads chain`next
  {
    && (if k == |chain| then e == null else e == chain[k] && chain[|chain| - 1].next == null)
    && forall i, j :: k <= i < j <= i + 1 && j < |chain| ==> chain[i].next == chain[j]
  }

  lemma NextFrom<V>(e: Entry?<V>, chain: seq<Entry<V>>, k: nat)
    requires k < |chain| && LinkedFrom(e, chain, k)
    ensures e != null && e == chain[k] && LinkedFrom(e.next, chain, k + 1)
  {
  }

  lemma NoElements<V>(chain: seq<Entry<V>>, all: set<Entry<V>>)
    ensures all + Elements(chain[..0]) == all
  {
  }

  lemma MovedKeys<V>(chain: seq<Entry<V>>, all: set<Entry<V>>, k: nat)
    requires k < |chain| && forall i, j :: 0 <= i < j < |chain| ==> chain[i].key != chain[j].key
    requires forall i, x :: 0 <= i < |chain| && x in all ==> chain[i].key != x.key
    ensures forall x :: x in all + Elements(chain[..k]) ==> x.key != chain[k].key
    ensures forall i :: k < i < |chain| ==> chain[i] != chain[k]
    ensures all + Elements(chain[..k + 1]) == all + Elements(chain[..k]) + {chain[k]}
  {
  }

  ghost function Elements<V>(c: seq<Entry<V>>): set<Entry<V>> {
    set e | e in c
  }

  /** The entries of the buckets before `i`. */
  ghost function Below<V>(murmur: Key -> uint32, bits: nat, all: set<Entry<V>>, i: nat): set<Entry<V>>
    requires bits > 0
  {
    set e | e in all && Fold(murmur(e.key), bits) < i
  }

  /** The next bucket's entries are those with its number, and none of their keys came before. */
  lemma BelowNext<V>(murmur: Key -> uint32, bits: nat, cs: seq<seq<Entry<V>>>, all: set<Entry<V>>, i: nat)
    requires bits > 0 && Sorted(murmur, bits, cs, all) && i < |cs|
    ensures Below(murmur, bits, all, i) + Elements(cs[i]) == Below(murmur, bits, all, i + 1)
    ensures forall j, k :: 0 <= j < k < |cs[i]| ==> cs[i][j].key != cs[i][k].key
    ensures forall j, x :: 0 <= j < |cs[i]| && x in Below(murmur, bits, all, i) ==> cs[i][j].key != x.key
    ensures forall c :: i < c < |cs| ==> forall x :: x in cs[c] ==> x !in cs[i]
  {
    assert BucketOk(murmur, bits, i, cs[i], all);
    forall c, x | i < c < |cs| && x in cs[c] ensures x !in cs[i] {
      assert BucketOk(murmur, bits, c, cs[c], all);
    }
  }

  lemma BelowEnds<V>(murmur: Key -> uint32, bits: nat, all: set<Entry<V>>)
    requires bits > 0
    ensures Below(murmur, bits, all, 0) == {} && Below(murmur, bits, all, Pow2(bits)) == all
  {
  }

  lemma EmptyTable<V>(murmur: Key -> uint32, bits: nat, bs: seq<Entry?<V>>)
    requires bits > 0 && |bs| == Pow2(bits) && forall i :: 0 <= i < |bs| ==> bs[i] == null
    ensures AllLinked(bs, NoChains(|bs|), {}) && Sorted<V>(murmur, bits, NoChains(|bs|), {})
  {
  }

  ghost function NoChains<V>(n: nat): seq<seq<Entry<V>>> {
    seq(n, _ => [])
  }

  /** The chains of the buckets from `i` on. */
  ghost predicate LeftLinked<V>(bs: seq<Entry?<V>>, cs: seq<seq<Entry<V>>>, all: set<Entry<V>>, i: nat)
    reads all`next
  {
    && |bs| == |cs|
    && forall b :: i <= b < |cs| ==> (forall e :: e in cs[b] ==> e in all) && Linked(bs[b], cs[b])
  }

  lemma StartLeft<V>(bs: seq<Entry?<V>>, cs: seq<seq<Entry<V>>>, all: set<Entry<V>>)
    requires AllLinked(bs, cs, all)
    ensures LeftLinked(bs, cs, all, 0)
  {
  }

  /** The rehashing loops of `hashtable_check_resize`: every entry is relinked into the new
      buckets, none is lost or doubled. */
  method Rehash<V>(murmur: Key -> uint32, was: array<Entry?<V>>, wasBits: nat, bs: array<Entry?<V>>, numBits: nat,
                   ghost cs: seq<seq<Entry<V>>>, ghost all: set<Entry<V>>)
    returns (ghost after: seq<seq<Entry<V>>>)
    requires wasBits > 0 && numBits > 0 && was.Length == Pow2(wasBits) && bs.Length == Pow2(numBits) && was != bs
    requires AllLinked(was[..], cs, all) && Sorted(murmur, wasBits, cs, all)
    requires forall i :: 0 <= i < bs.Length ==> bs[i] == null
    modifies was, bs, all`next
    ensures AllLinked(bs[..], after, all) && Sorted(murmur, numBits, after, all)
  {
    hide BucketOk, Fold, Elements, Pow2, LeftLinked, Linked;
    assert LeftLinked(was[..], cs, all, 0) by { StartLeft(was[..], cs, all); }
    after := NoChains(bs.Length);
    EmptyTable(murmur, numBits, bs[..]);
    BelowEnds(murmur, wasBits, all);
    assert |cs| == was.Length;
    for i := 0 to was.Length
      invariant LeftLinked(was[..], cs, all, i)
      invariant AllLinked(bs[..], after, Below(murmur, wasBits, all, i))
      invariant Sorted(murmur, numBits, after, Below(murmur, wasBits, all, i))
    {
      BelowNext(murmur, wasBits, cs, all, i);
      after := MoveBucket(murmur, was, i, bs, numBits, cs, all, after, Below(murmur, wasBits, all, i));
    }
  }

  /** Empties bucket `i` into the new table. */
  method MoveBucket<V>(murmur: Key -> uint32, was: array<Entry?<V>>, i: nat, bs: array<Entry?<V>>, numBits: nat,
                       ghost cs: seq<seq<Entry<V>>>, ghost all: set<Entry<V>>, ghost news: seq<seq<Entry<V>>>,
                       ghost moved: set<Entry<V>>)
    returns (ghost after: seq<seq<Entry<V>>>)
    requires i < was.Length && LeftLinked(was[..], cs, all, i) && was != bs
    requires numBits > 0 && bs.Length == Pow2(numBits)
    requires AllLinked(bs[..], news, moved) && Sorted(murmur, numBits, news, moved)
    requires forall j, k :: 0 <= j < k < |cs[i]| ==> cs[i][j].key != cs[i][k].key
    requires forall j, x :: 0 <= j < |cs[i]| && x in moved ==> cs[i][j].key != x.key
    requires forall c :: i < c < |cs| ==> forall x :: x in cs[c] ==> x !in cs[i]
    modifies was, bs, cs[i]`next
    ensures LeftLinked(was[..], cs, all, i + 1)
    ensures AllLinked(bs[..], after, moved + Elements(cs[i])) && Sorted(murmur, numBits, after, moved + Elements(cs[i]))
  {
    hide BucketOk, Fold, Elements, Sorted, AllLinked, Pow2;
    var e := was[i];
    was[i] := null;
    after := MoveChain(murmur, bs, numBits, e, cs[i], news, moved);
    forall b | i + 1 <= b < |cs| ensures (forall x :: x in cs[b] ==> x in all) && Linked(was[..][b], cs[b]) {
      assert old(Linked(was[b], cs[b]));
      assert forall k :: 0 <= k < |cs[b]| ==> cs[b][k] !in cs[i];
    }
  }

  // ----- one entry taken out of a bucket -----

  /** Position of `e` in a chain. */
  lemma TakeOutSorted<V>(murmur: Key -> uint32, bits: nat, cs: seq<seq<Entry<V>>>, all: set<Entry<V>>, b: nat, i: nat)
    requires bits > 0 && Sorted(murmur, bits, cs, all) && b < |cs| && i < |cs[b]|
    ensures Sorted(murmur, bits, cs[b := cs[b][..i] + cs[b][i + 1..]], all - {cs[b][i]})
  {
    var e := cs[b][i];
    var c := cs[b][..i] + cs[b][i + 1..];
    var after := cs[b := c];
    assert BucketOk(murmur, bits, b, cs[b], all);
    forall d | 0 <= d < |after| ensures BucketOk(murmur, bits, d, after[d], all - {e}) {
      assert BucketOk(murmur, bits, d, cs[d], all);
    }
    forall x | x in all - {e} ensures x in after[Fold(murmur(x.key), bits)] {
      var d := Fold(murmur(x.key), bits);
      var k :| 0 <= k < |cs[d]| && cs[d][k] == x;
      if d == b {
        assert c[if k < i then k else k - 1] == x;
      }
    }
  }

  /** The chain without its entry at `i`, once the link around it is set. */
  method Unlink<V>(bs: array<Entry?<V>>, b: nat, e: Entry<V>, prev: Entry?<V>, ghost i: nat,
                   ghost cs: seq<seq<Entry<V>>>, ghost all: set<Entry<V>>)
    requires b < bs.Length && AllLinked(bs[..], cs, all) && i < |cs[b]| && cs[b][i] == e
    requires prev == if i == 0 then null else cs[b][i - 1]
    requires forall c, x :: 0 <= c < |cs| && c != b && x in cs[c] ==> x !in cs[b]
    requires forall j, k :: 0 <= j < k < |cs[b]| ==> cs[b][j] != cs[b][k]
    modifies bs, cs[b]`next
    ensures AllLinked(bs[..], cs[b := cs[b][..i] + cs[b][i + 1..]], all - {e})
  {
    ghost var c := cs[b];
    ghost var rest := c[..i] + c[i + 1..];
    ghost var after := cs[b := rest];
    if prev != null {
      prev.next := e.next;
    } else {
      bs[b] := e.next;
    }
    forall d | 0 <= d < |after| ensures (forall x :: x in after[d] ==> x in all - {e}) && Linked(bs[..][d], after[d]) {
      if d == b {
        assert forall k :: 0 <= k < |rest| ==> rest[k] == if k < i then c[k] else c[k + 1];
        assert forall j, k :: 0 <= j < k <= j + 1 && k < |c| && j != i - 1 ==> c[j].next == old(c[j].next) == c[k];
        assert i + 1 < |c| ==> old(e.next) == c[i + 1];
      } else {
        assert old(Linked(bs[d], cs[d]));
        assert forall k :: 0 <= k < |cs[d]| ==> cs[d][k] !in c;
      }
    }
  }

  // ----- the table -----

  const MIN_BUCKETS := 256
  const FACTOR := 4

  /** The sizes a table can have: 256 times a power of four, below 2^32. */
  ghost predicate Size(bits: nat) {
    8 <= bits <= 30 && bits % 2 == 0
  }

  lemma SizeFacts(bits: nat)
    requires Size(bits)
    ensures MIN_BUCKETS <= Pow2(bits) < TWO_32
    ensures bits < 30 ==> 4 * Pow2(bits) == Pow2(bits + 2) && Pow2(bits + 2) < TWO_32
    ensures bits == 30 ==> 4 * Pow2(bits) == TWO_32
    ensures bits > 8 ==> Pow2(bits) / 4 == Pow2(bits - 2)
    ensures bits == 8 ==> Pow2(bits) / 4 < MIN_BUCKETS
    ensures bits == 10 ==> Pow2(bits) / 4 == MIN_BUCKETS
    ensures bits > 10 ==> Pow2(bits) / 4 > MIN_BUCKETS
  {
    assert Pow2(8) == 256;
    assert Pow2(10) == 1024;
    assert Pow2(12) == 0x1000;
    assert Pow2(14) == 0x4000;
    assert Pow2(16) == 0x1_0000;
    assert Pow2(18) == 0x4_0000;
    assert Pow2(20) == 0x10_0000;
    assert Pow2(22) == 0x40_0000;
    assert Pow2(24) == 0x100_0000;
    assert Pow2(26) == 0x400_0000;
    assert Pow2(28) == 0x1000_0000;
    assert Pow2(30) == 0x4000_0000;
  }

  /** The bits after a check at this count. A table of 2^30 buckets only shrinks when it is empty,
      since four times its size is 0 in 32 bits; and none shrinks below 1024. */
  function Resized(bits: nat, count: nat): (r: nat)
    requires Size(bits)
    ensures Size(r)
  {
    if bits == 30 then if count == 0 then 28 else 30
    else if count > FACTOR * Pow2(bits) then bits + 2
    else if count < Pow2(bits) / FACTOR && bits > 10 then bits - 2
    else bits
  }

  /** The size after a check at each of these counts. */
  function ResizedBy(bits: nat, counts: seq<nat>, n: nat): (r: nat)
    requires Size(bits) && n <= |counts|
    ensures Size(r)
  {
    if n == 0 then bits else Resized(ResizedBy(bits, counts, n - 1), counts[n - 1])
  }

  /** Over any run of checks a table that has grown never gets back below 1024 buckets, and one with
      2^30 keeps them as long as it is never found empty. */
  lemma {:induction false} NeverBackBelow(bits: nat, counts: seq<nat>, n: nat)
    requires Size(bits) && n <= |counts|
    ensures bits >= 10 ==> ResizedBy(bits, counts, n) >= 10
    ensures bits == 30 && (forall i :: 0 <= i < n ==> counts[i] != 0) ==> ResizedBy(bits, counts, n) == 30
  {
    if n > 0 { NeverBackBelow(bits, counts, n - 1); }
  }

  /** When a check resizes: a table with more than four entries a bucket gets four times the buckets, and
      one with less than a quarter of an entry a bucket gets a quarter of them, but never down to 256; a
      table of 2^30 buckets does not grow, and shrinks only when it is empty. */
  lemma ResizedExactly(bits: nat, count: nat)
    requires Size(bits)
    ensures var n, r := Pow2(bits), Pow2(Resized(bits, count));
      if n == 0x4000_0000 then r == if count == 0 then 0x1000_0000 else n
      else r == if count > 4 * n then 4 * n else if count < n / 4 && n > 1024 then n / 4 else n
  {
    SizeFacts(bits);
    Powers();
  }

  lemma Powers()
    ensures Pow2(10) == 1024 && Pow2(28) == 0x1000_0000 && Pow2(30) == 0x4000_0000
    ensures forall b: nat :: Size(b) ==> (Pow2(b) == 0x4000_0000 <==> b == 30) && (Pow2(b) > 1024 <==> b > 10)
  {
    hide Pow2;
    EvenPowers();
    forall b: nat | Size(b) ensures (Pow2(b) == 0x4000_0000 <==> b == 30) && (Pow2(b) > 1024 <==> b > 10) {
      assert b == 8 || b == 10 || b == 12 || b == 14 || b == 16 || b == 18 || b == 20 || b == 22 || b == 24
             || b == 26 || b == 28 || b == 30;
    }
  }

  lemma EvenPowers()
    ensures Pow2(8) == 256 && Pow2(10) == 1024 && Pow2(12) == 0x1000 && Pow2(14) == 0x4000 && Pow2(16) == 0x1_0000
    ensures Pow2(18) == 0x4_0000 && Pow2(20) == 0x10_0000 && Pow2(22) == 0x40_0000 && Pow2(24) == 0x100_0000
    ensures Pow2(26) == 0x400_0000 && Pow2(28) == 0x1000_0000 && Pow2(30) == 0x4000_0000
  {
  }

  /** One check keeps up with one operation: four entries a bucket at most, until there are 2^30. */
  lemma ResizeMakesRoom(bits: nat, count: nat)
    requires Size(bits) && (bits < 30 ==> count <= 4 * Pow2(bits) + 1)
    ensures Resized(bits, count) < 30 ==> count <= 4 * Pow2(Resized(bits, count))
  {
    SizeFacts(bits);
    SizeFacts(Resized(bits, count));
  }

  class Table<V> {
    const murmur: Key -> uint32
    var numBuckets: nat
    var count: nat
    var numBits: nat
    var buckets: array<Entry?<V>>
    ghost var chains: seq<seq<Entry<V>>>
    ghost var entries: set<Entry<V>>
    /** The map the table stands for. */
    ghost var contents: map<Key, V>

    ghost predicate Valid()
      reads this, buckets, entries`next
    {
      && Size(numBits) && numBuckets == buckets.Length == Pow2(numBits) && count == |contents| % TWO_32
      && AllLinked(buckets[..], chains, entries) && Sorted(murmur, numBits, chains, entries)
      && Represents(entries, contents)
    }

    /** At most four entries a bucket, and one more, unless the table cannot grow. */
    ghost predicate Roomy()
      reads this
    {
      |contents| < TWO_32 && (numBits < 30 ==> |contents| <= FACTOR * Pow2(numBits) + 1)
    }

    /** `hashtable_create`. */
    constructor (murmur: Key -> uint32)
      ensures Valid() && Roomy() && contents == map[] && fresh(buckets) && entries == {} && this.murmur == murmur
      ensures numBuckets == 256
    {
      this.murmur := murmur;
      numBuckets, count := MIN_BUCKETS, 0;
      numBits := 8;
      buckets := new Entry?<V>[MIN_BUCKETS](_ => null);
      chains, entries, contents := NoChains(256), {}, map[];
      new;
      SizeFacts(8);
      assert Pow2(8) == 256;
      numBits := Log2(numBuckets);
      Log2OfPower(8);
      EmptyTable(murmur, 8, buckets[..]);
    }

    /** `hashtable_lookup_entry`. */
    method LookupEntry(b: nat, key: Key) returns (e: Entry?<V>)
      requires Valid() && b == Fold(murmur(key), numBits)
      ensures e != null ==> e in entries && e.key == key
      ensures e == null ==> forall x :: x in entries ==> x.key != key
    {
      hide BucketOk, Fold, Pow2, Represents, Size;
      ghost var c := chains[b];
      assert Linked(buckets[..][b], c);
      e := buckets[b];
      ghost var k := 0;
      while e != null
        invariant k <= |c| && LinkedFrom(e, c, k) && forall i :: 0 <= i < k ==> c[i].key != key
        decreases |c| - k
      {
        NextFrom(e, c, k);
        if e.key == key {
          return;
        }
        e := e.next;
        k := k + 1;
      }
    }

    /** `hashtable_lookup`. */
    method Lookup(key: Key) returns (r: Option<V>)
      requires Valid()
      ensures r == if key in contents then Some(contents[key]) else None
    {
      hide BucketOk, Fold, Pow2, AllLinked, Sorted;
      var b := ComputeHash(murmur, numBuckets, numBits, key);
      var e := LookupEntry(b, key);
      r := if e != null then Some(e.data) else None;
    }

    /** The new size `hashtable_check_resize` asks for; the products are 32 bits wide. */
    method WantedSize() returns (n: nat, ghost bits: nat)
      requires Valid()
      ensures if n <= MIN_BUCKETS || n == numBuckets then Resized(numBits, count) == numBits
              else n == Pow2(bits) && bits == Resized(numBits, count)
    {
      hide AllLinked, Sorted, Represents, Pow2;
      SizeFacts(numBits);
      n, bits := numBuckets, numBits;
      if count > FACTOR * numBuckets % TWO_32 {
        n := numBuckets * FACTOR % TWO_32;
        bits := numBits + 2;
      } else if count < numBuckets / FACTOR {
        n := numBuckets / FACTOR;
        bits := if numBits > 8 then numBits - 2 else 8;
      }
    }

    /** `hashtable_check_resize`: the map stays the same, the size follows the count. */
    method CheckResize()
      requires Valid()
      modifies this`numBuckets, this`numBits, this`buckets, this`chains, buckets, entries`next
      ensures Valid() && (buckets == old(buckets) || fresh(buckets)) && numBits == Resized(old(numBits), count)
    {
      hide AllLinked, Sorted, Represents, Pow2;
      var n, bits := WantedSize();
      if n <= MIN_BUCKETS {
        return;
      }
      if n == numBuckets {
        return;
      }
      var fresh_ := new Entry?<V>[n](_ => null);
      var newBits := Log2(n);
      Log2OfPower(bits);
      chains := Rehash(murmur, buckets, numBits, fresh_, newBits, chains, entries);
      numBits := newBits;
      buckets := fresh_;
      numBuckets := n;
    }

    /** `hashtable_insert`: adds the pair unless the key is there. */
    method Insert(key: Key, data: V) returns (added: bool)
      requires Valid()
      modifies this, buckets, entries`next
      ensures Valid() && (buckets == old(buckets) || fresh(buckets)) && fresh(entries - old(entries))
      ensures added <==> key !in old(contents)
      ensures contents == if added then old(contents)[key := data] else old(contents)
      ensures old(Roomy()) && |contents| < TWO_32 ==> Roomy()
    {
      hide AllLinked, Sorted, Pow2, Represents, Resized, Fold, BucketOk, Linked;
      if Roomy() { ResizeMakesRoom(numBits, count); }
      CheckResize();
      ghost var size, room := |contents|, |contents| < TWO_32 && (numBits < 30 ==> |contents| <= FACTOR * Pow2(numBits));
      assert old(Roomy()) ==> room;
      var b := ComputeHash(murmur, numBuckets, numBits, key);
      var e := LookupEntry(b, key);
      AbsentKey(entries, contents, key);
      if e != null {
        return false;
      }
      AddFront(b, key, data);
      assert |contents| == size + 1;
      added := true;
    }

    /** A new entry at the front of its bucket. */
    method AddFront(b: nat, key: Key, data: V)
      requires Valid() && b == Fold(murmur(key), numBits) && key !in contents
      modifies this`count, this`chains, this`entries, this`contents, buckets
      ensures Valid() && contents == old(contents)[key := data] && fresh(entries - old(entries))
    {
      hide AllLinked, Sorted, Pow2, Represents, Fold;
      AbsentKey(entries, contents, key);
      var e := new Entry<V>(key, data);
      MoreRepresents(entries, e, contents);
      SlotInRange(murmur, numBits, chains, entries, key);
      PushSorted(murmur, numBits, chains, entries, e);
      ghost var after := chains[b := [e] + chains[b]];
      Push(buckets, b, e, chains, entries);
      chains, entries, contents := after, entries + {e}, contents[key := data];
      CountUp(count, |old(contents)|);
      count := (count + 1) % TWO_32;
    }

    /** `hashtable_remove`. */
    method Remove(key: Key) returns (removed: bool)
      requires Valid()
      modifies this, buckets, entries`next
      ensures Valid() && (buckets == old(buckets) || fresh(buckets)) && entries <= old(entries)
      ensures removed <==> key in old(contents)
      ensures contents == old(contents) - {key}
      ensures old(Roomy()) ==> Roomy()
    {
      hide AllLinked, Sorted, Pow2, Represents, Resized, Fold, BucketOk;
      if Roomy() { ResizeMakesRoom(numBits, count); }
      CheckResize();
      ghost var size, room := |contents|, Roomy();
      assert old(Roomy()) ==> room;
      var b := ComputeHash(murmur, numBuckets, numBits, key);
      var entry := LookupEntry(b, key);
      AbsentKey(entries, contents, key);
      TakenKey(contents, key);
      if entry == null {
        return false;
      }
      RemoveEntry(b, entry);
      assert |contents| <= size;
      removed := true;
    }

    /** Relinks around an entry and drops it. */
    method RemoveEntry(b: nat, entry: Entry<V>)
      requires Valid() && entry in entries && b == Fold(murmur(entry.key), numBits)
      modifies this`count, this`chains, this`entries, this`contents, buckets, entries`next
      ensures Valid() && contents == old(contents) - {entry.key} && entries == old(entries) - {entry}
    {
      hide AllLinked, Sorted, Pow2, Represents, Fold, Linked, BucketOk;
      SlotInRange(murmur, numBits, chains, entries, entry.key);
      var prev, i := FindPrev(b, entry);
      TakeOutFacts(murmur, numBits, chains, entries, b, i, contents);
      ghost var after, left, m := chains[b := chains[b][..i] + chains[b][i + 1..]], entries - {entry}, contents - {entry.key};
      Unlink(buckets, b, entry, prev, i, chains, entries);
      chains, entries, contents := after, left, m;
      CountDown(count, |old(contents)|);
      count := (count - 1) % TWO_32;
    }

    /** The search for an entry's predecessor in its bucket. */
    method FindPrev(b: nat, entry: Entry<V>) returns (prev: Entry?<V>, ghost i: nat)
      requires Valid() && entry in entries && b == Fold(murmur(entry.key), numBits) < |chains|
      ensures i < |chains[b]| && chains[b][i] == entry && prev == if i == 0 then null else chains[b][i - 1]
    {
      hide Fold, Pow2, Represents, BucketOk;
      ghost var c := chains[b];
      assert Linked(buckets[..][b], c);
      prev := null;
      var e := buckets[b];
      i := 0;
      while e != null && e != entry
        invariant i <= |c| && LinkedFrom(e, c, i) && prev == (if i == 0 then null else c[i - 1])
        invariant forall j :: 0 <= j < i ==> c[j] != entry
        decreases |c| - i
      {
        NextFrom(e, c, i);
        prev := e;
        e := e.next;
        i := i + 1;
      }
    }
  }

  lemma TakenKey<V>(m: map<Key, V>, key: Key)
    ensures key !in m ==> m - {key} == m
    ensures |m - {key}| <= |m|
  {
    if key !in m {
      assert m - {key} == m;
    } else {
      assert m == (m - {key})[key := m[key]];
    }
  }

  lemma CountDown(count: nat, size: nat)
    requires count == size % TWO_32 && size > 0
    ensures (count - 1) % TWO_32 == (size - 1) % TWO_32
  {
  }

  lemma CountUp(count: nat, size: nat)
    requires count == size % TWO_32
    ensures (count + 1) % TWO_32 == (size + 1) % TWO_32
  {
  }

  lemma SlotInRange<V>(murmur: Key -> uint32, bits: nat, cs: seq<seq<Entry<V>>>, all: set<Entry<V>>, key: Key)
    requires bits > 0 && Sorted(murmur, bits, cs, all)
    ensures Fold(murmur(key), bits) < |cs| == Pow2(bits)
    ensures forall x :: x in cs[Fold(murmur(key), bits)] ==> x in all
  {
    var b := Fold(murmur(key), bits);
    assert BucketOk(murmur, bits, b, cs[b], all);
  }

  /** What taking out the entry at `i` leaves. */
  lemma TakeOutFacts<V>(murmur: Key -> uint32, bits: nat, cs: seq<seq<Entry<V>>>, all: set<Entry<V>>, b: nat, i: nat, m: map<Key, V>)
    requires bits > 0 && Sorted(murmur, bits, cs, all) && Represents(all, m) && b < |cs| && i < |cs[b]| && cs[b][i] in all
    ensures var e := cs[b][i];
      && Sorted(murmur, bits, cs[b := cs[b][..i] + cs[b][i + 1..]], all - {e})
      && Represents(all - {e}, m - {e.key}) && |m - {e.key}| == |m| - 1
    ensures forall c, x :: 0 <= c < |cs| && c != b && x in cs[c] ==> x !in cs[b]
    ensures forall j, k :: 0 <= j < k < |cs[b]| ==> cs[b][j] != cs[b][k]
  {
    hide Sorted, Represents;
    var e := cs[b][i];
    OtherBuckets(murmur, bits, cs, all, b);
    TakeOutSorted(murmur, bits, cs, all, b, i);
    forall x | x in all && x.key == e.key ensures x == e {
      UniqueKeys(murmur, bits, cs, all, x, e);
    }
    LessRepresents(all, e, m);
  }

  lemma AbsentKey<V>(all: set<Entry<V>>, m: map<Key, V>, key: Key)
    requires Represents(all, m)
    ensures key in m <==> exists x :: x in all && x.key == key
  {
  }

  lemma OtherBuckets<V>(murmur: Key -> uint32, bits: nat, cs: seq<seq<Entry<V>>>, all: set<Entry<V>>, b: nat)
    requires bits > 0 && Sorted(murmur, bits, cs, all) && b < |cs|
    ensures forall c, x :: 0 <= c < |cs| && c != b && x in cs[c] ==> x !in cs[b]
    ensures forall j, k :: 0 <= j < k < |cs[b]| ==> cs[b][j] != cs[b][k]
  {
    assert BucketOk(murmur, bits, b, cs[b], all);
    forall c, x | 0 <= c < |cs| && c != b && x in cs[c] ensures x !in cs[b] {
      assert BucketOk(murmur, bits, c, cs[c], all);
    }
  }

  lemma MoreRepresents<V>(all: set<Entry<V>>, e: Entry<V>, m: map<Key, V>)
    requires Represents(all, m) && e.key !in m
    ensures Represents(all + {e}, m[e.key := e.data]) && |m[e.key := e.data]| == |m| + 1
  {
    var after := m[e.key := e.data];
    forall k | k in after ensures exists x :: x in all + {e} && x.key == k {
      if k != e.key {
        var x :| x in all && x.key == k;
        assert x in all + {e};
      } else {
        assert e in all + {e};
      }
    }
  }

  lemma LessRepresents<V>(all: set<Entry<V>>, e: Entry<V>, m: map<Key, V>)
    requires Represents(all, m) && e in all && forall x :: x in all && x.key == e.key ==> x == e
    ensures Represents(all - {e}, m - {e.key}) && |m - {e.key}| == |m| - 1
  {
    var after := m - {e.key};
    forall k | k in after ensures exists x :: x in all - {e} && x.key == k {
      var x :| x in all && x.key == k;
      assert x in all - {e};
    }
    assert m == after[e.key := e.data];
  }

  // ----- iterating -----

  /** Every pair of `m` once. */
  ghost predicate ListsOnce<V>(pairs: seq<(Key, V)>, m: map<Key, V>) {
    && (forall i, j :: 0 <= i < j < |pairs| ==> pairs[i].0 != pairs[j].0)
    && (forall i :: 0 <= i < |pairs| ==> pairs[i].0 in m && m[pairs[i].0] == pairs[i].1)
    && (forall k :: k in m ==> exists i :: 0 <= i < |pairs| && pairs[i].0 == k)
  }

  lemma ListsAll<V>(pairs: seq<(Key, V)>, m: map<Key, V>)
    requires ListsOnce(pairs, m)
    ensures |pairs| == |m|
  {
    assert KeysOf(pairs, |pairs|) == m.Keys;
  }

  ghost function KeysOf<V>(pairs: seq<(Key, V)>, n: nat): (ks: set<Key>)
    requires n <= |pairs| && forall i, j :: 0 <= i < j < |pairs| ==> pairs[i].0 != pairs[j].0
    ensures |ks| == n && forall k :: k in ks <==> exists i :: 0 <= i < n && pairs[i].0 == k
  {
    if n == 0 then {} else KeysOf(pairs, n - 1) + {pairs[n - 1].0}
  }

  /** The pairs of a chain's first `k` entries. */
  ghost function Pairs<V>(c: seq<Entry<V>>, k: nat): (ps: seq<(Key, V)>)
    requires k <= |c|
    ensures |ps| == k && forall i :: 0 <= i < k ==> ps[i] == (c[i].key, c[i].data)
  {
    seq(k, i requires 0 <= i < k => (c[i].key, c[i].data))
  }

  ghost function AllPairs<V>(cs: seq<seq<Entry<V>>>, n: nat): seq<(Key, V)>
    requires n <= |cs|
  {
    if n == 0 then [] else AllPairs(cs, n - 1) + Pairs(cs[n - 1], |cs[n - 1]|)
  }

  /** What the pairs of the first `n` buckets are. */
  lemma {:induction false} AllPairsAre<V>(murmur: Key -> uint32, bits: nat, cs: seq<seq<Entry<V>>>, all: set<Entry<V>>, n: nat)
    requires bits > 0 && Sorted(murmur, bits, cs, all) && n <= |cs|
    ensures var ps := AllPairs(cs, n);
      && (forall p :: p in ps ==> IsPair(all, p) && Fold(murmur(p.0), bits) < n)
      && (forall i, j :: 0 <= i < j < |ps| ==> ps[i].0 != ps[j].0)
      && (forall e :: e in all && Fold(murmur(e.key), bits) < n ==> (e.key, e.data) in ps)
  {
    if n > 0 {
      AllPairsAre(murmur, bits, cs, all, n - 1);
      var c := cs[n - 1];
      assert BucketOk(murmur, bits, n - 1, c, all);
      var before, more := AllPairs(cs, n - 1), Pairs(c, |c|);
      forall e | e in all && Fold(murmur(e.key), bits) == n - 1 ensures (e.key, e.data) in more {
        var i :| 0 <= i < |c| && c[i] == e;
        assert more[i] == (e.key, e.data);
      }
      forall p | p in more ensures IsPair(all, p) && Fold(murmur(p.0), bits) == n - 1 {
        var i :| 0 <= i < |c| && more[i] == p;
        assert c[i] in all;
      }
    }
  }

  ghost predicate IsPair<V>(all: set<Entry<V>>, p: (Key, V)) {
    exists e :: e in all && e.key == p.0 && e.data == p.1
  }

  lemma PairsListOnce<V>(murmur: Key -> uint32, bits: nat, cs: seq<seq<Entry<V>>>, all: set<Entry<V>>, m: map<Key, V>)
    requires bits > 0 && Sorted(murmur, bits, cs, all) && Represents(all, m)
    ensures ListsOnce(AllPairs(cs, |cs|), m)
  {
    var ps := AllPairs(cs, |cs|);
    AllPairsAre(murmur, bits, cs, all, |cs|);
    forall i | 0 <= i < |ps| ensures ps[i].0 in m && m[ps[i].0] == ps[i].1 {
      assert ps[i] in ps;
    }
    forall k | k in m ensures exists i :: 0 <= i < |ps| && ps[i].0 == k {
      var e :| e in all && e.key == k;
      assert (e.key, e.data) in ps;
    }
  }

  /** `hashtable_for_each`: the pairs its callback is called with, in order. */
  method ForEach<V>(t: Table<V>) returns (visited: seq<(Key, V)>)
    requires t.Valid()
    ensures ListsOnce(visited, t.contents)
  {
    hide Fold, Pow2, Represents, Sorted;
    assert |t.chains| == t.buckets.Length by { SlotInRange(t.murmur, t.numBits, t.chains, t.entries, []); }
    visited := [];
    for i := 0 to t.buckets.Length
      invariant visited == AllPairs(t.chains, i)
    {
      ghost var c := t.chains[i];
      assert Linked(t.buckets[..][i], c);
      var e := t.buckets[i];
      ghost var k := 0;
      while e != null
        invariant k <= |c| && LinkedFrom(e, c, k) && visited == AllPairs(t.chains, i) + Pairs(c, k)
        decreases |c| - k
      {
        NextFrom(e, c, k);
        var next := e.next;
        visited := visited + [(e.key, e.data)];
        assert Pairs(c, k + 1) == Pairs(c, k) + [(e.key, e.data)];
        e := next;
        k := k + 1;
      }
    }
    PairsListOnce(t.murmur, t.numBits, t.chains, t.entries, t.contents);
  }

  /** `hashtable_linearize`: the buffer is sized by `count`, and the visit fills it exactly. */
  method Linearize<V(0)>(t: Table<V>) returns (buf: array?<V>, ghost pairs: seq<(Key, V)>)
    requires t.Valid() && |t.contents| < TWO_32
    ensures buf == null <==> t.contents == map[]
    ensures ListsOnce(pairs, t.contents)
    ensures buf != null ==> buf.Length == |pairs| && forall i :: 0 <= i < |pairs| ==> buf[i] == pairs[i].1
  {
    hide AllLinked, Sorted, Represents;
    var n := t.count;
    var visited := ForEach(t);
    pairs := visited;
    ListsAll(visited, t.contents);
    if n == 0 {
      return null, pairs;
    }
    buf := new V[n];
    for idx := 0 to |visited|
      invariant forall i :: 0 <= i < idx ==> buf[i] == visited[i].1
    {
      buf[idx] := visited[idx].1;
    }
  }
}
