/**
 core/cfheader-store.c: the file of filter headers, byte by byte, in both of its formats. The
 functions say what the bytes mean and what each operation writes; the class does it with a file
 offset and in-memory entries, as the source does. Writes may be cut short after any byte, and
 the file may be cut off anywhere, between one run and the next.
 */
module CfHeaderStore {
  import opened Bytes
  import opened Outcomes

  type int32 = x: int | -0x8000_0000 <= x < 0x8000_0000

  const V1_SIZE := 9
  const V2_SIZE := 13
  const RECORD := 68

  datatype Entry = Entry(height: int32, header: Bytes32, hash: Bytes32)

  /** The two's complement of an int. */
  function ToU32(v: int): (u: nat)
    ensures u < TWO_32
  {
    v % TWO_32
  }

  function ToI32(u: nat): (v: int32)
    requires u < TWO_32
  {
    if u >= 0x8000_0000 then u - TWO_32 else u
  }

  function LE32(v: int): (bs: seq<byte>)
    ensures |bs| == 4
  {
    ToLE(ToU32(v), 4)
  }

  function Read32(bs: seq<byte>): int32
    requires |bs| == 4
  {
    Widths(); ToFromLE(bs);
    ToI32(FromLE(bs))
  }

  lemma ReadLE32(v: int32)
    ensures Read32(LE32(v)) == v
  {
    Widths();
    FromToLE(ToU32(v), 4);
  }

  function Record(e: Entry): (rec: seq<byte>)
    ensures |rec| == RECORD
  {
    LE32(e.height) + e.header + e.hash
  }

  function ParseRecord(rec: seq<byte>): Entry
    requires |rec| == RECORD
  {
    Entry(Read32(rec[..4]), rec[4..36], rec[36..])
  }

  lemma RecordRoundTrip(e: Entry)
    ensures ParseRecord(Record(e)) == e
  {
    var rec := Record(e);
    ReadLE32(e.height);
    assert rec[..4] == LE32(e.height) && rec[4..36] == e.header && rec[36..] == e.hash;
  }

  /** Magic and version. */
  function Prefix(size: nat): (bs: seq<byte>)
    ensures |bs| == 5
  {
    [0x42, 0x54, 0x43, 0x46, if size == V2_SIZE then 2 else 1]
  }

  /** The file header in the format with this header size. */
  function HeaderBytes(size: nat, count: int, base: int): (bs: seq<byte>)
    requires size == V1_SIZE || size == V2_SIZE
    ensures |bs| == size
  {
    Prefix(size) + LE32(count) + if size == V2_SIZE then LE32(base) else []
  }

  /** A record in the file: the height in 4 bytes, the lowest first, the filter header, the filter hash. */
  lemma RecordLayout(e: Entry)
    ensures var rec := Record(e);
      |rec| == 68 && FromLE(rec[..4]) == e.height % 0x1_0000_0000 && rec[4..36] == e.header && rec[36..68] == e.hash
  {
    Widths();
    FromToLE(ToU32(e.height), 4);
    var rec := Record(e);
    assert rec[..4] == LE32(e.height) && rec[4..36] == e.header && rec[36..] == e.hash;
  }

  /** The file header: "BTCF", the version, the number of records, and in version 2 the height of the
      first one. */
  lemma HeaderLayout(size: nat, count: nat, base: int32)
    requires (size == 9 || size == 13) && count < 0x1_0000_0000
    ensures var bs := HeaderBytes(size, count, base);
      && |bs| == size && bs[..4] == [0x42, 0x54, 0x43, 0x46] && bs[4] == (if size == 9 then 1 else 2)
      && FromLE(bs[5..9]) == count && (size == 13 ==> FromLE(bs[9..]) == base % 0x1_0000_0000)
  {
    Widths();
    FromToLE(ToU32(count), 4);
    FromToLE(ToU32(base), 4);
    var bs := HeaderBytes(size, count, base);
    assert bs[5..9] == LE32(count) && (size == 13 ==> bs[9..] == LE32(base));
  }

  /** What a write at `pos` makes of a file. */
  function WriteAt(file: seq<byte>, pos: nat, bs: seq<byte>): (r: seq<byte>)
    requires pos <= |file|
    ensures |r| == if |file| >= pos + |bs| then |file| else pos + |bs|
    ensures forall i :: 0 <= i < |r| ==> r[i] == if pos <= i < pos + |bs| then bs[i - pos] else file[i]
  {
    file[..pos] + bs + if |file| >= pos + |bs| then file[pos + |bs|..] else []
  }

  function RecordAt(file: seq<byte>, size: nat, i: nat): (rec: seq<byte>)
    requires size + RECORD * (i + 1) <= |file|
    ensures |rec| == RECORD
  {
    file[size + RECORD * i..size + RECORD * (i + 1)]
  }

  datatype Store = Store(size: nat, base: int, entries: seq<Entry>, file: seq<byte>)

  /** The file has an intact header of this size. */
  predicate Headed(file: seq<byte>, size: nat) {
    (size == V1_SIZE || size == V2_SIZE) && |file| >= size && file[..5] == Prefix(size)
  }

  function StoredCount(file: seq<byte>): int32
    requires |file| >= 9
  {
    Read32(file[5..9])
  }

  /** How many records `cfheaderstore_init` reads: the count in the header, or as many whole
      records as the file holds if that is fewer. */
  function Readable(file: seq<byte>, size: nat): (m: nat)
    requires Headed(file, size)
    ensures size + RECORD * m <= |file| && m < 0x8000_0000
  {
    var count, whole := StoredCount(file), (|file| - size) / RECORD;
    if count < 0 then 0 else if count < whole then count else whole
  }

  function BaseOf(size: nat, entries: seq<Entry>): int {
    if entries != [] then entries[0].height else if size == V1_SIZE then 0 else -1
  }

  /** The records `cfheaderstore_init` reads. */
  function ReadEntries(file: seq<byte>, size: nat, m: nat): (es: seq<Entry>)
    requires size + RECORD * m <= |file|
    ensures |es| == m
  {
    seq(m, i requires 0 <= i < m => (assert size + RECORD * (i + 1) <= |file|; ParseRecord(RecordAt(file, size, i))))
  }

  function Empty(file: seq<byte>): Store {
    Store(V2_SIZE, -1, [], WriteAt(file, 0, HeaderBytes(V2_SIZE, 0, -1)))
  }

  /** `cfheaderstore_init` on a file with these bytes. */
  function Init(file: seq<byte>): Store {
    if Headed(file, V1_SIZE) then InitAs(file, V1_SIZE)
    else if Headed(file, V2_SIZE) then InitAs(file, V2_SIZE)
    else Empty(file)
  }

  function InitAs(file: seq<byte>, size: nat): Store
    requires Headed(file, size)
  {
    var m := Readable(file, size);
    var es := ReadEntries(file, size, m);
    var base := BaseOf(size, es);
    Store(size, base, es, if m == StoredCount(file) then file else WriteAt(file, 0, HeaderBytes(size, m, base)))
  }

  function Tip(s: Store): int {
    if s.entries == [] then -1 else s.entries[|s.entries| - 1].height
  }

  /** `cfheaderstore_append` takes this height next. */
  predicate Accepts(s: Store, height: int) {
    if s.entries == [] then s.base < 0 || height == s.base else height == Tip(s) + 1
  }

  /** `cfheaderstore_append` when `n` bytes of the record and then `k` bytes of the header reach
      the file; the result says whether it reports success. */
  function Append(s: Store, e: Entry, n: nat, k: nat): (r: (Store, bool))
    requires Sound(s)
  {
    var rec, offset := Record(e), s.size + |s.entries| * RECORD;
    if !Accepts(s, e.height) then (s, false)
    else if n < RECORD then (s.(file := WriteAt(s.file, offset, rec[..n])), false)
    else
      var base := if s.entries == [] then e.height else s.base;
      var entries := s.entries + [e];
      var hdr := HeaderBytes(s.size, |entries|, base);
      var file := WriteAt(s.file, offset, rec);
      (Store(s.size, base, entries, WriteAt(file, 0, if k < |hdr| then hdr[..k] else hdr)), k >= |hdr|)
  }

  // ----- what always holds -----

  /** The file has the entries of `all` as records, as far as it goes, and does not claim more. */
  ghost predicate Backs(file: seq<byte>, size: nat, all: seq<Entry>) {
    && Headed(file, size) && StoredCount(file) <= |all|
    && forall i :: 0 <= i < |all| && size + RECORD * (i + 1) <= |file| ==> RecordAt(file, size, i) == Record(all[i])
  }

  predicate Sound(s: Store) {
    && Headed(s.file, s.size) && |s.file| >= s.size + |s.entries| * RECORD
    && s.base == BaseOf(s.size, s.entries)
  }

  /** The entries have consecutive heights, and everything in memory is in the file. */
  ghost predicate Valid(s: Store) {
    Sound(s) && Backs(s.file, s.size, s.entries) && Contiguous(s.entries)
  }

  ghost predicate Contiguous(es: seq<Entry>) {
    forall i :: 0 <= i < |es| ==> es[i].height == es[0].height + i
  }

  /** The header in the file counts every entry. */
  ghost predicate Flushed(s: Store) {
    Sound(s) && StoredCount(s.file) == |s.entries|
  }

  lemma HeadedSlices(file: seq<byte>, size: nat, count: int32, base: int)
    requires size == V1_SIZE || size == V2_SIZE
    ensures var r := WriteAt(file, 0, HeaderBytes(size, count, base));
      Headed(r, size) && StoredCount(r) == count
  {
    var hdr := HeaderBytes(size, count, base);
    var r := WriteAt(file, 0, hdr);
    assert r[..5] == Prefix(size);
    assert r[5..9] == LE32(count);
    ReadLE32(count);
  }

  /** Bytes outside a record do not matter to it. */
  lemma RecordFrame(a: seq<byte>, b: seq<byte>, size: nat, i: nat)
    requires size + RECORD * (i + 1) <= |a| && size + RECORD * (i + 1) <= |b|
    requires forall k :: size + RECORD * i <= k < size + RECORD * (i + 1) ==> a[k] == b[k]
    ensures RecordAt(a, size, i) == RecordAt(b, size, i)
  {
  }

  /** Opening a file reads the longest prefix of what it backs that it claims and holds whole, and
      leaves memory and file in agreement. */
  lemma InitReadsPrefix(file: seq<byte>, size: nat, all: seq<Entry>)
    requires Backs(file, size, all) && Contiguous(all)
    ensures var s := Init(file);
      && Readable(file, size) <= |all| && s.entries == all[..Readable(file, size)] && s.size == size
      && Valid(s) && Flushed(s)
  {
    var m := Readable(file, size);
    var es := ReadEntries(file, size, m);
    OneVersion(file, size);
    forall i | 0 <= i < m ensures es[i] == all[i] {
      assert RecordAt(file, size, i) == Record(all[i]);
      RecordRoundTrip(all[i]);
    }
    assert es == all[..m];
    InitKeeps(file, size);
  }

  lemma OneVersion(file: seq<byte>, size: nat)
    requires Headed(file, size)
    ensures Init(file) == InitAs(file, size)
  {
    assert file[..5][4] == file[4];
    assert Prefix(V1_SIZE)[4] != Prefix(V2_SIZE)[4];
  }

  /** The header rewrite at the end of opening leaves the records alone. */
  lemma InitKeeps(file: seq<byte>, size: nat)
    requires Headed(file, size)
    ensures var s := InitAs(file, size);
      Sound(s) && Flushed(s) && Backs(s.file, size, s.entries)
  {
    var s := InitAs(file, size);
    var m := Readable(file, size);
    HeadedSlices(file, size, m, s.base);
    forall i | 0 <= i < m ensures RecordAt(s.file, size, i) == Record(s.entries[i]) {
      RecordFrame(file, s.file, size, i);
      ParseExact(RecordAt(file, size, i));
    }
  }

  /** Opening leaves the file as it is if its count is right, and else rewrites its header only. */
  lemma InitWrites(file: seq<byte>, size: nat)
    requires Headed(file, size)
    ensures var s := Init(file);
      if StoredCount(file) == |s.entries| then s.file == file
      else s.file == HeaderBytes(size, |s.entries|, s.base) + file[size..]
  {
    OneVersion(file, size);
  }

  lemma ParseExact(rec: seq<byte>)
    requires |rec| == RECORD
    ensures Record(ParseRecord(rec)) == rec
  {
    Widths();
    var h := rec[..4];
    ToFromLE(h);
    assert ToU32(ToI32(FromLE(h))) == FromLE(h);
    assert LE32(Read32(h)) == h;
  }

  /** A file cut off anywhere above its header backs the same entries. */
  lemma CutBacks(file: seq<byte>, size: nat, all: seq<Entry>, len: nat)
    requires Backs(file, size, all) && size <= len <= |file|
    ensures Backs(file[..len], size, all) && StoredCount(file[..len]) == StoredCount(file)
  {
    var cut := file[..len];
    assert cut[..5] == file[..5] && cut[5..9] == file[5..9];
    forall i | 0 <= i < |all| && size + RECORD * (i + 1) <= |cut| ensures RecordAt(cut, size, i) == Record(all[i]) {
      RecordFrame(file, cut, size, i);
    }
  }

  /** A file cut off inside its header opens as an empty store. */
  lemma CutHeader(file: seq<byte>, size: nat, len: nat)
    requires Headed(file, size) && len < size
    ensures var s := Init(file[..len]); s.entries == [] && Valid(s) && Flushed(s)
  {
    var cut := file[..len];
    if len >= 5 {
      assert cut[..5] == file[..5];
      assert cut[..5][4] == Prefix(size)[4];
    }
    HeadedSlices(cut, V2_SIZE, 0, -1);
  }

  // ----- appending -----

  /** Low bytes of the new count over high bytes of an old one that is no larger. */
  lemma {:induction false} TornCount(new_: nat, old_: nat, n: nat, j: nat)
    requires j <= n && old_ <= new_ < Pow256(n)
    ensures FromLE(ToLE(new_, n)[..j] + ToLE(old_, n)[j..]) <= new_
  {
    var a, b := ToLE(new_, n), ToLE(old_, n);
    if j == 0 {
      assert a[..0] + b[0..] == b;
      FromToLE(old_, n);
    } else {
      TornCount(new_ / 256, old_ / 256, n - 1, j - 1);
      var mix := a[..j] + b[j..];
      assert mix[1..] == ToLE(new_ / 256, n - 1)[..j - 1] + ToLE(old_ / 256, n - 1)[j - 1..];
    }
  }

  /** The number with `j` low bytes of one and the high bytes of another. */
  function Torn(new_: nat, old_: nat, j: nat): int {
    new_ % Pow256(j) + old_ / Pow256(j) * Pow256(j)
  }

  /** Which count low bytes of the new one over high bytes of the old one make. */
  lemma {:induction false} TornCountIs(new_: nat, old_: nat, n: nat, j: nat)
    requires j <= n && old_ < Pow256(n)
    ensures FromLE(ToLE(new_, n)[..j] + ToLE(old_, n)[j..]) == Torn(new_, old_, j)
  {
    var a, b := ToLE(new_, n), ToLE(old_, n);
    if j == 0 {
      assert a[..0] + b[0..] == b;
      FromToLE(old_, n);
      assert Pow256(0) == 1;
    } else {
      TornCountIs(new_ / 256, old_ / 256, n - 1, j - 1);
      var mix := a[..j] + b[j..];
      assert mix[1..] == ToLE(new_ / 256, n - 1)[..j - 1] + ToLE(old_ / 256, n - 1)[j - 1..];
      TornDigit(new_, old_, j);
    }
  }

  lemma TornDigit(new_: nat, old_: nat, j: nat)
    requires j > 0
    ensures Torn(new_, old_, j) == new_ % 256 + 256 * Torn(new_ / 256, old_ / 256, j - 1)
  {
    var p := Pow256(j - 1);
    assert Pow256(j) == 256 * p;
    DigitMod(new_, p);
    DigitDiv(old_, p);
  }

  lemma DigitMod(v: nat, p: nat)
    requires p > 0
    ensures v % (256 * p) == v % 256 + 256 * (v / 256 % p)
  {
    var q := v / 256;
    var r := v % 256 + 256 * (q % p);
    assert v == 256 * p * (q / p) + r by {
      assert q == p * (q / p) + q % p;
      assert 256 * (p * (q / p)) == 256 * p * (q / p);
    }
    assert 0 <= r < 256 * p;
    ModIs(v, 256 * p, q / p, r);
  }

  lemma DigitDiv(v: nat, p: nat)
    requires p > 0
    ensures v / (256 * p) == v / 256 / p && v / (256 * p) * (256 * p) == 256 * (v / 256 / p * p)
  {
    var q := v / 256;
    assert v == 256 * p * (q / p) + (v % 256 + 256 * (q % p)) by {
      assert q == p * (q / p) + q % p;
      assert 256 * (p * (q / p)) == 256 * p * (q / p);
    }
    ModIs(v, 256 * p, q / p, v % 256 + 256 * (q % p));
    assert q / p * (256 * p) == 256 * (q / p * p);
  }

  /** How many bytes of the count the first `k` bytes of a file header hold. */
  function CountBytes(k: nat): (j: nat)
    ensures j <= 4
  {
    if k <= 5 then 0 else if k >= 9 then 4 else k - 5
  }

  lemma TornField(file: seq<byte>, hdr: seq<byte>, k: nat)
    requires 9 <= |hdr| <= |file| && k <= |hdr|
    ensures var j := CountBytes(k); WriteAt(file, 0, hdr[..k])[5..9] == hdr[5..9][..j] + file[5..9][j..]
    ensures hdr[..5] == file[..5] ==> WriteAt(file, 0, hdr[..k])[..5] == file[..5]
  {
    var r, j := WriteAt(file, 0, hdr[..k]), CountBytes(k);
    forall i | 0 <= i < 4 ensures r[5..9][i] == (hdr[5..9][..j] + file[5..9][j..])[i] {
      assert r[5..9][i] == r[5 + i];
      assert r[5 + i] == if 5 + i < k then hdr[5 + i] else file[5 + i];
    }
    if hdr[..5] == file[..5] {
      forall i | 0 <= i < 5 ensures r[..5][i] == file[..5][i] {
        assert hdr[..5][i] == file[..5][i];
      }
    }
  }

  /** What the low bytes of a new count over the high bytes of an old one read as. */
  lemma TornRead(count: nat, was: seq<byte>, j: nat)
    requires count < 0x8000_0000 && |was| == 4 && Read32(was) <= count && j <= 4
    ensures var r := Read32(ToLE(count, 4)[..j] + was[j..]); r <= count && ToU32(r) == Torn(count, FromLE(was), j)
  {
    hide FromLE, ToLE, Torn;
    var c := FromLE(was);
    Widths();
    ToFromLE(was);
    assert ToLE(c, 4) == was;
    TornCountIs(count, c, 4, j);
    ReadBack(ToLE(count, 4)[..j] + was[j..]);
    if c < 0x8000_0000 {
      TornCount(count, c, 4, j);
    } else {
      TornNegative(count, c, j);
    }
  }

  /** A header write cut short after any byte leaves the low bytes of the new count over the high
      bytes of the old one, which is no larger than the new one. */
  lemma TornHeader(file: seq<byte>, size: nat, count: int32, base: int, k: nat)
    requires Headed(file, size) && StoredCount(file) <= count && 0 <= count && k <= size
    ensures var r := WriteAt(file, 0, HeaderBytes(size, count, base)[..k]);
      && Headed(r, size) && StoredCount(r) <= count
      && ToU32(StoredCount(r)) == Torn(count, ToU32(StoredCount(file)), CountBytes(k))
  {
    hide FromLE, ToLE, WriteAt, Torn;
    var hdr := HeaderBytes(size, count, base);
    assert hdr[..5] == Prefix(size) && hdr[5..9] == ToLE(count, 4);
    TornField(file, hdr, k);
    ReadBack(file[5..9]);
    TornRead(count, file[5..9], CountBytes(k));
  }

  lemma ReadBack(bs: seq<byte>)
    requires |bs| == 4
    ensures ToU32(Read32(bs)) == FromLE(bs)
  {
    Widths();
    ToFromLE(bs);
  }

  /** The same when the old count reads as negative: the torn count does too, or is small. */
  lemma TornNegative(count: nat, c: nat, j: nat)
    requires count < 0x8000_0000 <= c < TWO_32 && j <= 4
    ensures FromLE(ToLE(count, 4)[..j] + ToLE(c, 4)[j..]) < TWO_32
    ensures Read32(ToLE(count, 4)[..j] + ToLE(c, 4)[j..]) <= count
  {
    var a, b := ToLE(count, 4), ToLE(c, 4);
    var mix := a[..j] + b[j..];
    Widths();
    FromToLE(c, 4);
    FromToLE(count, 4);
    ToFromLE(mix);
    FromLE4(mix);
    FromLE4(b);
    if j < 4 {
      assert mix[3] == b[3];
    } else {
      assert mix == a;
    }
  }

  lemma ContiguousSnoc(es: seq<Entry>, e: Entry)
    requires Contiguous(es) && (es != [] ==> e.height == es[|es| - 1].height + 1)
    ensures Contiguous(es + [e])
  {
  }

  /** A record written after the last one, whole or cut short. */
  lemma RecordWritten(s: Store, e: Entry, n: nat)
    requires Valid(s) && n <= RECORD
    ensures var r := WriteAt(s.file, s.size + |s.entries| * RECORD, Record(e)[..n]);
      && Headed(r, s.size) && StoredCount(r) == StoredCount(s.file) && Backs(r, s.size, s.entries)
      && (n == RECORD ==> Backs(r, s.size, s.entries + [e]) && |r| >= s.size + (|s.entries| + 1) * RECORD)
  {
    var offset := s.size + |s.entries| * RECORD;
    var rec := Record(e);
    var r := WriteAt(s.file, offset, rec[..n]);
    assert r[..5] == s.file[..5] && r[5..9] == s.file[5..9];
    forall i | 0 <= i < |s.entries| ensures RecordAt(r, s.size, i) == Record(s.entries[i]) {
      RecordFrame(s.file, r, s.size, i);
    }
    if n == RECORD {
      assert RecordAt(r, s.size, |s.entries|) == rec;
    }
  }

  /** Which heights an append takes: the next one; for the first entry any height in the new format, and
      0 in the old one. */
  lemma AcceptsExactly(s: Store, height: int)
    requires Valid(s)
    ensures Accepts(s, height) <==>
      if s.entries == [] then s.size == 13 || height == 0 else height == s.entries[0].height + |s.entries|
  {
  }

  /** A file without one of the two headers, and one cut off inside it, is started over: an empty store
      in the new format, whose header is at its front. */
  lemma ForeignFile(file: seq<byte>)
    requires |file| < 9 || file[..4] != [0x42, 0x54, 0x43, 0x46] || file[4] < 1 || file[4] > 2 || (file[4] == 2 && |file| < 13)
    ensures var s := Init(file);
      && s.size == 13 && s.base == -1 && s.entries == [] && Valid(s) && Flushed(s)
      && |s.file| == (if |file| < 13 then 13 else |file|) && s.file[..13] == HeaderBytes(13, 0, -1)
  {
    if |file| >= 5 {
      assert file[..5][..4] == file[..4] && file[..5][4] == file[4];
      assert Prefix(V1_SIZE)[..4] == [0x42, 0x54, 0x43, 0x46] && Prefix(V2_SIZE)[..4] == [0x42, 0x54, 0x43, 0x46];
      assert Prefix(V1_SIZE)[4] == 1 && Prefix(V2_SIZE)[4] == 2;
    }
    HeadedSlices(file, V2_SIZE, 0, -1);
  }

  /** A header write, whole or cut short, over a file that backs all the entries it counts. */
  lemma HeaderWritten(file: seq<byte>, size: nat, all: seq<Entry>, base: int, k: nat)
    requires Backs(file, size, all) && |all| < 0x8000_0000 && k <= size
    ensures var r := WriteAt(file, 0, HeaderBytes(size, |all|, base)[..k]); Backs(r, size, all) && |r| == |file|
  {
    var r := WriteAt(file, 0, HeaderBytes(size, |all|, base)[..k]);
    TornHeader(file, size, |all|, base, k);
    forall i | 0 <= i < |all| && size + RECORD * (i + 1) <= |r| ensures RecordAt(r, size, i) == Record(all[i]) {
      RecordFrame(file, r, size, i);
    }
  }

  /** An append adds the entry or changes nothing, even if its writes are cut short; memory and
      file stay in step, and a successful one counts the entry in the file. */
  lemma AppendKeeps(s: Store, e: Entry, n: nat, k: nat)
    requires Valid(s) && |s.entries| + 1 < 0x8000_0000
    ensures var r := Append(s, e, n, k).0;
      Valid(r) && r.entries == if Accepts(s, e.height) && n >= RECORD then s.entries + [e] else s.entries
    ensures Append(s, e, n, k).1 <==> Accepts(s, e.height) && n >= RECORD && k >= s.size
    ensures Append(s, e, n, k).1 ==> Flushed(Append(s, e, n, k).0)
  {
    hide Record, Prefix, StoredCount, RecordAt;
    var rec := Record(e);
    if Accepts(s, e.height) {
      var w := if n < RECORD then n else RECORD;
      RecordWritten(s, e, w);
      if n >= RECORD {
        assert rec[..RECORD] == rec;
        var all := s.entries + [e];
        var base := if s.entries == [] then e.height else s.base;
        var file := WriteAt(s.file, s.size + |s.entries| * RECORD, rec);
        var hdr := HeaderBytes(s.size, |all|, base);
        assert hdr[..|hdr|] == hdr;
        HeaderWritten(file, s.size, all, base, if k < |hdr| then k else |hdr|);
        HeadedSlices(file, s.size, |all|, base);
        ContiguousSnoc(s.entries, e);
      }
    }
  }

  // ----- runs with crashes -----

  /** What may happen between and during calls: an append whose writes reach the file up to some
      byte each, and a restart after the file lost everything from some byte on. */
  datatype Event = Appends(e: Entry, recordBytes: nat, headerBytes: nat) | Restarts(len: nat)

  ghost function Step(s: Store, ev: Event): Store
    requires Sound(s)
  {
    match ev
    case Appends(e, n, k) => Append(s, e, n, k).0
    case Restarts(len) => Init(if len < |s.file| then s.file[..len] else s.file)
  }

  /** How many entries are found again after the file lost everything from byte `len` on: as many as
      its header counts and it holds whole. */
  ghost function Surviving(s: Store, len: nat): nat
    requires Sound(s)
  {
    var left := if len < |s.file| then len else |s.file|;
    if left < s.size || StoredCount(s.file) < 0 then 0
    else
      var whole := (left - s.size) / RECORD;
      if StoredCount(s.file) < whole then StoredCount(s.file) else whole
  }

  /** They are as many as there can be: counted by the header, with all their records in what is left, and
      with one more either not counted or not all there. */
  lemma SurvivingIsMost(s: Store, len: nat)
    requires Sound(s)
    ensures var left := if len < |s.file| then len else |s.file|;
      var count, m := StoredCount(s.file), Surviving(s, len);
      if left < s.size || count < 0 then m == 0
      else m <= count && s.size + 68 * m <= left && (m == count || s.size + 68 * (m + 1) > left)
  {
  }

  /** Every event leaves a valid store, whose entries are exactly the surviving ones, in order, or the
      ones before it and perhaps the appended one. */
  lemma StepKeeps(s: Store, ev: Event)
    requires Valid(s) && |s.entries| + 1 < 0x8000_0000
    ensures var r := Step(s, ev);
      && Valid(r)
      && (ev.Appends? ==>
            r.entries == if Accepts(s, ev.e.height) && ev.recordBytes >= RECORD then s.entries + [ev.e] else s.entries)
      && (ev.Restarts? ==>
            Surviving(s, ev.len) <= |s.entries| && r.entries == s.entries[..Surviving(s, ev.len)] && Flushed(r))
      && (ev.Restarts? && Flushed(s) && ev.len >= |s.file| ==> r.entries == s.entries && r.base == s.base)
  {
    hide Append, Backs, Prefix, StoredCount, InitAs;
    match ev
    case Appends(e, n, k) => AppendKeeps(s, e, n, k);
    case Restarts(len) =>
      var cut := if len < |s.file| then s.file[..len] else s.file;
      if len < |s.file| && len < s.size {
        CutHeader(s.file, s.size, len);
      } else {
        if len < |s.file| {
          CutBacks(s.file, s.size, s.entries, len);
        }
        InitReadsPrefix(cut, s.size, s.entries);
        assert s.entries[..|s.entries|] == s.entries;
      }
  }

  /** The count with its `j` low bytes new and the others as they were for one less: nothing is lost
      unless the low bytes carry, and then 256^j is. */
  function Carried(n: nat, j: nat): int {
    if n % Pow256(j) == 0 then n - Pow256(j) else n
  }

  /** What may be lost: one entry if no byte of the count was written, none if all were, and with one,
      two or three of them 256, 65,536 or 16,777,216 entries, if the count just became a multiple of
      that, and none if it did not. */
  lemma CarriedExact(n: nat)
    requires 0 < n < 0x8000_0000
    ensures Carried(n, 0) == n - 1 && Carried(n, 4) == n
    ensures Carried(n, 1) == (if n % 0x100 == 0 then n - 0x100 else n)
    ensures Carried(n, 2) == (if n % 0x1_0000 == 0 then n - 0x1_0000 else n)
    ensures Carried(n, 3) == (if n % 0x100_0000 == 0 then n - 0x100_0000 else n)
  {
    Widths();
    assert Pow256(0) == 1 && Pow256(3) == 0x100_0000;
  }

  /** What a crash in the middle of an append leaves, once the record is written and the file was up
      to date: with `j` bytes of the new count written, the append survives unless they carry into
      the rest, and then 256^j entries are lost. All or nothing of the header loses one at most. */
  lemma TornAppendSurvives(s: Store, e: Entry, k: nat)
    requires Valid(s) && Flushed(s) && |s.entries| + 1 < 0x8000_0000 && Accepts(s, e.height)
    ensures var r := Append(s, e, RECORD, k).0;
      var n, j := |s.entries| + 1, CountBytes(k);
      && Sound(r) && Surviving(r, |r.file|) == Carried(n, j)
      && (k == 0 ==> Surviving(r, |r.file|) == n - 1) && (k >= s.size ==> Surviving(r, |r.file|) == n)
  {
    hide Append, Backs, Contiguous, StoredCount, Surviving, Torn, Carried, Flushed, Accepts;
    var r := Append(s, e, RECORD, k).0;
    AppendKeeps(s, e, RECORD, k);
    var n, j := |s.entries| + 1, CountBytes(k);
    TornStored(s, e, k);
    CarryOnly(n, j);
    SizeStays(s, e, k);
    AllWhole(r);
    CarriedExact(n);
  }

  lemma SizeStays(s: Store, e: Entry, k: nat)
    requires Sound(s)
    ensures Append(s, e, RECORD, k).0.size == s.size
  {
  }

  /** No file is shorter than its entries, so what its header counts survives. */
  lemma AllWhole(s: Store)
    requires Sound(s) && 0 <= StoredCount(s.file) <= |s.entries|
    ensures Surviving(s, |s.file|) == StoredCount(s.file)
  {
  }

  /** The file after an append whose header write is cut short. */
  lemma AppendFile(s: Store, e: Entry, k: nat)
    requires Sound(s) && Accepts(s, e.height)
    ensures var hdr := HeaderBytes(s.size, |s.entries| + 1, if s.entries == [] then e.height else s.base);
      Append(s, e, RECORD, k).0.file ==
        WriteAt(WriteAt(s.file, s.size + |s.entries| * RECORD, Record(e)), 0, hdr[..if k < |hdr| then k else |hdr|])
  {
    hide Record, HeaderBytes, WriteAt;
    var hdr := HeaderBytes(s.size, |s.entries| + 1, if s.entries == [] then e.height else s.base);
    assert hdr[..|hdr|] == hdr;
  }

  lemma TornStored(s: Store, e: Entry, k: nat)
    requires Valid(s) && Flushed(s) && |s.entries| + 1 < 0x8000_0000 && Accepts(s, e.height)
    ensures var n, r := |s.entries| + 1, Append(s, e, RECORD, k).0.file;
      |r| >= 9 && StoredCount(r) == Torn(n, n - 1, CountBytes(k)) <= n
  {
    hide Record, RecordAt, Append, WriteAt, HeaderBytes, Backs, Contiguous, Read32, Prefix, StoredCount, Torn, ToU32, Pow256;
    var n := |s.entries| + 1;
    var base := if s.entries == [] then e.height else s.base;
    var hdr := HeaderBytes(s.size, n, base);
    var file := WriteAt(s.file, s.size + |s.entries| * RECORD, Record(e));
    assert Record(e)[..RECORD] == Record(e);
    RecordWritten(s, e, RECORD);
    AppendFile(s, e, k);
    TornHeader(file, s.size, n, base, if k < |hdr| then k else |hdr|);
    CarryOnly(n, CountBytes(k));
    SmallU32(StoredCount(file));
    SmallU32(StoredCount(Append(s, e, RECORD, k).0.file));
  }

  lemma SmallU32(v: int32)
    ensures ToU32(v) < 0x8000_0000 ==> v == ToU32(v)
    ensures 0 <= v ==> v == ToU32(v)
  {
  }

  /** Low bytes of a number over the high bytes of the one before it. */
  lemma CarryOnly(n: nat, j: nat)
    requires n > 0
    ensures 0 <= Torn(n, n - 1, j) == Carried(n, j) <= n
  {
    hide Pow256;
    CarryAt(n, Pow256(j));
  }

  lemma CarryAt(n: nat, p: nat)
    requires n > 0 && p > 0
    ensures n % p + (n - 1) / p * p == (if n % p == 0 then n - p else n) && (n % p == 0 ==> n >= p)
  {
    var q, r := n / p, n % p;
    assert n == p * q + r;
    if r == 0 {
      Apart(p, 0, q);
      assert p * (q - 1) == p * q - p;
      ModIs(n - 1, p, q - 1, p - 1);
      assert (q - 1) * p == p * (q - 1);
    } else {
      ModIs(n - 1, p, q, r - 1);
      assert q * p == p * q;
    }
  }

  ghost function Run(s: Store, evs: seq<Event>, n: nat): (r: Store)
    requires Valid(s) && n <= |evs| && |s.entries| + n < 0x8000_0000
    ensures Valid(r) && |r.entries| <= |s.entries| + n
  {
    if n == 0 then s
    else
      var m := Run(s, evs, n - 1);
      StepKeeps(m, evs[n - 1]);
      Step(m, evs[n - 1])
  }

  /** What a run makes of the entries: an append that is accepted and whose record was written adds
      its entry at the end, and a restart keeps the surviving ones. */
  ghost function Contents(s: Store, evs: seq<Event>, n: nat): seq<Entry>
    requires Valid(s) && n <= |evs| && |s.entries| + n < 0x8000_0000
  {
    if n == 0 then s.entries
    else
      var m, c := Run(s, evs, n - 1), Contents(s, evs, n - 1);
      match evs[n - 1]
      case Appends(e, rec, _) => if rec >= RECORD && Accepts(m, e.height) then c + [e] else c
      case Restarts(len) => if Surviving(m, len) <= |c| then c[..Surviving(m, len)] else c
  }

  /** Over any run of torn appends and restarts, the entries are exactly what was appended whole, in
      order, cut at each restart to the surviving prefix. */
  lemma {:induction false} RunContents(s: Store, evs: seq<Event>, n: nat)
    requires Valid(s) && n <= |evs| && |s.entries| + n < 0x8000_0000
    ensures Run(s, evs, n).entries == Contents(s, evs, n)
  {
    hide Step, Valid, Flushed, Accepts, Surviving;
    if n > 0 {
      RunContents(s, evs, n - 1);
      StepKeeps(Run(s, evs, n - 1), evs[n - 1]);
    }
  }

  /** A new file, or one in the old format with no records. */
  lemma EmptyFile()
    ensures Valid(Init([])) && Init([]).entries == [] && Init([]).base == -1 && Flushed(Init([]))
    ensures var v1 := HeaderBytes(V1_SIZE, 0, 0); Valid(Init(v1)) && Init(v1).base == 0 && Init(v1).size == V1_SIZE
  {
    HeadedSlices([], V2_SIZE, 0, -1);
    HeadedSlices([], V1_SIZE, 0, 0);
    var v1 := HeaderBytes(V1_SIZE, 0, 0);
    assert WriteAt([], 0, v1) == v1;
    InitReadsPrefix(v1, V1_SIZE, []);
  }

  // ----- looking up -----

  function Find(s: Store, height: int): Option<Entry> {
    var idx := height - s.base;
    if s.entries == [] || idx < 0 || idx >= |s.entries| then None else Some(s.entries[idx])
  }

  /** A lookup by height finds the entry carrying that height, and misses only if none does. */
  lemma FindExact(s: Store, height: int, e: Entry)
    requires Valid(s)
    ensures Find(s, height) == Some(e) <==> e in s.entries && e.height == height
    ensures Find(s, height).Some? <==> s.entries != [] && s.base <= height <= Tip(s)
  {
    if e in s.entries && e.height == height {
      var i :| 0 <= i < |s.entries| && s.entries[i] == e;
      assert i == height - s.base;
    }
  }

  // ----- the store in its own form -----

  /** `write_le32`. */
  method WriteLE32(val: uint32) returns (buf: seq<byte>)
    ensures buf == ToLE(val, 4)
  {
    buf := [val % 256, val / 0x100 % 256, val / 0x1_0000 % 256, val / 0x100_0000 % 256];
    assert ToLE(val / 0x1_0000, 2) == [val / 0x1_0000 % 256, val / 0x100_0000 % 256] by {
      assert ToLE(val / 0x100_0000, 1) == [val / 0x100_0000 % 256] + ToLE(val / 0x1_0000_0000, 0);
    }
    assert ToLE(val / 0x100, 3) == [val / 0x100 % 256] + ToLE(val / 0x1_0000, 2);
  }

  class HeaderFile {
    /** The bytes on disk and the file offset. */
    var file: seq<byte>
    var pos: nat
    var headerSize: nat
    var baseHeight: int
    var entries: seq<Entry>

    ghost function View(): Store
      reads this
    {
      Store(headerSize, baseHeight, entries, file)
    }

    /** `write` at the offset; only `avail` bytes of it may reach the file. */
    method Write(bs: seq<byte>, avail: nat) returns (n: nat)
      requires pos <= |file|
      modifies this`file, this`pos
      ensures n == (if avail < |bs| then avail else |bs|) && pos == old(pos) + n
      ensures file == WriteAt(old(file), old(pos), bs[..n])
    {
      n := if avail < |bs| then avail else |bs|;
      file := WriteAt(file, pos, bs[..n]);
      pos := pos + n;
    }

    /** `read`: as many bytes as there are, up to `n`. */
    method Read(n: nat) returns (bs: seq<byte>)
      requires pos <= |file|
      modifies this`pos
      ensures pos == old(pos) + |bs| <= |file|
      ensures bs == if |file| >= old(pos) + n then file[old(pos)..old(pos) + n] else file[old(pos)..]
    {
      bs := if |file| >= pos + n then file[pos..pos + n] else file[pos..];
      pos := pos + |bs|;
    }

    /** `cfheaderstore_write_header`. */
    method WriteHeader(avail: nat) returns (failed: bool)
      requires headerSize == V1_SIZE || headerSize == V2_SIZE
      modifies this`file, this`pos
      ensures failed <==> avail < headerSize
      ensures var hdr := HeaderBytes(headerSize, |entries|, baseHeight);
        file == WriteAt(old(file), 0, if avail < headerSize then hdr[..avail] else hdr)
    {
      var hdr: seq<byte> := [0x42, 0x54, 0x43, 0x46, if headerSize == V2_SIZE then 2 else 1];
      var count := WriteLE32(ToU32(|entries|));
      hdr := hdr + count;
      if headerSize == V2_SIZE {
        var base := WriteLE32(ToU32(baseHeight));
        hdr := hdr + base;
      }
      assert hdr == HeaderBytes(headerSize, |entries|, baseHeight);
      assert hdr[..headerSize] == hdr;
      pos := 0;
      var n := Write(hdr, avail);
      failed := n != headerSize;
    }

    /** `cfheaderstore_init`; its own header writes are not cut short here. */
    constructor (contents: seq<byte>)
      ensures View() == Init(contents)
    {
      file, pos, headerSize, baseHeight, entries := contents, 0, V2_SIZE, -1, [];
      new;
      var hdr := Read(5);
      var version := if |hdr| == 5 && hdr[..4] == [0x42, 0x54, 0x43, 0x46] then hdr[4] else 0;
      if version == 1 {
        headerSize := V1_SIZE;
      } else if version != 2 {
        Unheaded(contents);
        var failed := WriteHeader(V2_SIZE);
        return;
      }
      VersionByte(contents, headerSize);
      var rest := Read(headerSize - 5);
      if |rest| != headerSize - 5 {
        Unheaded(contents);
        headerSize := V2_SIZE;
        var failed := WriteHeader(V2_SIZE);
        return;
      }
      OneVersion(contents, headerSize);
      assert rest[..4] == contents[5..9];
      LoadRecords(Read32(rest[..4]));
    }

    /** The record loop, and the corrections after it. */
    method LoadRecords(count: int32)
      requires Headed(file, headerSize) && pos == headerSize && entries == [] && count == StoredCount(file)
      modifies this`file, this`pos, this`baseHeight, this`entries
      ensures View() == InitAs(old(file), headerSize)
    {
      ghost var m := Readable(file, headerSize);
      var i := 0;
      while i < count
        invariant 0 <= i <= m && pos == headerSize + RECORD * i && file == old(file)
        invariant entries == ReadEntries(file, headerSize, i)
        decreases count - i
      {
        var rec := Read(RECORD);
        if |rec| != RECORD {
          break;
        }
        assert rec == RecordAt(file, headerSize, i);
        entries := entries + [ParseRecord(rec)];
        i := i + 1;
      }
      assert i == m;
      baseHeight := if |entries| > 0 then entries[0].height else if headerSize == V1_SIZE then 0 else -1;
      if |entries| != count {
        var failed := WriteHeader(V2_SIZE);
      }
    }

    /** `cfheaderstore_append` with this many bytes of its two writes reaching the file. */
    method AppendEntry(height: int32, header: Bytes32, hash: Bytes32, recordBytes: nat, headerBytes: nat)
      returns (failed: bool)
      requires Sound(View())
      modifies this
      ensures (View(), !failed) == Append(old(View()), Entry(height, header, hash), recordBytes, headerBytes)
    {
      if |entries| == 0 {
        if baseHeight >= 0 && height != baseHeight {
          return true;
        }
      } else if height != entries[|entries| - 1].height + 1 {
        return true;
      }
      var num := WriteLE32(ToU32(height));
      var rec := num + header + hash;
      assert rec == Record(Entry(height, header, hash)) && rec[..RECORD] == rec;
      pos := headerSize + |entries| * RECORD;
      var n := Write(rec, recordBytes);
      if n != RECORD {
        return true;
      }
      if |entries| == 0 {
        baseHeight := height;
      }
      entries := entries + [Entry(height, header, hash)];
      failed := WriteHeader(headerBytes);
    }

    /** `cfheaderstore_get_tip_height`. */
    method GetTipHeight() returns (height: int)
      ensures height == Tip(View())
    {
      height := if |entries| == 0 then -1 else entries[|entries| - 1].height;
    }

    /** `cfheaderstore_get_header` and `cfheaderstore_get_hash`. */
    method Get(height: int) returns (e: Option<Entry>)
      ensures e == Find(View(), height)
    {
      if |entries| == 0 {
        return None;
      }
      var idx := height - baseHeight;
      if idx < 0 || idx >= |entries| {
        return None;
      }
      e := Some(entries[idx]);
    }
  }

  lemma VersionByte(file: seq<byte>, size: nat)
    requires size == V1_SIZE || size == V2_SIZE
    requires |file| >= 5 && file[..5][..4] == [0x42, 0x54, 0x43, 0x46] && file[4] == if size == V2_SIZE then 2 else 1
    ensures Headed(file, size) <==> |file| >= size
    ensures !Headed(file, if size == V1_SIZE then V2_SIZE else V1_SIZE)
  {
    assert file[..5] == file[..5][..4] + [file[4]];
    assert file[..5][4] == file[4];
    assert Prefix(V1_SIZE)[4] == 1 && Prefix(V2_SIZE)[4] == 2;
  }

  /** Without a known prefix, or without the rest of its header, a file is started over. */
  lemma Unheaded(file: seq<byte>)
    ensures |file| < 5 || file[..5][..4] != [0x42, 0x54, 0x43, 0x46] || (file[4] != 1 && file[4] != 2) ==>
            !Headed(file, V1_SIZE) && !Headed(file, V2_SIZE)
  {
    if |file| >= 5 {
      assert file[..5][4] == file[4];
      assert Prefix(V1_SIZE)[..4] == [0x42, 0x54, 0x43, 0x46] && Prefix(V2_SIZE)[..4] == [0x42, 0x54, 0x43, 0x46];
      assert Prefix(V1_SIZE)[4] == 1 && Prefix(V2_SIZE)[4] == 2;
    }
  }
}
