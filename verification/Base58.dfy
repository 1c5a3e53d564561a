/**
 core/base58.c: bytes to base-58 text and back, with big numbers as natural numbers. Encoding and
 decoding are inverse, leading zero bytes included, and the digit buffer is long enough.
 */
module Base58 {
  import opened Bytes
  import opened Outcomes

  // ----- numbers in a base -----

  /** The base of bytes, or of base-58 text. */
  type base = b: int | b == 58 || b == 256 witness 58

  /** The number with these digits, most significant first. */
  function FromBase(ds: seq<nat>, b: base): nat {
    if ds == [] then 0 else FromBase(ds[..|ds| - 1], b) * b + ds[|ds| - 1]
  }

  /** The digits of a number, most significant first and without leading zeros. */
  function ToBase(v: nat, b: base): (ds: seq<nat>)
    ensures Digits(ds, b) && (ds == [] <==> v == 0)
  {
    if v == 0 then [] else QuotientLess(v, b); ToBase(v / b, b) + [v % b]
  }

  lemma QuotientLess(v: nat, b: base)
    requires v > 0
    ensures 0 <= v / b < v && v == v / b * b + v % b && 0 <= v % b < b
  {
    if b == 58 {
      assert v == v / 58 * 58 + v % 58;
    } else {
      assert v == v / 256 * 256 + v % 256;
    }
  }

  /** All digits are below the base. */
  ghost predicate Digits(ds: seq<nat>, b: base) {
    forall i :: 0 <= i < |ds| ==> ds[i] < b
  }

  lemma DivMod(q: nat, b: base, d: nat)
    requires d < b
    ensures (q * b + d) / b == q && (q * b + d) % b == d && (q > 0 ==> q * b + d > 0)
  {
    if b == 58 {
      assert (q * 58 + d) / 58 == q;
    } else {
      assert (q * 256 + d) / 256 == q;
    }
  }

  lemma {:induction false} FromToBase(v: nat, b: base)
    ensures FromBase(ToBase(v, b), b) == v
  {
    if v > 0 {
      QuotientLess(v, b);
      FromToBase(v / b, b);
      var ds := ToBase(v, b);
      assert ds[..|ds| - 1] == ToBase(v / b, b);
    }
  }

  /** Digits without a leading zero are the digits of their number. */
  lemma {:induction false} ToFromBase(ds: seq<nat>, b: base)
    requires Digits(ds, b) && (ds != [] ==> ds[0] != 0)
    ensures ToBase(FromBase(ds, b), b) == ds
    ensures ds != [] ==> FromBase(ds, b) > 0
  {
    if ds != [] {
      var n := |ds| - 1;
      ToFromBase(ds[..n], b);
      DivMod(FromBase(ds[..n], b), b, ds[n]);
      assert ds == ds[..n] + [ds[n]];
    }
  }

  /** Leading zeros do not count. */
  lemma {:induction false} FromBaseZeros(ds: seq<nat>, b: base, z: nat)
    requires z <= |ds| && forall i :: 0 <= i < z ==> ds[i] == 0
    ensures FromBase(ds, b) == FromBase(ds[z..], b)
  {
    if ds != [] && z < |ds| {
      var n := |ds| - 1;
      FromBaseZeros(ds[..n], b, z);
      assert ds[..n][z..] == ds[z..][..n - z];
    } else if ds != [] {
      var n := |ds| - 1;
      FromBaseZeros(ds[..n], b, n);
      assert ds[..n][n..] == [] && ds[z..] == [];
    }
  }

  function Power(b: base, n: nat): (p: nat)
    ensures p > 0
  {
    if n == 0 then 1 else b * Power(b, n - 1)
  }

  lemma {:induction false} PowerAdd(b: base, m: nat, n: nat)
    ensures Power(b, m + n) == Power(b, m) * Power(b, n)
  {
    if m > 0 {
      PowerAdd(b, m - 1, n);
      Regroup(b, Power(b, m - 1), Power(b, n));
    }
  }

  lemma Regroup(a: int, b: int, c: int)
    ensures a * (b * c) == (a * b) * c
  {
  }

  lemma {:induction false} FromBaseBound(ds: seq<nat>, b: base)
    requires Digits(ds, b)
    ensures FromBase(ds, b) < Power(b, |ds|)
  {
    if ds != [] {
      var n := |ds| - 1;
      FromBaseBound(ds[..n], b);
      var q, p := FromBase(ds[..n], b), Power(b, n);
      if b == 58 {
        assert q * 58 + ds[n] < 58 * p;
      } else {
        assert q * 256 + ds[n] < 256 * p;
      }
    }
  }

  /** A number with `k` digits is at least the base to the k - 1. */
  lemma {:induction false} ToBaseBound(v: nat, b: base)
    requires v > 0
    ensures |ToBase(v, b)| > 0 && Power(b, |ToBase(v, b)| - 1) <= v
  {
    QuotientLess(v, b);
    if v / b > 0 {
      ToBaseBound(v / b, b);
      var p := Power(b, |ToBase(v / b, b)| - 1);
      if b == 58 {
        assert 58 * p <= v;
      } else {
        assert 256 * p <= v;
      }
    }
  }

  lemma {:induction false} PowerGrows(b: base, m: nat, n: nat)
    requires m <= n
    ensures Power(b, m) <= Power(b, n)
  {
    if m < n {
      PowerGrows(b, m, n - 1);
      assert Power(b, n) >= Power(b, n - 1);
    }
  }

  // ----- the digit buffer -----

  /** The size of the digit buffer for `len` bytes. */
  function Capacity(len: nat): nat { len * 138 / 100 + 1 }

  lemma SmallPowers()
    ensures Power(256, 0) <= Power(58, 1) && Power(256, 1) <= Power(58, 2) && Power(256, 2) <= Power(58, 3)
    ensures Power(256, 3) <= Power(58, 5) && Power(256, 4) <= Power(58, 6) && Power(256, 5) <= Power(58, 7)
    ensures Power(256, 6) <= Power(58, 9) && Power(256, 7) <= Power(58, 10) && Power(256, 8) <= Power(58, 11)
  {
    assert Power(256, 1) == 256;
    assert Power(256, 2) == 65536;
    assert Power(256, 3) == 16777216;
    assert Power(256, 4) == 4294967296;
    assert Power(256, 5) == 1099511627776;
    assert Power(256, 6) == 281474976710656;
    assert Power(256, 7) == 72057594037927936;
    assert Power(256, 8) == 18446744073709551616;
    assert Power(58, 1) == 58;
    assert Power(58, 2) == 3364;
    assert Power(58, 3) == 195112;
    assert Power(58, 4) == 11316496;
    assert Power(58, 5) == 656356768;
    assert Power(58, 6) == 38068692544;
    assert Power(58, 7) == 2207984167552;
    assert Power(58, 8) == 128063081718016;
    assert Power(58, 9) == 7427658739644928;
    assert Power(58, 10) == 430804206899405824;
    assert Power(58, 11) == 24986644000165537792;
  }

  lemma CapacitySteps(n: nat)
    ensures Capacity(0) == 1 && Capacity(1) == 2 && Capacity(2) == 3 && Capacity(3) == 5
    ensures Capacity(4) == 6 && Capacity(5) == 7 && Capacity(6) == 9 && Capacity(7) == 10
    ensures n >= 8 ==> 11 + Capacity(n - 8) <= Capacity(n)
  {
  }

  /** 256^n is at most 58 to the capacity for n bytes: eight bytes need eleven digits, and what is
      left over has room too. */
  lemma {:induction false} CapacityFits(n: nat)
    ensures Power(256, n) <= Power(58, Capacity(n))
  {
    hide Power, Capacity;
    SmallPowers();
    CapacitySteps(n);
    if n >= 8 {
      CapacityFits(n - 8);
      PowerAdd(256, 8, n - 8);
      PowerAdd(58, 11, Capacity(n - 8));
      PowerGrows(58, 11 + Capacity(n - 8), Capacity(n));
      Products(Power(256, 8), Power(58, 11), Power(256, n - 8), Power(58, Capacity(n - 8)));
    } else {
      assert n == 0 || n == 1 || n == 2 || n == 3 || n == 4 || n == 5 || n == 6 || n == 7;
    }
  }

  lemma Products(a: nat, b: nat, c: nat, d: nat)
    requires a <= b && c <= d
    ensures a * c <= b * d
  {
    assert a * c <= b * c;
    assert b * c <= b * d;
  }

  function LeadingZeros(bs: seq<byte>): (z: nat)
    ensures z <= |bs| && (forall i :: 0 <= i < z ==> bs[i] == 0) && (z < |bs| ==> bs[z] != 0)
  {
    ZerosFrom(bs, 0)
  }

  function ZerosFrom(bs: seq<byte>, i: nat): (z: nat)
    requires i <= |bs|
    ensures i <= z <= |bs| && (forall j :: i <= j < z ==> bs[j] == 0) && (z < |bs| ==> bs[z] != 0)
    decreases |bs| - i
  {
    if i == |bs| || bs[i] != 0 then i else ZerosFrom(bs, i + 1)
  }

  function Value(bs: seq<byte>): nat { FromBase(bs, 256) }

  /** The digits of any bytes, and one character for each leading zero byte, fit the buffer. */
  lemma EncodingFits(bs: seq<byte>)
    requires Value(bs) > 0
    ensures |ToBase(Value(bs), 58)| + LeadingZeros(bs) <= Capacity(|bs|) == |bs| * 138 / 100 + 1
  {
    var z := LeadingZeros(bs);
    var rest: seq<nat>, k := bs[z..], |ToBase(Value(bs), 58)|;
    FromBaseZeros(bs, 256, z);
    FromBaseBound(rest, 256);
    CapacityFits(|rest|);
    ToBaseBound(Value(bs), 58);
    if k - 1 >= Capacity(|rest|) {
      PowerGrows(58, Capacity(|rest|), k - 1);
      assert false;
    }
  }

  // ----- characters -----

  /** The alphabet: the digits without 0, the capitals without I and O, the small letters without l. */
  function CharOf(d: nat): char
    requires d < 58
  {
    if d < 9 then '1' + d as char
    else if d < 17 then 'A' + (d - 9) as char
    else if d < 22 then 'J' + (d - 17) as char
    else if d < 33 then 'P' + (d - 22) as char
    else if d < 44 then 'a' + (d - 33) as char
    else 'm' + (d - 44) as char
  }

  function DigitOf(c: char): (r: Option<nat>)
    ensures r.Some? ==> r.value < 58 && CharOf(r.value) == c
  {
    if '1' <= c <= '9' then Some((c - '1') as nat)
    else if 'A' <= c <= 'H' then Some((c - 'A') as nat + 9)
    else if 'J' <= c <= 'N' then Some((c - 'J') as nat + 17)
    else if 'P' <= c <= 'Z' then Some((c - 'P') as nat + 22)
    else if 'a' <= c <= 'k' then Some((c - 'a') as nat + 33)
    else if 'm' <= c <= 'z' then Some((c - 'm') as nat + 44)
    else None
  }

  lemma DigitOfChar(d: nat)
    requires d < 58
    ensures DigitOf(CharOf(d)) == Some(d)
  {
  }

  function IsSpace(c: char): bool { c == ' ' || 9 as char <= c <= 13 as char }

  // ----- encoding and decoding -----

  function Chars(ds: seq<nat>): (s: string)
    requires Digits(ds, 58)
    ensures |s| == |ds| && forall i :: 0 <= i < |s| ==> s[i] == CharOf(ds[i])
  {
    if ds == [] then [] else Chars(ds[..|ds| - 1]) + [CharOf(ds[|ds| - 1])]
  }

  function Repeat<T>(x: T, n: nat): (s: seq<T>)
    ensures |s| == n && forall i :: 0 <= i < n ==> s[i] == x
  {
    if n == 0 then [] else Repeat(x, n - 1) + [x]
  }

  /** `base58_encode`: stops on bytes that are all zero. */
  function Encode(bs: seq<byte>): Outcome<string> {
    if Value(bs) == 0 then Stopped
    else Returned(Repeat('1', LeadingZeros(bs)) + Chars(ToBase(Value(bs), 58)))
  }

  /** The position of the first character from `i` on that is no space. */
  function SkipSpaces(s: string, i: nat): (r: nat)
    requires i <= |s|
    ensures i <= r <= |s| && (r < |s| ==> !IsSpace(s[r])) && forall j :: i <= j < r ==> IsSpace(s[j])
    decreases |s| - i
  {
    if i == |s| || !IsSpace(s[i]) then i else SkipSpaces(s, i + 1)
  }

  /** The digit loop from `i` on, with the number so far; a space may only be followed by spaces. */
  function Parse(s: string, i: nat, v: nat): (r: Option<nat>)
    requires i <= |s|
    decreases |s| - i
  {
    if i == |s| then Some(v)
    else
      match DigitOf(s[i])
      case Some(d) => Parse(s, i + 1, v * 58 + d)
      case None => if SkipSpaces(s, i) == |s| then Some(v) else None
  }

  function OnesFrom(s: string, i: nat): (r: nat)
    requires i <= |s|
    ensures i <= r <= |s| && (forall j :: i <= j < r ==> s[j] == '1') && (r < |s| ==> s[r] != '1')
    decreases |s| - i
  {
    if i == |s| || s[i] != '1' then i else OnesFrom(s, i + 1)
  }

  function ToBytes(v: nat): (bs: seq<byte>)
    ensures bs == ToBase(v, 256)
  {
    if v == 0 then [] else QuotientLess(v, 256); ToBytes(v / 256) + [v % 256]
  }

  /** `base58_decode`. */
  function Decode(s: string): Option<seq<byte>> {
    var start := SkipSpaces(s, 0);
    var v :- Parse(s, start, 0);
    Some(Repeat(0, OnesFrom(s, start) - start) + ToBytes(v))
  }

  ghost predicate AllDigits(s: string) {
    forall i :: 0 <= i < |s| ==> DigitOf(s[i]).Some?
  }

  function DigitsOf(s: string): (ds: seq<nat>)
    requires AllDigits(s)
    ensures |ds| == |s| && Digits(ds, 58) && forall i :: 0 <= i < |s| ==> CharOf(ds[i]) == s[i] && DigitOf(s[i]) == Some(ds[i])
  {
    if s == "" then [] else DigitsOf(s[..|s| - 1]) + [DigitOf(s[|s| - 1]).value]
  }

  lemma {:induction false} ParseIs(s: string, i: nat)
    requires AllDigits(s) && i <= |s|
    ensures Parse(s, i, FromBase(DigitsOf(s)[..i], 58)) == Some(FromBase(DigitsOf(s), 58))
    decreases |s| - i
  {
    var ds := DigitsOf(s);
    if i < |s| {
      ParseIs(s, i + 1);
      assert ds[..i + 1][..i] == ds[..i];
    } else {
      assert ds[..i] == ds;
    }
  }

  /** Decoding text in the alphabet: the number it writes, in bytes, after a zero byte for each
      leading '1'. */
  lemma DecodeIs(s: string)
    requires AllDigits(s)
    ensures Decode(s) == Some(Repeat(0, OnesFrom(s, 0)) + ToBytes(FromBase(DigitsOf(s), 58)))
  {
    ParseIs(s, 0);
    assert DigitsOf(s)[..0] == [];
    if s != "" { NoSpace(s[0]); }
  }

  // ----- which text decodes -----

  /** Without 0, I, O and l. */
  const ALPHABET := "123456789" + "ABCDEFGH" + "JKLMN" + "PQRSTUVWXYZ" + "abcdefghijk" + "mnopqrstuvwxyz"

  /** `isspace` in the C locale: blank, tab, line feed, vertical tab, form feed, carriage return. */
  const SPACES := [' ', '\t', '\n', 11 as char, 12 as char, '\r']

  lemma CharInAlphabet(d: nat)
    requires d < 58
    ensures |ALPHABET| == 58 && ALPHABET[d] == CharOf(d)
  {
  }

  /** A digit's character is the alphabet's, the other characters are no digits, and the spaces are
      as they should be. */
  lemma CharactersExact(c: char)
    ensures |ALPHABET| == 58 && forall d :: 0 <= d < 58 ==> CharOf(d) == ALPHABET[d] && DigitOf(ALPHABET[d]) == Some(d)
    ensures DigitOf(c).Some? <==> c in ALPHABET
    ensures IsSpace(c) <==> c in SPACES
  {
    hide ALPHABET, CharOf, DigitOf;
    CharInAlphabet(0);
    forall d | 0 <= d < 58 ensures CharOf(d) == ALPHABET[d] && DigitOf(ALPHABET[d]) == Some(d) {
      CharInAlphabet(d);
      DigitOfChar(d);
    }
  }

  /** Spaces, then characters of the alphabet from `a` to `b`, then spaces. */
  ghost predicate Layout(s: string, a: nat, b: nat) {
    && a <= b <= |s|
    && (forall i :: 0 <= i < a || b <= i < |s| ==> s[i] in SPACES)
    && (forall i :: a <= i < b ==> s[i] in ALPHABET)
  }

  lemma LayoutChars(s: string, a: nat, b: nat)
    requires a <= b <= |s|
    ensures Layout(s, a, b) <==>
      && (forall i :: 0 <= i < a || b <= i < |s| ==> IsSpace(s[i]))
      && (forall i :: a <= i < b ==> DigitOf(s[i]).Some?)
  {
    hide CharOf, DigitOf, IsSpace;
    forall i | 0 <= i < |s|
      ensures (s[i] in SPACES <==> IsSpace(s[i])) && (s[i] in ALPHABET <==> DigitOf(s[i]).Some?)
    {
      CharactersExact(s[i]);
    }
  }

  lemma {:induction false} SkipTo(s: string, i: nat, a: nat)
    requires i <= a <= |s| && (forall j :: i <= j < a ==> IsSpace(s[j])) && (a < |s| ==> !IsSpace(s[a]))
    ensures SkipSpaces(s, i) == a
    decreases a - i
  {
    if i < a { SkipTo(s, i + 1, a); }
  }

  lemma {:induction false} ParseMiddle(s: string, a: nat, b: nat, i: nat)
    requires a <= i <= b <= |s| && AllDigits(s[a..b]) && forall j :: b <= j < |s| ==> IsSpace(s[j])
    ensures var ds := DigitsOf(s[a..b]);
      Parse(s, i, FromBase(ds[..i - a], 58)) == Some(FromBase(ds, 58))
    decreases b - i
  {
    hide IsSpace, DigitOf, CharOf;
    var ds := DigitsOf(s[a..b]);
    if i < b {
      ParseMiddle(s, a, b, i + 1);
      assert s[a..b][i - a] == s[i];
      assert ds[..i + 1 - a][..i - a] == ds[..i - a];
    } else {
      assert ds[..i - a] == ds;
      SkipTo(s, b, |s|);
      if b < |s| && DigitOf(s[b]).Some? {
        NoSpace(s[b]);
      }
    }
  }

  /** What comes before and after the text is ignored, and it decodes to its number, in bytes, after a
      zero byte for each '1' that it starts with. */
  lemma DecodesLaidOut(s: string, a: nat, b: nat)
    requires Layout(s, a, b)
    ensures var mid := s[a..b];
      && AllDigits(mid) && Decode(s) == Decode(mid)
      && Decode(s) == Some(Repeat(0, OnesFrom(mid, 0)) + ToBytes(FromBase(DigitsOf(mid), 58)))
  {
    hide IsSpace, DigitOf, CharOf, FromBase, ToBytes, Repeat, ALPHABET, SPACES;
    var mid := s[a..b];
    LayoutChars(s, a, b);
    assert AllDigits(mid);
    DecodeIs(mid);
    if a < b {
      NoSpace(s[a]);
      SkipTo(s, 0, a);
      ParseMiddle(s, a, b, a);
      assert DigitsOf(mid)[..0] == [];
      OnesMiddle(s, a, b);
    } else {
      SkipTo(s, 0, |s|);
    }
    EmptyIsZero();
  }

  lemma OnesMiddle(s: string, a: nat, b: nat)
    requires a <= b <= |s| && (b < |s| ==> IsSpace(s[b]))
    ensures OnesFrom(s, a) - a == OnesFrom(s[a..b], 0)
  {
    hide CharOf;
    var z := OnesFrom(s[a..b], 0);
    assert forall j :: a <= j < a + z ==> s[j] == s[a..b][j - a];
    OnesThen(s, a, a + z);
  }

  lemma EmptyIsZero()
    ensures FromBase([], 58) == 0 && FromBase([], 256) == 0
  {
  }

  lemma {:induction false} ParsedTo(s: string, i: nat, v: nat) returns (b: nat)
    requires i <= |s| && Parse(s, i, v).Some?
    ensures i <= b <= |s| && (forall j :: i <= j < b ==> DigitOf(s[j]).Some?) && forall j :: b <= j < |s| ==> IsSpace(s[j])
    decreases |s| - i
  {
    hide IsSpace, DigitOf, CharOf;
    b := i;
    if i < |s| && DigitOf(s[i]).Some? {
      b := ParsedTo(s, i + 1, v * 58 + DigitOf(s[i]).value);
    }
  }

  /** Text decodes exactly if it is characters of the alphabet with nothing but spaces around them;
      any other character, or a space between two of them, makes it fail. */
  lemma DecodesExactlyWhen(s: string)
    ensures Decode(s).Some? <==> exists a, b :: Layout(s, a, b)
  {
    hide IsSpace, DigitOf, CharOf, FromBase;
    if Decode(s).Some? {
      var a := SkipSpaces(s, 0);
      var b := ParsedTo(s, a, 0);
      LayoutChars(s, a, b);
    }
    if a, b :| Layout(s, a, b) {
      DecodesLaidOut(s, a, b);
    }
  }

  lemma NoSpace(c: char)
    requires DigitOf(c).Some?
    ensures !IsSpace(c)
  {
  }

  lemma {:induction false} CharsDigits(ds: seq<nat>)
    requires Digits(ds, 58)
    ensures AllDigits(Chars(ds)) && DigitsOf(Chars(ds)) == ds
    ensures forall i :: 0 <= i < |ds| ==> DigitOf(Chars(ds)[i]) == Some(ds[i])
  {
    hide DigitOf, CharOf, Chars, DigitsOf;
    forall i | 0 <= i < |ds| ensures DigitOf(Chars(ds)[i]) == Some(ds[i]) {
      DigitOfChar(ds[i]);
    }
  }

  lemma {:induction false} OnesThen(s: string, i: nat, z: nat)
    requires i <= z <= |s| && (forall j :: i <= j < z ==> s[j] == '1') && (z < |s| ==> s[z] != '1')
    ensures OnesFrom(s, i) == z
    decreases z - i
  {
    if i < z { OnesThen(s, i + 1, z); }
  }

  lemma {:induction false} DigitsConcat(z: nat, ds: seq<nat>)
    requires Digits(ds, 58)
    ensures var s := Repeat('1', z) + Chars(ds);
      AllDigits(s) && DigitsOf(s) == Repeat(0, z) + ds && FromBase(DigitsOf(s), 58) == FromBase(ds, 58)
  {
    hide DigitOf, CharOf, FromBase, Chars, DigitsOf, Repeat;
    var s := Repeat('1', z) + Chars(ds);
    OneIsZero();
    CharsDigits(ds);
    forall i | 0 <= i < |s| ensures DigitOf(s[i]) == Some((Repeat(0, z) + ds)[i]) {
      if i >= z {
        assert s[i] == Chars(ds)[i - z];
      }
    }
    assert AllDigits(s);
    assert DigitsOf(s) == Repeat(0, z) + ds;
    FromBaseZeros(DigitsOf(s), 58, z);
    assert (Repeat(0, z) + ds)[z..] == ds;
  }

  lemma OneIsZero()
    ensures DigitOf('1') == Some(0) && CharOf(0) == '1'
  {
  }

  /** Decoding an encoding gives the bytes back, leading zero bytes included. */
  lemma DecodesEncoded(bs: seq<byte>)
    requires Value(bs) > 0
    ensures Encode(bs).Returned? && Decode(Encode(bs).value) == Some(bs)
  {
    hide DigitOf, CharOf, FromBase, ToBase, Chars;
    var z, v := LeadingZeros(bs), Value(bs);
    var ds, s := ToBase(v, 58), Encode(bs).value;
    DigitsConcat(z, ds);
    DecodeIs(s);
    FromToBase(v, 58);
    ToFromBaseLead(v);
    OnesThen(s, 0, z);
    FromBaseZeros(bs, 256, z);
    ToFromBase(bs[z..], 256);
    assert bs == Repeat(0, z) + bs[z..];
  }

  /** Encoding stops exactly on bytes that are all zero, the empty ones among them. */
  lemma {:induction false} EncodeStopsOnZeros(bs: seq<byte>)
    ensures Encode(bs).Stopped? <==> forall i :: 0 <= i < |bs| ==> bs[i] == 0
  {
    if bs != [] {
      var n := |bs| - 1;
      EncodeStopsOnZeros(bs[..n]);
      assert Value(bs) == Value(bs[..n]) * 256 + bs[n];
      assert (forall i :: 0 <= i < |bs| ==> bs[i] == 0) <==> (forall i :: 0 <= i < n ==> bs[..n][i] == 0) && bs[n] == 0;
    }
  }

  /** The first character of a number is no '1'. */
  lemma ToFromBaseLead(v: nat)
    ensures v > 0 ==> ToBase(v, 58) != [] && Chars(ToBase(v, 58))[0] != '1'
  {
    if v > 0 {
      LeadNotZero(v, 58);
      DigitOfChar(ToBase(v, 58)[0]);
    }
  }

  lemma {:induction false} LeadNotZero(v: nat, b: base)
    requires v > 0
    ensures ToBase(v, b) != [] && ToBase(v, b)[0] != 0
  {
    QuotientLess(v, b);
    if v / b > 0 { LeadNotZero(v / b, b); }
  }

  /** Zero bytes before the bytes of a number. */
  lemma PaddedBytes(z: nat, v: nat)
    requires v > 0
    ensures var bs := Repeat(0, z) + ToBytes(v); Value(bs) == v && LeadingZeros(bs) == z
  {
    hide FromBase, ToBase;
    var bs := Repeat(0, z) + ToBytes(v);
    FromBaseZeros(bs, 256, z);
    assert bs[z..] == ToBytes(v);
    FromToBase(v, 256);
    LeadNotZero(v, 256);
    ZerosThen(bs, 0, z);
  }

  /** Text in the alphabet is one '1' for each leading zero digit, then the digits of its number. */
  lemma TextSplits(s: string)
    requires AllDigits(s) && FromBase(DigitsOf(s), 58) > 0
    ensures s == Repeat('1', OnesFrom(s, 0)) + Chars(ToBase(FromBase(DigitsOf(s), 58), 58))
  {
    hide DigitOf, CharOf, FromBase, ToBase;
    var ds, z := DigitsOf(s), OnesFrom(s, 0);
    OneIsZero();
    forall i | 0 <= i < |s| ensures ds[i] == 0 <==> s[i] == '1' {
      DigitOfChar(ds[i]);
    }
    FromBaseZeros(ds, 58, z);
    ToFromBase(ds[z..], 58);
    assert Chars(ds[z..]) == s[z..];
    assert Repeat('1', z) + s[z..] == s;
  }

  /** Encoding what text in the alphabet decodes to gives the text back, unless it is worth zero. */
  lemma EncodesDecoded(s: string)
    requires AllDigits(s) && FromBase(DigitsOf(s), 58) > 0
    ensures Decode(s).Some? && Encode(Decode(s).value) == Returned(s)
  {
    hide FromBase, ToBase, Chars, LeadingZeros, Value;
    DecodeIs(s);
    TextSplits(s);
    PaddedBytes(OnesFrom(s, 0), FromBase(DigitsOf(s), 58));
  }

  lemma {:induction false} ZerosThen(bs: seq<byte>, i: nat, z: nat)
    requires i <= z < |bs| && (forall j :: i <= j < z ==> bs[j] == 0) && bs[z] != 0
    ensures ZerosFrom(bs, i) == z
    decreases z - i
  {
    if i < z { ZerosThen(bs, i + 1, z); }
  }

  // ----- the loops -----

  /** `str_copyreverse`. */
  function Reversed<T>(s: seq<T>): (r: seq<T>)
    ensures |r| == |s| && forall i :: 0 <= i < |s| ==> r[i] == s[|s| - 1 - i]
  {
    seq(|s|, i requires 0 <= i < |s| => s[|s| - 1 - i])
  }

  lemma ReversedTwice<T>(s: seq<T>)
    ensures Reversed(Reversed(s)) == s
  {
  }

  /** What follows the length in a number's MPI form: its bytes, and a zero byte before them if
      the first one would read as a sign. */
  function MpiBody(v: nat): seq<byte> {
    var bs := ToBytes(v);
    if bs != [] && bs[0] >= 0x80 then [0] + bs else bs
  }

  /** The number with this MPI form. */
  function FromMpi(body: seq<byte>): int {
    if body == [] || body[0] < 0x80 then Value(body)
    else
      var n: int := Value([body[0] - 0x80] + body[1..]);
      -n
  }

  /** A number reads back from its MPI form, and the top bit of the first byte is the sign: it negates
      what the rest says. */
  lemma MpiExact(v: nat, b: byte, rest: seq<byte>)
    ensures FromMpi(MpiBody(v)) == v
    ensures b < 0x80 ==> FromMpi([b] + rest) == Value([b] + rest) && FromMpi([b + 0x80] + rest) == -FromMpi([b] + rest)
  {
    hide FromBase, ToBase;
    var bs := ToBytes(v);
    FromToBase(v, 256);
    FromBaseZeros([0] + bs, 256, 1);
    assert ([0] + bs)[1..] == bs;
    EmptyIsZero();
    assert ([b + 0x80] + rest)[1..] == rest;
  }

  /** `base58_setvch` on the reversed bytes and a terminator: the extra byte keeps the number
      positive. */
  method SetVch(rev: seq<byte>) returns (bn: int)
    requires rev != [] && rev[|rev| - 1] == 0
    ensures bn == Value(Reversed(rev[..|rev| - 1]))
  {
    var body := Reversed(rev);
    FromBaseZeros(body, 256, 1);
    assert body[1..] == Reversed(rev[..|rev| - 1]);
    bn := FromMpi(body);
  }

  /** `base58_getvch`: least significant byte first, perhaps with a sign byte at the end. */
  method GetVch(v: nat) returns (buf: seq<byte>)
    ensures buf == Reversed(MpiBody(v))
  {
    var body := MpiBody(v);
    if |body| + 4 <= 4 {
      return [];
    }
    buf := Reversed(body);
  }

  /** `base58_encode`; no index leaves the digit buffer. */
  method EncodeText(bs: seq<byte>) returns (r: Outcome<string>)
    ensures r == Encode(bs)
  {
    hide CharOf, FromBase, ToBase, Chars, Capacity, LeadingZeros;
    var rev := Reversed(bs) + [0];
    assert rev[..|rev| - 1] == Reversed(bs);
    ReversedTwice(bs);
    var bn := SetVch(rev);
    if bn == 0 {
      return Stopped;
    }
    ghost var ds, z := ToBase(Value(bs), 58), LeadingZeros(bs);
    EncodingFits(bs);
    var str := new char[Capacity(|bs|)];
    var strLen := Digitize(str, bn, z);
    strLen := PadOnes(str, strLen, bs);
    ghost var all := Repeat('1', z) + Chars(ds);
    assert Reversed(str[..strLen]) == all;
    r := Returned(Reversed(str[..strLen]));
  }

  /** The division loop: digits come out least significant first. */
  method Digitize(str: array<char>, v: nat, ghost z: nat) returns (strLen: nat)
    requires v > 0 && |ToBase(v, 58)| + z <= str.Length
    modifies str
    ensures strLen == |ToBase(v, 58)|
    ensures forall i :: 0 <= i < strLen ==> str[i] == Chars(ToBase(v, 58))[strLen - 1 - i]
  {
    hide CharOf, FromBase;
    ghost var ds := ToBase(v, 58);
    ghost var cs := Chars(ds);
    var bn := v;
    strLen := 0;
    while bn > 0
      invariant bn >= 0 && strLen <= |ds| && ToBase(bn, 58) == ds[..|ds| - strLen]
      invariant forall i :: 0 <= i < strLen ==> str[i] == cs[|ds| - 1 - i]
      decreases bn
    {
      QuotientLess(bn, 58);
      var rem := bn % 58;
      bn := bn / 58;
      assert ds[|ds| - 1 - strLen] == rem;
      str[strLen] := CharOf(rem);
      strLen := strLen + 1;
    }
  }

  /** One '1' for each leading zero byte. */
  method PadOnes(str: array<char>, start: nat, bs: seq<byte>) returns (strLen: nat)
    requires start + LeadingZeros(bs) <= str.Length
    modifies str
    ensures strLen == start + LeadingZeros(bs)
    ensures forall i :: 0 <= i < start ==> str[i] == old(str[i])
    ensures forall i :: start <= i < strLen ==> str[i] == '1'
  {
    strLen := start;
    for i := 0 to |bs|
      invariant i <= LeadingZeros(bs) && strLen == start + i
      invariant forall k :: 0 <= k < start ==> str[k] == old(str[k])
      invariant forall k :: start <= k < strLen ==> str[k] == '1'
    {
      if bs[i] != 0 {
        break;
      }
      str[strLen] := '1';
      strLen := strLen + 1;
    }
  }

  /** `base58_decode`. */
  method DecodeText(s: string) returns (r: Option<seq<byte>>)
    ensures r == Decode(s)
  {
    hide FromBase, ToBase, ToBytes, Parse, MpiBody, Reversed, IsSpace;
    var start := 0;
    while start < |s| && IsSpace(s[start])
      invariant start <= |s| && SkipSpaces(s, 0) == SkipSpaces(s, start)
    {
      start := start + 1;
    }
    var v := ReadNumber(s, start);
    if v.None? {
      return None;
    }
    var tmp := GetVch(v.value);
    var len := |tmp|;
    if len >= 2 && tmp[len - 1] == 0 && tmp[len - 2] >= 0x80 {
      len := len - 1;
    }
    var i := start;
    while i < |s| && s[i] == '1'
      invariant start <= i <= |s| && OnesFrom(s, start) == OnesFrom(s, i)
    {
      i := i + 1;
    }
    assert Reversed(tmp[..len]) == ToBytes(v.value) by { DropSign(v.value); }
    r := Some(Repeat(0, i - start) + Reversed(tmp[..len]));
  }

  /** Without its sign byte the number's bytes are as written. */
  lemma DropSign(v: nat)
    ensures var tmp := Reversed(MpiBody(v));
      var len := if |tmp| >= 2 && tmp[|tmp| - 1] == 0 && tmp[|tmp| - 2] >= 0x80 then |tmp| - 1 else |tmp|;
      Reversed(tmp[..len]) == ToBytes(v)
  {
    var bs, body := ToBytes(v), MpiBody(v);
    if v > 0 { LeadNotZero(v, 256); }
  }

  /** The digit loop. */
  method ReadNumber(s: string, start: nat) returns (v: Option<nat>)
    requires start <= |s|
    ensures v == Parse(s, start, 0)
  {
    var bn, i := 0, start;
    while i < |s|
      invariant start <= i <= |s| && bn >= 0 && Parse(s, start, 0) == Parse(s, i, bn)
      decreases |s| - i
    {
      var d := DigitOf(s[i]);
      if d.None? {
        var j := i;
        while j < |s| && IsSpace(s[j])
          invariant i <= j <= |s| && SkipSpaces(s, i) == SkipSpaces(s, j)
        {
          j := j + 1;
        }
        return if j < |s| then None else Some(bn);
      }
      bn := bn * 58 + d.value;
      i := i + 1;
    }
    v := Some(bn);
  }
}
