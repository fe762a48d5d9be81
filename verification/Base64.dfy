/** A byte buffer that encoders append to. */
module Buffers {
  type byte = b: int | 0 <= b < 256

  const CHUNK_SEP: byte := 124         // '|'
  const CHUNK_SUB_SEP: byte := 44      // ','
  const CHUNK_SUB_SUB_SEP: byte := 58  // ':'
  const CHUNK_SUB_SUB_SUB_SEP: byte := 37 // '%'
  const BUFFER_SEP: byte := 35         // '#'
  const KEY_SEP: byte := 59            // ';'

  class Buffer {
    var bytes: seq<byte>

    constructor ()
      ensures bytes == []
    {
      bytes := [];
    }

    method Write(b: byte)
      modifies this
      ensures bytes == old(bytes) + [b]
    {
      bytes := bytes + [b];
    }

    function Size(): nat
      reads this
    {
      |bytes|
    }

    function Read(i: int): byte
      reads this
      requires 0 <= i < |bytes|
    {
      bytes[i]
    }
  }
}

/** The text form of numbers: a sign in the lowest bit, then base 64 without leading zeros. */
module Base64 {
  import opened Hiding
  import Constants
  import opened Arithmetic
  import opened Buffers
  import opened Longs

  // ----- the dictionary -----

  type sextet = d: int | 0 <= d < 64

  /** 'A'..'Z', 'a'..'z', '0'..'9', '+', '/' */
  function Digit(d: sextet): byte {
    if d < 26 then 65 + d
    else if d < 52 then 97 + (d - 26)
    else if d < 62 then 48 + (d - 52)
    else if d == 62 then 43 else 47
  }

  /** The position of a character in the dictionary, or -1. */
  function IndexOf(b: byte): int {
    if 65 <= b <= 90 then b - 65
    else if 97 <= b <= 122 then b - 97 + 26
    else if 48 <= b <= 57 then b - 48 + 52
    else if b == 43 then 62
    else if b == 47 then 63
    else -1
  }

  predicate IsDigit(b: byte) {
    IndexOf(b) != -1
  }

  function SextetOf(b: byte): sextet
    requires IsDigit(b)
  {
    IndexOf(b)
  }

  predicate IsSeparator(b: byte) {
    b == CHUNK_SEP || b == CHUNK_SUB_SEP || b == CHUNK_SUB_SUB_SEP || b == CHUNK_SUB_SUB_SUB_SEP
    || b == BUFFER_SEP || b == KEY_SEP
  }

  /** The 64 characters of section 4 of RFC 4648, in their order. */
  const ALPHABET: string := "ABCDEFGHIJKLMNOPQRSTUVWXYZ" + "abcdefghijklmnopqrstuvwxyz" + "0123456789" + "+/"

  /** A byte is the d-th character of the alphabet. */
  ghost predicate IsChar(b: byte, d: int) {
    && 0 <= d < 64
    && forall u {:trigger Unfold(Topic.Alphabet, u)} :: Unfold(Topic.Alphabet, u) ==>
         d < |ALPHABET| && b == ALPHABET[d] as int
  }

  /** The dictionary is that alphabet: a digit is written as its character. */
  lemma DigitIsChar(d: sextet)
    ensures |ALPHABET| == 64 && Digit(d) == ALPHABET[d] as int
  {
  }

  /** A byte is read as the position of the character that it is. */
  lemma CharIndex(b: byte, d: int)
    ensures IsChar(b, d) <==> d != -1 && IndexOf(b) == d
    ensures IsChar(b, d) <==> 0 <= d < 64 && b == Digit(d)
  {
    assert Unfold(Topic.Alphabet, true);
    if 0 <= d < 64 {
      DigitIsChar(d);
      DigitIndex(d);
    }
    if IndexOf(b) != -1 {
      DigitIsChar(IndexOf(b));
    }
  }

  lemma DigitIndex(d: sextet)
    ensures IndexOf(Digit(d)) == d && !IsSeparator(Digit(d))
  {
  }

  ghost predicate AllDigits(s: seq<byte>) {
    forall b <- s :: IsDigit(b)
  }

  function Text(ds: seq<sextet>): (s: seq<byte>)
    ensures |s| == |ds| && forall i :: 0 <= i < |ds| ==> s[i] == Digit(ds[i])
    ensures AllDigits(s) && forall b <- s :: !IsSeparator(b)
  {
    seq(|ds|, i requires 0 <= i < |ds| => Digit(ds[i]))
  }

  function Indices(s: seq<byte>): (ds: seq<sextet>)
    requires AllDigits(s)
    ensures |ds| == |s| && forall i :: 0 <= i < |s| ==> ds[i] == IndexOf(s[i])
  {
    seq(|s|, i requires 0 <= i < |s| => (assert s[i] in s; SextetOf(s[i])))
  }

  lemma TextIndices(ds: seq<sextet>)
    ensures Indices(Text(ds)) == ds
  {
  }

  // ----- positional notation -----

  /** The digits of `v` in base 64, most significant first; a single zero for 0. */
  function Sextets(v: nat): (ds: seq<sextet>)
    ensures |ds| >= 1
  {
    if v < 64 then [v] else Sextets(v / 64) + [v % 64]
  }

  function FromSextets(ds: seq<sextet>): nat {
    if ds == [] then 0 else 64 * FromSextets(ds[..|ds| - 1]) + ds[|ds| - 1]
  }

  lemma {:induction false} SextetsValue(v: nat)
    ensures FromSextets(Sextets(v)) == v
  {
    if v >= 64 {
      SextetsValue(v / 64);
      var ds := Sextets(v);
      assert ds[..|ds| - 1] == Sextets(v / 64);
    } else {
      assert Sextets(v)[..0] == [];
    }
  }

  lemma {:induction false} SextetsShape(v: nat, k: nat)
    requires v < Pow2(6 * k) && k > 0
    ensures |Sextets(v)| <= k
    ensures v > 0 ==> Sextets(v)[0] != 0
  {
    if v >= 64 {
      assert Pow2(6) == 64;
      if k > 1 {
        Pow2Sum(6, 6 * (k - 1));
        assert 6 * k == 6 + 6 * (k - 1);
        SextetsShape(v / 64, k - 1);
      }
    }
  }

  /** The high digits count for more by the weight of the low ones. */
  lemma {:induction false} FromSplit(a: seq<sextet>, b: seq<sextet>)
    ensures FromSextets(a + b) == FromSextets(a) * Pow2(6 * |b|) + FromSextets(b)
  {
    if b == [] {
      assert a + b == a;
    } else {
      var b' := b[..|b| - 1];
      FromSplit(a, b');
      assert (a + b)[..|a + b| - 1] == a + b';
      Pow2Sum(6, 6 * |b'|);
      assert Pow2(6) == 64 && 6 + 6 * |b'| == 6 * |b|;
      assert FromSextets(a) * (64 * Pow2(6 * |b'|)) == 64 * (FromSextets(a) * Pow2(6 * |b'|));
    }
  }

  /** A number divided by 64, k times over. */
  function Over64(v: nat, k: nat): nat {
    if k == 0 then v else Over64(v / 64, k - 1)
  }

  /** Digit i, counted from the left of n. */
  function DigitAt(v: nat, n: nat, i: nat): sextet
    requires i < n
  {
    Over64(v, n - 1 - i) % 64
  }

  /** The digits are those of v, most significant first, zeros in front or not. */
  ghost predicate DigitsOf(ds: seq<int>, v: nat) {
    Over64(v, |ds|) == 0 && forall i :: 0 <= i < |ds| ==> ds[i] == DigitAt(v, |ds|, i)
  }

  lemma DigitLess(v: nat, n: nat)
    requires n > 0
    ensures DigitAt(v, n, n - 1) == v % 64
    ensures forall i :: 0 <= i < n - 1 ==> DigitAt(v, n, i) == DigitAt(v / 64, n - 1, i)
  {
  }

  lemma DigitsOfLess(ds: seq<sextet>, v: nat)
    requires ds != []
    ensures DigitsOf(ds, v) <==> v % 64 == ds[|ds| - 1] && DigitsOf(ds[..|ds| - 1], v / 64)
  {
    DigitLess(v, |ds|);
    var less := ds[..|ds| - 1];
    if v % 64 == ds[|ds| - 1] && DigitsOf(less, v / 64) {
      forall i | 0 <= i < |ds| ensures ds[i] == DigitAt(v, |ds|, i) {
        assert i < |ds| - 1 ==> less[i] == ds[i];
      }
    }
  }

  /** Digits are those of exactly one number, their value. */
  lemma {:induction false} DigitsOfValue(ds: seq<sextet>, v: nat)
    ensures DigitsOf(ds, v) <==> v == FromSextets(ds)
  {
    if ds != [] {
      DigitsOfLess(ds, v);
      DigitsOfValue(ds[..|ds| - 1], v / 64);
    }
  }

  /** The text is v in base 64, by the characters of the alphabet. */
  ghost predicate Spells(text: seq<byte>, v: nat) {
    Over64(v, |text|) == 0 && forall i :: 0 <= i < |text| ==> IsChar(text[i], DigitAt(v, |text|, i))
  }

  lemma SpellsDigits(ds: seq<sextet>, v: nat)
    ensures Spells(Text(ds), v) <==> DigitsOf(ds, v)
  {
    forall i, d | 0 <= i < |ds| ensures IsChar(Text(ds)[i], d) <==> ds[i] == d {
      CharIndex(Digit(ds[i]), d);
      DigitIndex(ds[i]);
    }
  }

  /** A text of digits is in base 64 the value that it is decoded to. */
  lemma SpellsValue(text: seq<byte>, v: nat)
    requires AllDigits(text)
    ensures Spells(text, v) <==> v == FromSextets(Indices(text))
  {
    TextOfIndices(text);
    SpellsDigits(Indices(text), v);
    DigitsOfValue(Indices(text), v);
  }

  lemma TextOfIndices(text: seq<byte>)
    requires AllDigits(text)
    ensures Text(Indices(text)) == text
  {
    forall i | 0 <= i < |text| ensures IsDigit(text[i]) && Digit(SextetOf(text[i])) == text[i] {
      assert text[i] in text;
    }
  }

  /** A number in base 64 without zeros in front. */
  ghost predicate IsNumeral(text: seq<byte>, v: nat) {
    |text| >= 1 && Spells(text, v) && (|text| > 1 ==> Over64(v, |text| - 1) != 0)
  }

  lemma {:induction false} SextetsNumeral(v: nat)
    ensures IsNumeral(Text(Sextets(v)), v)
  {
    SextetsValue(v);
    DigitsOfValue(Sextets(v), v);
    SpellsDigits(Sextets(v), v);
    SextetsLeast(v);
  }

  lemma {:induction false} SextetsLeast(v: nat)
    ensures |Sextets(v)| > 1 ==> Over64(v, |Sextets(v)| - 1) != 0
  {
    if v >= 64 {
      SextetsLeast(v / 64);
    }
  }

  // ----- longs -----

  /** Sign and magnitude in one number. */
  function Folded(l: int): nat {
    if l < 0 then 2 * -l + 1 else 2 * l
  }

  function Unfolded(v: nat): int {
    if v % 2 == 1 then -(v / 2) else v / 2
  }

  function LongText(l: int): seq<byte> {
    Text(Sextets(Folded(l)))
  }

  /** The text of an integer is its magnitude doubled, plus one when it is negative, in base 64. */
  lemma LongTextSpells(l: int)
    ensures IsNumeral(LongText(l), if l < 0 then 1 - 2 * l else 2 * l)
  {
    SextetsNumeral(Folded(l));
  }

  /** What is after the bytes that were there before. */
  ghost predicate AppendsNumeral(before: seq<byte>, after: seq<byte>, v: nat) {
    before <= after && IsNumeral(after[|before|..], v)
  }

  const MAX_LONG: int := Constants.NULL_LONG // 2^53 - 1

  /** The bits of `t` from bit `i` up: what dividing by powTwo[i] and truncating leaves. */
  function Shifted(t: nat, i: nat): nat {
    if i == 0 then t else Shifted(t, i - 1) / 2
  }

  lemma {:induction false} ShiftedIsQuotient(t: nat, i: nat)
    ensures Shifted(t, i) == t / Pow2(i)
  {
    if i > 0 {
      ShiftedIsQuotient(t, i - 1);
      DivDiv(t, Pow2(i - 1), 2);
    }
  }

  /** Six places further down, one base-64 digit is left to write. */
  lemma ShiftedStep(t: nat, i: nat)
    ensures Shifted(t, i + 6) == Shifted(t, i) / 64
  {
    var s := Shifted(t, i);
    assert Shifted(t, i + 2) == s / 2 / 2;
    assert Shifted(t, i + 4) == Shifted(t, i + 2) / 2 / 2;
    assert Shifted(t, i + 6) == Shifted(t, i + 4) / 2 / 2;
  }

  lemma {:induction false} ShiftedBound(t: nat, i: nat, k: nat)
    requires t < Pow2(k) && i <= k
    ensures Shifted(t, i) < Pow2(k - i)
  {
    if i > 0 {
      ShiftedBound(t, i - 1, k);
    }
  }

  /** Digits appended from place `i` on, as long as they are not leading zeros. */
  function Written(high: nat): seq<byte> {
    if high == 0 then [] else Text(Sextets(high))
  }

  lemma WrittenStep(high: nat, next: nat)
    requires high == next / 64
    ensures high == 0 && next % 64 == 0 ==> Written(next) == []
    ensures high != 0 || next % 64 != 0 ==> Written(next) == Written(high) + [Digit(next % 64)]
  {
    if high != 0 {
      assert Sextets(next) == Sextets(high) + [next % 64];
      assert Text(Sextets(next)) == Text(Sextets(high)) + [Digit(next % 64)];
    } else if next != 0 {
      assert Text(Sextets(next)) == [Digit(next % 64)];
    }
  }

  /** The digit loop that both integer encoders run from the place below `top` down to place 5. */
  method WriteHighDigits(tmp: nat, top: nat, buffer: Buffer)
    requires top % 6 == 5 && tmp < Pow2(top)
    modifies buffer
    ensures buffer.bytes == old(buffer.bytes) + Written(Shifted(tmp, 5))
  {
    var empty := true;
    var i := top - 6;
    ShiftedBound(tmp, top, top);
    ghost var high := Shifted(tmp, top);
    while i >= 5
      invariant -1 <= i && i % 6 == 5 && high == Shifted(tmp, i + 6) && empty == (high == 0)
      invariant buffer.bytes == old(buffer.bytes) + Written(high)
    {
      var next := Shifted(tmp, i);
      ShiftedStep(tmp, i);
      WrittenStep(high, next);
      if !(empty && next % 64 == 0) {
        empty := false;
        buffer.Write(Digit(next % 64));
      }
      high := next;
      i := i - 6;
    }
  }

  lemma LowDigit(l: int)
    ensures var tmp := if l < 0 then -l else l;
      LongText(l) == Written(Shifted(tmp, 5)) + [Digit(tmp % 32 * 2 + if l < 0 then 1 else 0)]
  {
    var tmp := if l < 0 then -l else l;
    assert Shifted(tmp, 5) == tmp / 32 by {
      ShiftedIsQuotient(tmp, 5);
      assert Pow2(5) == 32;
    }
    WrittenStep(Shifted(tmp, 5), Folded(l));
    assert Folded(l) == 0 ==> Text([0]) == [Digit(0)];
  }

  method EncodeLongToBuffer(l: int, buffer: Buffer)
    requires -MAX_LONG <= l <= MAX_LONG
    modifies buffer
    ensures buffer.bytes == old(buffer.bytes) + LongText(l)
    ensures AppendsNumeral(old(buffer.bytes), buffer.bytes, if l < 0 then 1 - 2 * l else 2 * l)
  {
    LongTextSpells(l);
    var tmp := if l < 0 then -l else l;
    Pow2At();
    LowDigit(l);
    WriteHighDigits(tmp, 53, buffer);
    buffer.Write(Digit(tmp % 32 * 2 + if l < 0 then 1 else 0));
  }

  lemma Pow2At()
    ensures Pow2(53) == 0x20_0000_0000_0000 && Pow2(54) == 0x40_0000_0000_0000
  {
    assert Pow2(9) == 0x200 by { assert Pow2(4) == 16; }
    assert Pow2(18) == 0x4_0000 by { Pow2Sum(9, 9); }
    assert Pow2(27) == 0x800_0000 by { Pow2Sum(18, 9); }
    assert Pow2(53) == 0x20_0000_0000_0000 by { Pow2Sum(27, 26); assert Pow2(27) == 2 * Pow2(26); }
  }

  /** What a text denotes when its magnitude is at most 2^53 - 1. */
  function LongOf(s: seq<byte>): int
    requires AllDigits(s)
  {
    Unfolded(FromSextets(Indices(s)))
  }

  /** The digits from position `k` on, and the one before them. */
  lemma SuffixStep(ds: seq<sextet>, k: nat)
    requires 0 < k <= |ds|
    ensures FromSextets(ds[k - 1..]) == ds[k - 1] * Pow2(6 * (|ds| - k)) + FromSextets(ds[k..])
  {
    assert ds[k - 1..] == [ds[k - 1]] + ds[k..];
    FromSplit([ds[k - 1]], ds[k..]);
    assert FromSextets([ds[k - 1]]) == ds[k - 1];
  }

  lemma {:induction false} SuffixBelow(ds: seq<sextet>, k: nat)
    requires k <= |ds|
    ensures FromSextets(ds[k..]) <= FromSextets(ds)
  {
    FromSplit(ds[..k], ds[k..]);
    assert ds[..k] + ds[k..] == ds;
  }

  lemma EvenWeight(d: nat, m: nat, v: nat)
    requires m > 0
    ensures Pow2(6 * m) == 2 * Pow2(6 * m - 1)
    ensures (d * Pow2(6 * m) + v) / 2 == d * Pow2(6 * m - 1) + v / 2
  {
    assert d * Pow2(6 * m) == 2 * (d * Pow2(6 * m - 1));
  }

  /** A digit whose place is beyond the bound can only be zero. */
  lemma DigitPlace(d: nat, m: nat, v: nat)
    requires m > 0 && d * Pow2(6 * m) + v < Pow2(54)
    ensures d != 0 ==> 6 * m - 1 < 53
    ensures d * Pow2(6 * m - 1) + v / 2 < Pow2(53)
  {
    EvenWeight(d, m, v);
    if d != 0 && 6 * m >= 54 {
      Pow2Monotone(54, 6 * m);
      MulMonotone(1, d, Pow2(6 * m));
      assert false;
    }
  }

  /** The value of the last `i` digits. */
  function Suffix(ds: seq<sextet>, i: nat): nat
    requires i <= |ds|
  {
    FromSextets(ds[|ds| - i..])
  }

  /** What one more digit adds to the number decoded so far, and that nothing overflows. */
  lemma DecodeStep(ds: seq<sextet>, i: nat)
    requires 1 <= i < |ds| && FromSextets(ds) < Pow2(54)
    ensures var d, v := ds[|ds| - 1 - i], Suffix(ds, i);
      && Suffix(ds, i + 1) / 2 == v / 2 + d * Pow2(6 * i - 1)
      && (d != 0 ==> 6 * i - 1 < 64) && 0 <= d * Pow2(6 * i - 1) && v / 2 + d * Pow2(6 * i - 1) < P63
  {
    var n := |ds|;
    var d, v := ds[n - 1 - i], FromSextets(ds[n - i..]);
    SuffixStep(ds, n - i);
    SuffixBelow(ds, n - i - 1);
    DigitPlace(d, i, v);
    EvenWeight(d, i, v);
    Pow2At();
    MulMonotone(0, d, Pow2(6 * i - 1));
  }

  method AddDigit(sum: Long, d: sextet, place: nat) returns (r: Long)
    requires d != 0 ==> place < 64
    requires 0 <= Value(sum) && 0 <= d * Pow2(place) && Value(sum) + d * Pow2(place) < P63
    ensures Value(r) == Value(sum) + d * Pow2(place)
  {
    var index := FromNumber(d);
    var shifted := ShiftLeftSmall(index, place);
    r := AddSmall(sum, shifted);
  }

  /** The arithmetic of decodeToLongWithBounds, from the last digit to the first. */
  method DecodeDigits(ds: seq<sextet>) returns (r: int)
    requires ds != [] && FromSextets(ds) < Pow2(54)
    ensures r == Unfolded(FromSextets(ds))
  {
    var n := |ds|;
    var last := ds[n - 1];
    SuffixEnds(ds);
    var half := FromNumber(last / 2);
    var result := AddSmall(ZERO, half);
    var i := 1;
    while i < n
      invariant 1 <= i <= n
      invariant Value(result) == Suffix(ds, i) / 2
    {
      DecodeStep(ds, i);
      result := AddDigit(result, ds[n - 1 - i], 6 * i - 1);
      i := i + 1;
    }
    r := Signed(result, last % 2 != 0);
  }

  lemma OneSextet(d: sextet)
    ensures FromSextets([d]) == d
  {
    assert [d][..0] == [];
  }

  lemma LastSextet(ds: seq<sextet>)
    requires ds != []
    ensures FromSextets(ds) % 2 == ds[|ds| - 1] % 2
  {
    var u, d := FromSextets(ds[..|ds| - 1]), ds[|ds| - 1];
    Parity(u, d);
  }

  lemma Parity(u: nat, d: nat)
    ensures (64 * u + d) % 2 == d % 2
  {
  }

  lemma {:induction false} SuffixEnds(ds: seq<sextet>)
    requires ds != []
    ensures Suffix(ds, 1) == ds[|ds| - 1] && Suffix(ds, |ds|) == FromSextets(ds)
    ensures FromSextets(ds) % 2 == ds[|ds| - 1] % 2
  {
    LastSextet(ds);
    OneSextet(ds[|ds| - 1]);
    assert ds[|ds| - 1..] == [ds[|ds| - 1]];
    assert ds[0..] == ds;
  }

  method Signed(a: Long, negative: bool) returns (r: int)
    requires 0 <= Value(a)
    ensures r == if negative then -Value(a) else Value(a)
  {
    if negative {
      var minusOne := FromNumber(-1);
      ValueOfBits(a);
      WrapId(-Value(a));
      var product := Multiply(a, minusOne);
      r := Value(product);
    } else {
      r := Value(a);
    }
  }

  method DecodeToLongWithBounds(s: Buffer, offsetBegin: nat, offsetEnd: nat) returns (r: int)
    requires offsetBegin < offsetEnd <= |s.bytes| && AllDigits(s.bytes[offsetBegin..offsetEnd])
    requires FromSextets(Indices(s.bytes[offsetBegin..offsetEnd])) < Pow2(54)
    ensures r == LongOf(s.bytes[offsetBegin..offsetEnd])
    ensures forall v: nat :: Spells(s.bytes[offsetBegin..offsetEnd], v) ==> r == if v % 2 == 1 then -(v / 2) else v / 2
  {
    forall v: nat ensures Spells(s.bytes[offsetBegin..offsetEnd], v) <==>
      v == FromSextets(Indices(s.bytes[offsetBegin..offsetEnd]))
    {
      SpellsValue(s.bytes[offsetBegin..offsetEnd], v);
    }
    r := DecodeDigits(Indices(s.bytes[offsetBegin..offsetEnd]));
  }

  // ----- what the text form promises -----

  lemma FoldedBound(l: int)
    requires -MAX_LONG <= l <= MAX_LONG
    ensures Folded(l) < Pow2(54) && Unfolded(Folded(l)) == l
  {
    Pow2At();
  }

  /** Every integer that a double holds exactly comes back from its text; the text has one to nine
      digits of the dictionary, no leading zero digit, and none of the separators. */
  lemma LongRoundTrip(l: int)
    requires -MAX_LONG <= l <= MAX_LONG
    ensures LongOf(LongText(l)) == l && FromSextets(Indices(LongText(l))) < Pow2(54)
    ensures 1 <= |LongText(l)| <= 9 && (|LongText(l)| > 1 ==> LongText(l)[0] != Digit(0))
    ensures forall b <- LongText(l) :: IsDigit(b) && !IsSeparator(b)
  {
    var v := Folded(l);
    FoldedBound(l);
    TextIndices(Sextets(v));
    SextetsValue(v);
    SextetsShape(v, 9);
    DigitIndex(Sextets(v)[0]);
    DigitIndex(0);
  }

  /** Different integers have different texts. */
  lemma LongTextInjective(l: int, m: int)
    requires -MAX_LONG <= l <= MAX_LONG && -MAX_LONG <= m <= MAX_LONG && LongText(l) == LongText(m)
    ensures l == m
  {
    LongRoundTrip(l);
    LongRoundTrip(m);
  }
}
