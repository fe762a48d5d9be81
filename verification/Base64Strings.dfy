/** The text forms of ints, strings and boolean arrays. */
module Base64Strings {
  import opened Hiding
  import opened Arithmetic
  import opened Buffers
  import opened Base64
  import opened Values

  // ----- ints -----

  const MAX_INT_MAGNITUDE: int := 0x8000_0000

  lemma Pow2At35()
    ensures Pow2(35) > MAX_INT_MAGNITUDE
  {
    assert Pow2(7) == 128 by { assert Pow2(4) == 16; }
    assert Pow2(14) == 0x4000 by { Pow2Sum(7, 7); }
    assert Pow2(28) == 0x1000_0000 by { Pow2Sum(14, 14); }
    Pow2Sum(28, 7);
  }

  method EncodeIntToBuffer(l: int, buffer: Buffer)
    requires -MAX_INT_MAGNITUDE <= l < MAX_INT_MAGNITUDE
    modifies buffer
    ensures buffer.bytes == old(buffer.bytes) + LongText(l)
    ensures AppendsNumeral(old(buffer.bytes), buffer.bytes, if l < 0 then 1 - 2 * l else 2 * l)
  {
    LongTextSpells(l);
    var tmp := if l < 0 then -l else l;
    Pow2At35();
    LowDigit(l);
    WriteHighDigits(tmp, 35, buffer);
    buffer.Write(Digit(tmp % 32 * 2 + if l < 0 then 1 else 0));
  }

  /** What decodeToInt computes: the lowest digit is halved without truncation. */
  function IntOf(s: seq<byte>): real
    requires AllDigits(s)
  {
    SignedHalf(FromSextets(Indices(s)))
  }

  function SignedHalf(v: nat): real {
    if v % 2 == 1 then -(v as real / 2.0) else v as real / 2.0
  }

  /** The digits above the last, which are whole numbers of units. */
  method WholeUnits(ds: seq<sextet>) returns (whole: int)
    requires ds != []
    ensures 2 * whole + ds[|ds| - 1] == FromSextets(ds)
  {
    var n := |ds|;
    SuffixEnds(ds);
    whole := 0;
    var i := 1;
    while i < n
      invariant 1 <= i <= n && 2 * whole + ds[n - 1] == Suffix(ds, i)
    {
      IntStep(ds, i);
      whole := whole + ds[n - 1 - i] * Pow2(6 * i - 1);
      i := i + 1;
    }
  }

  method DecodeToIntWithBounds(s: Buffer, offsetBegin: nat, offsetEnd: nat) returns (r: real)
    requires offsetBegin < offsetEnd <= |s.bytes| && AllDigits(s.bytes[offsetBegin..offsetEnd])
    ensures r == IntOf(s.bytes[offsetBegin..offsetEnd])
    ensures forall v: nat :: Spells(s.bytes[offsetBegin..offsetEnd], v) ==>
      r == if v % 2 == 1 then -(v as real / 2.0) else v as real / 2.0
  {
    forall v: nat ensures Spells(s.bytes[offsetBegin..offsetEnd], v) <==>
      v == FromSextets(Indices(s.bytes[offsetBegin..offsetEnd]))
    {
      SpellsValue(s.bytes[offsetBegin..offsetEnd], v);
    }
    var ds := Indices(s.bytes[offsetBegin..offsetEnd]);
    var last := ds[|ds| - 1];
    var whole := WholeUnits(ds);
    HalfIs(whole, last, FromSextets(ds));
    r := HalfUp(whole, last);
    if last % 2 != 0 {
      r := -r;
    }
  }

  function HalfUp(whole: int, last: int): (r: real)
    ensures r == (2 * whole + last) as real / 2.0
  {
    last as real / 2.0 + whole as real
  }

  lemma HalfIs(whole: int, last: int, v: nat)
    requires 2 * whole + last == v
    ensures SignedHalf(v) == if last % 2 != 0 then -HalfUp(whole, last) else HalfUp(whole, last)
  {
    assert v % 2 == last % 2;
  }

  lemma IntStep(ds: seq<sextet>, i: nat)
    requires 1 <= i < |ds|
    ensures Suffix(ds, i + 1) == 2 * (ds[|ds| - 1 - i] * Pow2(6 * i - 1)) + Suffix(ds, i)
  {
    var d := ds[|ds| - 1 - i];
    SuffixStep(ds, |ds| - i);
    assert d * Pow2(6 * i) == 2 * (d * Pow2(6 * i - 1));
  }

  /** An int comes back from its text exactly when it is not negative; a negative one comes back half too small. */
  lemma IntRoundTrip(l: int)
    ensures IntOf(LongText(l)) == l as real <==> l >= 0
    ensures l < 0 ==> IntOf(LongText(l)) == l as real - 0.5
  {
    TextIndices(Sextets(Folded(l)));
    SextetsValue(Folded(l));
  }

  // ----- strings -----

  // The four digits that three bytes x, y, z share.
  function D0(x: byte): sextet { x / 4 }
  function D1(x: byte, y: byte): sextet { x % 4 * 16 + y / 16 }
  function D2(y: byte, z: byte): sextet { y % 16 * 4 + z / 64 }
  function D3(z: byte): sextet { z % 64 }

  /** Unpadded base 64 of section 4 of RFC 4648: three bytes make four digits, and a last group of
      fewer bytes is filled up with zero bits to whole digits. */
  function Rfc4648(b: seq<byte>): seq<sextet> {
    if |b| == 0 then []
    else if |b| == 1 then [D0(b[0]), D1(b[0], 0)]
    else if |b| == 2 then [D0(b[0]), D1(b[0], b[1]), D2(b[1], 0)]
    else [D0(b[0]), D1(b[0], b[1]), D2(b[1], b[2]), D3(b[2])] + Rfc4648(b[3..])
  }

  function Word24(x: byte, y: byte, z: byte): nat {
    (x as int) * 65536 + (y as int) * 256 + z
  }

  /** The four digits are those of the 24-bit number that the three bytes form. */
  lemma FourDigits(x: byte, y: byte, z: byte)
    ensures 64 * (64 * (64 * D0(x) as int + D1(x, y)) + D2(y, z)) + D3(z) == Word24(x, y, z)
  {
  }

  /** Bytes 3k to 3k + 2 as one number, with zeros for the ones after the end. */
  function Group(b: seq<byte>, k: nat): nat {
    Word24(ByteAt(b, 3 * k), ByteAt(b, 3 * k + 1), ByteAt(b, 3 * k + 2))
  }

  function ByteAt(b: seq<byte>, i: nat): byte {
    if i < |b| then b[i] else 0
  }

  /** The text is the bits of the bytes, six a character, from the alphabet. */
  ghost predicate SpellsBytes(text: seq<byte>, b: seq<byte>) {
    |text| == (8 * |b| + 5) / 6
    && forall i :: 0 <= i < |text| ==> IsChar(text[i], DigitAt(Group(b, i / 4), 4, i % 4))
  }

  lemma GroupDigits(x: byte, y: byte, z: byte)
    ensures DigitAt(Word24(x, y, z), 4, 0) == D0(x) && DigitAt(Word24(x, y, z), 4, 1) == D1(x, y)
    ensures DigitAt(Word24(x, y, z), 4, 2) == D2(y, z) && DigitAt(Word24(x, y, z), 4, 3) == D3(z)
  {
    FourDigits(x, y, z);
    var one: seq<sextet>, two: seq<sextet> := [D0(x)], [D0(x), D1(x, y)];
    var three: seq<sextet>, ds: seq<sextet> := [D0(x), D1(x, y), D2(y, z)], [D0(x), D1(x, y), D2(y, z), D3(z)];
    assert one[..0] == [] && two[..1] == one && three[..2] == two && ds[..3] == three;
    assert FromSextets(one) == D0(x) && FromSextets(two) == 64 * FromSextets(one) + D1(x, y);
    DigitsOfValue(ds, Word24(x, y, z));
    assert forall i :: 0 <= i < 4 ==> ds[i] == DigitAt(Word24(x, y, z), 4, i);
  }

  lemma GroupsAfter(b: seq<byte>, i: nat)
    requires |b| >= 3 && i >= 4
    ensures Group(b[3..], (i - 4) / 4) == Group(b, i / 4) && (i - 4) % 4 == i % 4
  {
    assert (i - 4) / 4 == i / 4 - 1;
  }

  /** Digit i of the bytes, group by group. */
  function BitsAt(b: seq<byte>, i: nat): sextet
    decreases i
  {
    if i < 4 then DigitAt(Group(b, 0), 4, i) else if |b| < 3 then 0 else BitsAt(b[3..], i - 4)
  }

  lemma {:induction false} BitsAtGroup(b: seq<byte>, i: nat)
    requires i < (8 * |b| + 5) / 6
    ensures BitsAt(b, i) == DigitAt(Group(b, i / 4), 4, i % 4)
    decreases i
  {
    if i >= 4 {
      GroupsAfter(b, i);
      BitsAtGroup(b[3..], i - 4);
    }
  }

  lemma FirstBits(b: seq<byte>)
    ensures BitsAt(b, 0) == D0(ByteAt(b, 0)) && BitsAt(b, 1) == D1(ByteAt(b, 0), ByteAt(b, 1))
    ensures BitsAt(b, 2) == D2(ByteAt(b, 1), ByteAt(b, 2)) && BitsAt(b, 3) == D3(ByteAt(b, 2))
  {
    GroupDigits(ByteAt(b, 0), ByteAt(b, 1), ByteAt(b, 2));
  }

  lemma {:induction false} Rfc4648At(b: seq<byte>)
    ensures |Rfc4648(b)| == (8 * |b| + 5) / 6
    ensures forall i :: 0 <= i < |Rfc4648(b)| ==> Rfc4648(b)[i] == BitsAt(b, i)
  {
    FirstBits(b);
    if |b| >= 3 {
      Rfc4648Next(b);
      Rfc4648At(b[3..]);
    }
  }

  /** The text of a string, by the low bytes of its characters. */
  lemma StringTextSpells(s: seq<code>)
    ensures SpellsBytes(StringText(s), LowBytes(s))
  {
    var ds := Rfc4648(LowBytes(s));
    Rfc4648At(LowBytes(s));
    forall i | 0 <= i < |ds| ensures IsChar(StringText(s)[i], DigitAt(Group(LowBytes(s), i / 4), 4, i % 4)) {
      CharIndex(Digit(ds[i]), ds[i]);
      BitsAtGroup(LowBytes(s), i);
    }
  }

  lemma Rfc4648Next(b: seq<byte>)
    requires |b| >= 3
    ensures Rfc4648(b) == [D0(b[0]), D1(b[0], b[1]), D2(b[1], b[2]), D3(b[2])] + Rfc4648(b[3..])
  {
  }

  lemma {:induction false} Rfc4648Append(a: seq<byte>, b: seq<byte>)
    requires |a| % 3 == 0
    ensures Rfc4648(a + b) == Rfc4648(a) + Rfc4648(b)
  {
    if a == [] {
      assert a + b == b;
    } else {
      Rfc4648Append(a[3..], b);
      assert (a + b)[3..] == a[3..] + b;
      Rfc4648Next(a);
      Rfc4648Next(a + b);
      Together([D0(a[0]), D1(a[0], a[1]), D2(a[1], a[2]), D3(a[2])], Rfc4648(a[3..]), Rfc4648(b));
    }
  }

  function LowByte(c: code): byte {
    c % 256
  }

  function LowBytes(s: seq<code>): (b: seq<byte>)
    ensures |b| == |s| && forall i :: 0 <= i < |s| ==> b[i] == LowByte(s[i])
  {
    seq(|s|, i requires 0 <= i < |s| => LowByte(s[i]))
  }

  /** The digits already written for a group of one or two bytes. */
  function Begun(b: seq<byte>): seq<sextet>
    requires |b| < 3
  {
    if |b| == 0 then [] else if |b| == 1 then [D0(b[0])] else [D0(b[0]), D1(b[0], b[1])]
  }

  /** The bits of the last byte of the group that no digit has taken yet, at the top of a digit. */
  function Held(b: seq<byte>): sextet
    requires |b| < 3
  {
    if |b| == 0 then 0 else if |b| == 1 then D1(b[0], 0) else D2(b[1], 0)
  }

  lemma Displays<T>(a: T, b: T, c: T, d: T)
    ensures [a, b] == [a] + [b] && [a, b, c] == [a, b] + [c] && [a, b, c, d] == [a, b] + [c, d]
  {
  }

  lemma GroupOf(b: seq<byte>)
    ensures |b| == 1 || |b| == 2 ==> Rfc4648(b) == Begun(b) + [Held(b)]
  {
    if |b| == 1 {
      Displays(D0(b[0]), D1(b[0], 0), 0, 0);
    } else if |b| == 2 {
      Displays(D0(b[0]), D1(b[0], b[1]), D2(b[1], 0), 0);
    }
  }

  lemma GroupFull(b: seq<byte>)
    requires |b| == 3
    ensures Rfc4648(b) == Begun(b[..2]) + [D2(b[1], b[2]), D3(b[2])]
  {
    Displays(D0(b[0]), D1(b[0], b[1]), D2(b[1], b[2]), D3(b[2]));
    assert Rfc4648(b[3..]) == [];
  }

  lemma TextAppend(a: seq<sextet>, b: seq<sextet>)
    ensures Text(a + b) == Text(a) + Text(b)
  {
  }

  /** What has been written after the full groups `a` and the begun group `g`. */
  function Progress(a: seq<byte>, g: seq<byte>): seq<sextet>
    requires |g| < 3
  {
    Rfc4648(a) + Begun(g)
  }

  lemma ProgressFirst(a: seq<byte>, c: byte)
    ensures Progress(a, [c]) == Progress(a, []) + [D0(c)] && Held([c]) == c % 4 * 16
  {
  }

  lemma ProgressSecond(a: seq<byte>, g: seq<byte>, c: byte)
    requires |g| == 1
    ensures Held(g) + c / 16 < 64 && Progress(a, g + [c]) == Progress(a, g) + [Held(g) + c / 16]
    ensures Held(g + [c]) == c % 16 * 4
  {
    Displays(D0(g[0]), D1(g[0], c), 0, 0);
    assert Begun(g + [c]) == Begun(g) + [D1(g[0], c)];
    assert D1(g[0], c) == Held(g) + c / 16;
  }

  lemma ProgressThird(a: seq<byte>, g: seq<byte>, c: byte)
    requires |g| == 2 && |a| % 3 == 0
    ensures Held(g) + c / 64 < 64
    ensures Progress(a + (g + [c]), []) == Progress(a, g) + [Held(g) + c / 64, c % 64]
  {
    var full := g + [c];
    Rfc4648Append(a, full);
    GroupFull(full);
    assert full[..2] == g;
    assert D2(g[1], c) == Held(g) + c / 64;
  }

  function StringText(s: seq<code>): seq<byte> {
    Text(Rfc4648(LowBytes(s)))
  }

  /** The encoder only looks at the low byte of a character. */
  lemma LowByteDigits(c: code)
    ensures var b := LowByte(c);
      && c / 4 % 64 == b / 4 && c % 4 == b % 4 && c / 16 % 16 == b / 16
      && c % 16 == b % 16 && c / 64 % 4 == b / 64 && c % 64 == b % 64
  {
    var q, b := c as int / 256, c as int % 256;
    assert c == 256 * q + b;
    LowBits(q, b, 4, 64);
    LowBits(q, b, 16, 16);
    LowBits(q, b, 64, 4);
  }

  /** The bits from n up of the low byte, where 256 == n * k, and those below. */
  lemma LowBits(q: nat, b: nat, n: nat, k: nat)
    requires b < 256 && ((n == 4 && k == 64) || (n == 16 && k == 16) || (n == 64 && k == 4))
    ensures (256 * q + b) / n % k == b / n && (256 * q + b) % n == b % n
  {
    var d, r := b / n, b % n;
    assert b == n * d + r && d < k;
    DivUnique(256 * q + b, n, k * q + d, r);
    DivUnique(k * q + d, k, q, d);
  }

  /** The digits written, the held bits and the count of free bits are those of full groups `a` and
      a begun group `g`. */
  ghost predicate Encoding(written: seq<sextet>, a: seq<byte>, g: seq<byte>, held: sextet, free: int) {
    && |a| % 3 == 0 && |g| < 3 && free == 6 - 2 * |g| && (g != [] ==> held == Held(g))
    && written == Progress(a, g)
  }

  /** One character of encodeStringToBuffer: the digits it writes, and the new held and free bits. */
  method EncodeChar(c: code, held: sextet, free: int, ghost w: seq<sextet>, ghost a: seq<byte>, ghost g: seq<byte>)
    returns (digits: seq<sextet>, held': sextet, free': int, ghost a': seq<byte>, ghost g': seq<byte>)
    requires Encoding(w, a, g, held, free)
    ensures a' + g' == a + g + [LowByte(c)] && Encoding(w + digits, a', g', held', free')
  {
    ghost var b := LowByte(c);
    if free == 6 {
      FirstChar(c, held, w, a, g);
      digits := [c / 4 % 64];
      held' := c % 4 * 16;
      free' := 4;
      a', g' := a, [b];
    } else if free == 4 {
      SecondChar(c, held, w, a, g);
      digits := [held + c / 16 % 16];
      held' := c % 16 * 4;
      free' := 2;
      a', g' := a, g + [b];
    } else {
      ThirdChar(c, held, w, a, g);
      digits := [held + c / 64 % 4, c % 64];
      held' := held;
      free' := 6;
      a', g' := a + (g + [b]), [];
    }
  }

  lemma FirstChar(c: code, held: sextet, w: seq<sextet>, a: seq<byte>, g: seq<byte>)
    requires Encoding(w, a, g, held, 6)
    ensures a + [LowByte(c)] == a + g + [LowByte(c)]
    ensures Encoding(w + [c / 4 % 64], a, [LowByte(c)], c % 4 * 16, 4)
  {
    LowByteDigits(c);
    ProgressFirst(a, LowByte(c));
  }

  lemma SecondChar(c: code, held: sextet, w: seq<sextet>, a: seq<byte>, g: seq<byte>)
    requires Encoding(w, a, g, held, 4)
    ensures a + (g + [LowByte(c)]) == a + g + [LowByte(c)] && held + c / 16 % 16 < 64
    ensures Encoding(w + [held + c / 16 % 16], a, g + [LowByte(c)], c % 16 * 4, 2)
  {
    LowByteDigits(c);
    ProgressSecond(a, g, LowByte(c));
  }

  lemma ThirdChar(c: code, held: sextet, w: seq<sextet>, a: seq<byte>, g: seq<byte>)
    requires Encoding(w, a, g, held, 2)
    ensures a + (g + [LowByte(c)]) + [] == a + g + [LowByte(c)] && held + c / 64 % 4 < 64
    ensures Encoding(w + [held + c / 64 % 4, c % 64], a + (g + [LowByte(c)]), [], held, 6)
  {
    LowByteDigits(c);
    ProgressThird(a, g, LowByte(c));
  }

  lemma OneMore(s: seq<code>, i: nat)
    requires i < |s|
    ensures LowBytes(s[..i + 1]) == LowBytes(s[..i]) + [LowByte(s[i])]
  {
  }

  lemma {:induction false} EncodingEnds(written: seq<sextet>, a: seq<byte>, g: seq<byte>, held: sextet, free: int)
    requires Encoding(written, a, g, held, free)
    ensures Rfc4648(a + g) == if free == 6 then written else written + [held]
  {
    Rfc4648Append(a, g);
    GroupOf(g);
  }

  /** The first i characters have been seen; what that means comes into play where `Unfold` is mentioned. */
  ghost predicate Seen(s: seq<code>, i: nat, w: seq<sextet>, a: seq<byte>, g: seq<byte>, held: sextet, free: int) {
    i <= |s| && forall b {:trigger Unfold(Topic.Encodings, b)} :: Unfold(Topic.Encodings, b) ==>
      LowBytes(s[..i]) == a + g && Encoding(w, a, g, held, free)
  }

  lemma SeenNone(s: seq<code>)
    ensures Seen(s, 0, [], [], [], 0, 6)
  {
  }

  method EncodeNext(s: seq<code>, i: nat, held: sextet, free: int, buffer: Buffer, ghost w: seq<sextet>,
                    ghost a: seq<byte>, ghost g: seq<byte>)
    returns (held': sextet, free': int, ghost w': seq<sextet>, ghost a': seq<byte>, ghost g': seq<byte>)
    requires i < |s| && Seen(s, i, w, a, g, held, free)
    modifies buffer
    ensures Seen(s, i + 1, w', a', g', held', free')
    ensures w <= w' && buffer.bytes == old(buffer.bytes) + Text(w'[|w|..])
  {
    assert Unfold(Topic.Encodings, true);
    OneMore(s, i);
    var digits;
    digits, held', free', a', g' := EncodeChar(s[i], held, free, w, a, g);
    WriteDigits(digits, buffer);
    w' := w + digits;
    assert w'[|w|..] == digits;
  }

  lemma SeenAll(s: seq<code>, w: seq<sextet>, a: seq<byte>, g: seq<byte>, held: sextet, free: int)
    requires Seen(s, |s|, w, a, g, held, free)
    ensures StringText(s) == Text(w) + if free == 6 then [] else [Digit(held)]
  {
    assert Unfold(Topic.Encodings, true);
    assert s[..|s|] == s;
    EncodingEnds(w, a, g, held, free);
    TextAppend(w, [held]);
  }

  method EncodeStringToBuffer(s: seq<code>, buffer: Buffer)
    modifies buffer
    ensures buffer.bytes == old(buffer.bytes) + StringText(s)
    ensures old(buffer.bytes) <= buffer.bytes && SpellsBytes(buffer.bytes[|old(buffer.bytes)|..], LowBytes(s))
  {
    StringTextSpells(s);
    var currentEncodedChar: sextet := 0;
    var freeBitsInCurrentChar := 6;
    ghost var w: seq<sextet>, a: seq<byte>, g: seq<byte> := [], [], [];
    var charIdx := 0;
    SeenNone(s);
    while charIdx < |s|
      invariant 0 <= charIdx <= |s| && Seen(s, charIdx, w, a, g, currentEncodedChar, freeBitsInCurrentChar)
      invariant buffer.bytes == old(buffer.bytes) + Text(w)
    {
      ghost var before := w;
      currentEncodedChar, freeBitsInCurrentChar, w, a, g :=
        EncodeNext(s, charIdx, currentEncodedChar, freeBitsInCurrentChar, buffer, w, a, g);
      TextAppend(before, w[|before|..]);
      charIdx := charIdx + 1;
    }
    SeenAll(s, w, a, g, currentEncodedChar, freeBitsInCurrentChar);
    if freeBitsInCurrentChar != 6 {
      buffer.Write(Digit(currentEncodedChar));
    }
  }

  method WriteDigits(ds: seq<sextet>, buffer: Buffer)
    modifies buffer
    ensures buffer.bytes == old(buffer.bytes) + Text(ds)
  {
    var i := 0;
    while i < |ds|
      invariant 0 <= i <= |ds| && buffer.bytes == old(buffer.bytes) + Text(ds[..i])
    {
      assert Text(ds[..i + 1]) == Text(ds[..i]) + [Digit(ds[i])];
      buffer.Write(Digit(ds[i]));
      i := i + 1;
    }
    assert ds[..|ds|] == ds;
  }

  // The three bytes that four digits share.
  function B0(a: sextet, b: sextet): byte { a * 4 + b / 16 }
  function B1(b: sextet, c: sextet): byte { b % 16 * 16 + c / 4 }
  function B2(c: sextet, d: sextet): byte { c % 4 * 64 + d }

  /** The bytes that digits hold; bits left over in a short last group are dropped. */
  function Unpacked(ds: seq<sextet>): seq<byte> {
    if |ds| < 2 then []
    else if |ds| == 2 then [B0(ds[0], ds[1])]
    else if |ds| == 3 then [B0(ds[0], ds[1]), B1(ds[1], ds[2])]
    else Triple(ds[0], ds[1], ds[2], ds[3]) + Unpacked(ds[4..])
  }

  function Triple(a: sextet, b: sextet, c: sextet, d: sextet): seq<byte> {
    [B0(a, b), B1(b, c), B2(c, d)]
  }

  /** The text is these digits, by the characters of the alphabet. */
  ghost predicate Reads(text: seq<byte>, ds: seq<int>) {
    |text| == |ds| && forall i :: 0 <= i < |text| ==> IsChar(text[i], ds[i])
  }

  /** The digits of a text are the positions of its characters. */
  lemma ReadsIndices(text: seq<byte>, ds: seq<int>)
    requires AllDigits(text)
    ensures Reads(text, ds) <==> ds == Indices(text)
  {
    forall i, d | 0 <= i < |text| ensures IsChar(text[i], d) <==> Indices(text)[i] == d {
      CharIndex(text[i], d);
    }
  }

  /** Digits 4k to 4k + 3 as one number, with zeros for the ones after the end. */
  function Quartet(ds: seq<sextet>, k: nat): nat {
    64 * (64 * (64 * SextetAt(ds, 4 * k) as int + SextetAt(ds, 4 * k + 1)) + SextetAt(ds, 4 * k + 2))
      + SextetAt(ds, 4 * k + 3)
  }

  function SextetAt(ds: seq<sextet>, i: nat): sextet {
    if i < |ds| then ds[i] else 0
  }

  /** Byte j of three, most significant first. */
  function ByteOf(v: nat, j: nat): int {
    if j == 0 then v / 65536 % 256 else if j == 1 then v / 256 % 256 else v % 256
  }

  lemma QuartetBytes(a: sextet, b: sextet, c: sextet, d: sextet)
    ensures var v := 64 * (64 * (64 * a as int + b) + c) + d;
      ByteOf(v, 0) == B0(a, b) && ByteOf(v, 1) == B1(b, c) && ByteOf(v, 2) == B2(c, d)
  {
    QuartetParts(a, b / 16, b % 16, c / 4, c % 4, d);
  }

  lemma QuartetParts(a: int, bh: int, bl: int, ch: int, cl: int, d: int)
    requires 0 <= a < 64 && 0 <= bh < 4 && 0 <= bl < 16 && 0 <= ch < 16 && 0 <= cl < 4 && 0 <= d < 64
    ensures var v := 64 * (64 * (64 * a + (16 * bh + bl)) + (4 * ch + cl)) + d;
      ByteOf(v, 0) == a * 4 + bh && ByteOf(v, 1) == bl * 16 + ch && ByteOf(v, 2) == cl * 64 + d
  {
    BytesOf(a * 4 + bh, bl * 16 + ch, cl * 64 + d);
  }

  lemma BytesOf(x: int, y: int, z: int)
    requires 0 <= x < 256 && 0 <= y < 256 && 0 <= z < 256
    ensures var v := 65536 * x + 256 * y + z; ByteOf(v, 0) == x && ByteOf(v, 1) == y && ByteOf(v, 2) == z
  {
    var v := 65536 * x + 256 * y + z;
    DivUnique(v, 65536, x, 256 * y + z);
    DivUnique(v, 256, 256 * x + y, z);
    DivUnique(256 * x + y, 256, x, y);
  }

  lemma QuartetsAfter(ds: seq<sextet>, j: nat)
    requires |ds| >= 4 && j >= 3
    ensures Quartet(ds[4..], (j - 3) / 3) == Quartet(ds, j / 3) && (j - 3) % 3 == j % 3
  {
    assert (j - 3) / 3 == j / 3 - 1;
  }

  ghost predicate BitsOf(bytes: seq<byte>, ds: seq<sextet>) {
    |bytes| == 6 * |ds| / 8 && forall j :: 0 <= j < |bytes| ==> bytes[j] == ByteOf(Quartet(ds, j / 3), j % 3)
  }

  /** Byte j of the digits, group by group. */
  function BitsByte(ds: seq<sextet>, j: nat): int
    decreases j
  {
    if j < 3 then ByteOf(Quartet(ds, 0), j) else if |ds| < 4 then 0 else BitsByte(ds[4..], j - 3)
  }

  lemma {:induction false} BitsByteQuartet(ds: seq<sextet>, j: nat)
    requires j < 6 * |ds| / 8
    ensures BitsByte(ds, j) == ByteOf(Quartet(ds, j / 3), j % 3)
    decreases j
  {
    if j >= 3 {
      QuartetsAfter(ds, j);
      BitsByteQuartet(ds[4..], j - 3);
    }
  }

  lemma FirstBytes(ds: seq<sextet>)
    ensures BitsByte(ds, 0) == B0(SextetAt(ds, 0), SextetAt(ds, 1))
    ensures BitsByte(ds, 1) == B1(SextetAt(ds, 1), SextetAt(ds, 2))
    ensures BitsByte(ds, 2) == B2(SextetAt(ds, 2), SextetAt(ds, 3))
  {
    QuartetBytes(SextetAt(ds, 0), SextetAt(ds, 1), SextetAt(ds, 2), SextetAt(ds, 3));
  }

  lemma {:induction false} UnpackedBytes(ds: seq<sextet>)
    ensures |Unpacked(ds)| == 6 * |ds| / 8
    ensures forall j :: 0 <= j < |Unpacked(ds)| ==> Unpacked(ds)[j] == BitsByte(ds, j)
  {
    FirstBytes(ds);
    if |ds| >= 4 {
      UnpackedNext(ds);
      UnpackedBytes(ds[4..]);
    }
  }

  /** The bytes are the bits of the digits, eight a byte. */
  lemma UnpackedAt(ds: seq<sextet>)
    ensures BitsOf(Unpacked(ds), ds)
  {
    UnpackedBytes(ds);
    forall j | 0 <= j < |Unpacked(ds)| ensures Unpacked(ds)[j] == ByteOf(Quartet(ds, j / 3), j % 3) {
      BitsByteQuartet(ds, j);
    }
  }

  lemma UnpackedNext(ds: seq<sextet>)
    requires |ds| >= 4
    ensures Unpacked(ds) == Triple(ds[0], ds[1], ds[2], ds[3]) + Unpacked(ds[4..])
  {
  }

  lemma {:induction false} UnpackedAppend(a: seq<sextet>, b: seq<sextet>)
    requires |a| % 4 == 0
    ensures Unpacked(a + b) == Unpacked(a) + Unpacked(b)
  {
    if a == [] {
      assert a + b == b;
    } else {
      UnpackedAppend(a[4..], b);
      assert (a + b)[4..] == a[4..] + b;
      UnpackedNext(a);
      UnpackedNext(a + b);
      Together(Triple(a[0], a[1], a[2], a[3]), Unpacked(a[4..]), Unpacked(b));
    }
  }

  /** The bits of the next byte that are already known. */
  function Partial(g: seq<sextet>): int
    requires |g| < 4
  {
    if |g| == 0 then 0 else if |g| == 1 then g[0] as int * 4 else if |g| == 2 then g[1] as int % 16 * 16
      else g[2] as int % 4 * 64
  }

  ghost predicate Decoding(result: seq<byte>, a: seq<sextet>, g: seq<sextet>, partial: int, free: int) {
    && |a| % 4 == 0 && |g| < 4 && free == (if g == [] then 8 else 2 * |g|) && (g != [] ==> partial == Partial(g))
    && result == Unpacked(a) + Unpacked(g)
  }

  /** What one more digit of a group completes. */
  lemma GroupMore(g: seq<sextet>, d: sextet)
    requires |g| < 3
    ensures Unpacked(g + [d]) ==
      Unpacked(g) + if |g| == 0 then [] else if |g| == 1 then [B0(g[0], d)] else [B1(g[1], d)]
  {
  }

  lemma GroupDone(a: seq<sextet>, g: seq<sextet>, d: sextet)
    requires |a| % 4 == 0 && |g| == 3
    ensures Unpacked(a + (g + [d])) == Unpacked(a) + Unpacked(g) + [B2(g[2], d)]
  {
    var full := g + [d];
    UnpackedAppend(a, full);
    UnpackedNext(full);
    assert Unpacked(full[4..]) == [];
    assert Unpacked(full) == Unpacked(g) + [B2(g[2], d)];
  }

  lemma FirstDigit(r: seq<byte>, a: seq<sextet>, g: seq<sextet>, partial: int, d: sextet)
    requires Decoding(r, a, g, partial, 8)
    ensures Decoding(r, a, g + [d], d as int * 4, 2)
  {
    GroupMore(g, d);
  }

  lemma SecondDigit(r: seq<byte>, a: seq<sextet>, g: seq<sextet>, partial: int, d: sextet)
    requires Decoding(r, a, g, partial, 2)
    ensures 0 <= partial + d / 16 < 256
    ensures Decoding(r + [(partial + d / 16) as byte], a, g + [d], d as int % 16 * 16, 4)
  {
    GroupMore(g, d);
  }

  lemma ThirdDigit(r: seq<byte>, a: seq<sextet>, g: seq<sextet>, partial: int, d: sextet)
    requires Decoding(r, a, g, partial, 4)
    ensures 0 <= partial + d / 4 < 256
    ensures Decoding(r + [(partial + d / 4) as byte], a, g + [d], d as int % 4 * 64, 6)
  {
    GroupMore(g, d);
  }

  lemma FourthDigit(r: seq<byte>, a: seq<sextet>, g: seq<sextet>, partial: int, d: sextet)
    requires Decoding(r, a, g, partial, 6)
    ensures 0 <= partial + d < 256 && Decoding(r + [(partial + d) as byte], a + (g + [d]), [], partial, 8)
  {
    var b := LastByte(g[2], d);
    GroupDone(a, g, d);
    DoneBytes(r, Unpacked(a) + Unpacked(g), b, Unpacked(a + (g + [d])));
    assert |a + (g + [d])| == |a| + 4;
  }

  lemma LastByte(c: sextet, d: sextet) returns (b: byte)
    ensures b == B2(c, d) && b == c as int % 4 * 64 + d
  {
    b := B2(c, d);
  }

  lemma DoneBytes(r: seq<byte>, before: seq<byte>, b: byte, after: seq<byte>)
    requires r == before && after == before + [b]
    ensures r + [b] == after + Unpacked([])
  {
  }

  /** One digit of decodeToStringWithBounds: the bytes it completes, and the new partial and free bits. */
  method DecodeDigit(d: sextet, partial: int, free: int, ghost r: seq<byte>, ghost a: seq<sextet>, ghost g: seq<sextet>)
    returns (bytes: seq<byte>, partial': int, free': int, ghost a': seq<sextet>, ghost g': seq<sextet>)
    requires Decoding(r, a, g, partial, free)
    ensures a' + g' == a + g + [d] && Decoding(r + bytes, a', g', partial', free')
  {
    a', g' := a, g + [d];
    if free == 8 {
      FirstDigit(r, a, g, partial, d);
      bytes := [];
      assert r + bytes == r;
      partial' := d as int * 4;
      free' := 2;
    } else if free == 2 {
      SecondDigit(r, a, g, partial, d);
      bytes := [(partial + d / 16) as byte];
      partial' := d as int % 16 * 16;
      free' := 4;
    } else if free == 4 {
      ThirdDigit(r, a, g, partial, d);
      bytes := [(partial + d / 4) as byte];
      partial' := d as int % 4 * 64;
      free' := 6;
    } else {
      FourthDigit(r, a, g, partial, d);
      bytes := [(partial + d) as byte];
      partial' := partial;
      free' := 8;
      a', g' := a + (g + [d]), [];
    }
  }

  method DecodeToStringWithBounds(s: Buffer, offsetBegin: nat, offsetEnd: nat) returns (result: seq<byte>)
    requires offsetBegin <= offsetEnd <= |s.bytes| && AllDigits(s.bytes[offsetBegin..offsetEnd])
    ensures result == Unpacked(Indices(s.bytes[offsetBegin..offsetEnd]))
    ensures forall ds: seq<sextet> :: Reads(s.bytes[offsetBegin..offsetEnd], ds) ==> BitsOf(result, ds)
  {
    var ds := Indices(s.bytes[offsetBegin..offsetEnd]);
    UnpackedAt(ds);
    forall ds': seq<sextet> | Reads(s.bytes[offsetBegin..offsetEnd], ds') ensures ds' == ds {
      ReadsIndices(s.bytes[offsetBegin..offsetEnd], ds');
    }
    result := [];
    var currentDecodedChar, freeBitsInCurrentChar := 0, 8;
    ghost var a: seq<sextet>, g: seq<sextet> := [], [];
    var charIdx := 0;
    while charIdx < |ds|
      invariant 0 <= charIdx <= |ds| && ds[..charIdx] == a + g
      invariant Decoding(result, a, g, currentDecodedChar, freeBitsInCurrentChar)
    {
      assert ds[..charIdx + 1] == ds[..charIdx] + [ds[charIdx]];
      var bytes;
      bytes, currentDecodedChar, freeBitsInCurrentChar, a, g :=
        DecodeDigit(ds[charIdx], currentDecodedChar, freeBitsInCurrentChar, result, a, g);
      result := result + bytes;
      charIdx := charIdx + 1;
    }
    assert ds[..|ds|] == ds;
    UnpackedAppend(a, g);
  }

  lemma DigitsToBytes(x: byte, y: byte, z: byte)
    ensures B0(D0(x), D1(x, y)) == x && B1(D1(x, y), D2(y, z)) == y && B2(D2(y, z), D3(z)) == z
  {
    assert D1(x, y) / 16 == x % 4 && D1(x, y) % 16 == y / 16;
    assert D2(y, z) / 4 == y % 16 && D2(y, z) % 4 == z / 64;
  }

  lemma UnpackedTwo(a: sextet, b: sextet)
    ensures Unpacked([a, b]) == [B0(a, b)]
  {
  }

  lemma UnpackedThree(a: sextet, b: sextet, c: sextet)
    ensures Unpacked([a, b, c]) == [B0(a, b), B1(b, c)]
  {
  }

  lemma RfcOne(x: byte)
    ensures Rfc4648([x]) == [D0(x), D1(x, 0)]
  {
  }

  lemma RfcTwo(x: byte, y: byte)
    ensures Rfc4648([x, y]) == [D0(x), D1(x, y), D2(y, 0)]
  {
  }

  lemma UnpackedOneByte(x: byte)
    ensures Unpacked(Rfc4648([x])) == [x]
  {
    RfcOne(x);
    DigitsToBytes(x, 0, 0);
    UnpackedTwo(D0(x), D1(x, 0));
  }

  lemma UnpackedTwoBytes(x: byte, y: byte)
    ensures Unpacked(Rfc4648([x, y])) == [x, y]
  {
    RfcTwo(x, y);
    DigitsToBytes(x, y, 0);
    UnpackedThree(D0(x), D1(x, y), D2(y, 0));
  }

  lemma {:induction false} UnpackedShort(b: seq<byte>)
    requires |b| < 3
    ensures Unpacked(Rfc4648(b)) == b
  {
    if |b| == 1 {
      UnpackedOneByte(b[0]);
      assert b == [b[0]];
    } else if |b| == 2 {
      UnpackedTwoBytes(b[0], b[1]);
      assert b == [b[0], b[1]];
    }
  }

  lemma UnpackedFour(x: byte, y: byte, z: byte, rest: seq<sextet>)
    ensures Unpacked([D0(x), D1(x, y), D2(y, z), D3(z)] + rest) == [x, y, z] + Unpacked(rest)
  {
    DigitsToBytes(x, y, z);
    var ds := [D0(x), D1(x, y), D2(y, z), D3(z)] + rest;
    assert ds[4..] == rest;
    assert Unpacked(ds) == Triple(ds[0], ds[1], ds[2], ds[3]) + Unpacked(ds[4..]);
  }

  lemma {:induction false} UnpackedRfc(b: seq<byte>)
    ensures Unpacked(Rfc4648(b)) == b
  {
    if |b| < 3 {
      UnpackedShort(b);
    } else {
      UnpackedFour(b[0], b[1], b[2], Rfc4648(b[3..]));
      UnpackedRfc(b[3..]);
      assert b == [b[0], b[1], b[2]] + b[3..];
    }
  }

  lemma LowBytesOfLatin(s: seq<code>)
    ensures LowBytes(s) == s <==> forall c <- s :: c < 256
  {
    if c :| c in s && c >= 256 {
      var i :| 0 <= i < |s| && s[i] == c;
      assert LowBytes(s)[i] != s[i];
    } else {
      assert forall i :: 0 <= i < |s| ==> s[i] in s;
    }
  }

  /** Decoding gives back the low byte of every character: the string itself exactly when all its
      characters have eight bits. */
  lemma {:induction false} StringRoundTrip(s: seq<code>)
    ensures Unpacked(Indices(StringText(s))) == LowBytes(s)
    ensures Unpacked(Indices(StringText(s))) == s <==> forall c <- s :: c < 256
    ensures forall b <- StringText(s) :: IsDigit(b) && !IsSeparator(b)
  {
    TextIndices(Rfc4648(LowBytes(s)));
    UnpackedRfc(LowBytes(s));
    LowBytesOfLatin(s);
  }

  // ----- boolean arrays -----

  function Bit(b: bool): int {
    if b then 1 else 0
  }

  /** Up to six booleans as one number, the first in the lowest bit. */
  function BitsValue(a: seq<bool>): nat {
    if a == [] then 0 else Bit(a[0]) + 2 * BitsValue(a[1..])
  }

  lemma {:induction false} BitsBound(a: seq<bool>)
    ensures BitsValue(a) < Pow2(|a|)
  {
    if a != [] {
      BitsBound(a[1..]);
    }
  }

  lemma {:induction false} BitsAppend(a: seq<bool>, b: bool)
    ensures BitsValue(a + [b]) == BitsValue(a) + Bit(b) * Pow2(|a|)
  {
    if a == [] {
      assert a + [b] == [b] && [b][1..] == [];
    } else {
      BitsAppend(a[1..], b);
      assert (a + [b])[1..] == a[1..] + [b];
    }
  }

  /** Bit `k` of the number is boolean `k`. */
  lemma {:induction false} BoolBitsAt(a: seq<bool>, k: nat)
    requires k < |a|
    ensures BitsValue(a) / Pow2(k) % 2 == Bit(a[k])
  {
    ShiftedIsQuotient(BitsValue(a), k);
    BitsShifted(a, k);
    assert a[k..][0] == a[k];
  }

  lemma {:induction false} BitsShifted(a: seq<bool>, k: nat)
    requires k <= |a|
    ensures Shifted(BitsValue(a), k) == BitsValue(a[k..])
  {
    if k == 0 {
      assert a[0..] == a;
    } else {
      BitsShifted(a, k - 1);
      assert a[k - 1..][1..] == a[k..];
    }
  }

  /** Six booleans a digit, the last digit holding the rest. */
  function PackedBools(a: seq<bool>): seq<sextet> {
    if a == [] then []
    else if |a| <= 6 then [SixBits(a)]
    else [SixBits(a[..6])] + PackedBools(a[6..])
  }

  function SixBits(a: seq<bool>): sextet
    requires |a| <= 6
  {
    BitsBound(a);
    Pow2Monotone(|a|, 6);
    assert Pow2(6) == 64;
    BitsValue(a)
  }

  lemma {:induction false} PackedAppend(a: seq<bool>, b: seq<bool>)
    requires |a| % 6 == 0
    ensures PackedBools(a + b) == PackedBools(a) + PackedBools(b)
    decreases |a|
  {
    if a == [] {
      assert a + b == b;
    } else {
      PackedAppend(a[6..], b);
      assert (a + b)[6..] == a[6..] + b && (a + b)[..6] == a[..6];
      if |a| == 6 {
        assert a[..6] == a && a[6..] == [];
        if b == [] {
          assert a + b == a;
        }
      }
    }
  }

  lemma {:induction false} PackedGroup(a: seq<bool>, g: seq<bool>)
    requires |a| % 6 == 0 && 0 < |g| <= 6
    ensures Text(PackedBools(a + g)) == Text(PackedBools(a)) + [Digit(SixBits(g))]
  {
    PackedAppend(a, g);
    TextAppend(PackedBools(a), PackedBools(g));
    assert PackedBools(g) == [SixBits(g)];
  }

  /** The full groups of the first i booleans, the rest of them, and its value; a rest is written at once when
      the booleans end. */
  ghost predicate Packing(boolArr: seq<bool>, i: int, a: seq<bool>, g: seq<bool>, tmpVal: int) {
    && 0 <= i <= |boolArr| && boolArr[..i] == a + g && |a| % 6 == 0 && |g| < 6 && tmpVal == BitsValue(g)
    && (i == |boolArr| ==> g == [])
  }

  /** One more boolean: a group that is complete, or the last one, is a digit. */
  lemma PackNext(boolArr: seq<bool>, i: int, a: seq<bool>, g: seq<bool>, tmpVal: int)
    requires Packing(boolArr, i, a, g, tmpVal) && i < |boolArr|
    ensures var g', v := g + [boolArr[i]], tmpVal + Bit(boolArr[i]) * Pow2(i % 6);
      if i % 6 == 5 || i == |boolArr| - 1 then
        && v == SixBits(g') && Text(PackedBools(a + g')) == Text(PackedBools(a)) + [Digit(SixBits(g'))]
        && (if i == |boolArr| - 1 then a + g' == boolArr else Packing(boolArr, i + 1, a + g', [], 0))
      else Packing(boolArr, i + 1, a, g', v)
  {
    assert boolArr[..i + 1] == a + (g + [boolArr[i]]);
    assert |g| == i % 6;
    BitsAppend(g, boolArr[i]);
    if i % 6 == 5 || i == |boolArr| - 1 {
      PackedGroup(a, g + [boolArr[i]]);
    }
    if i == |boolArr| - 1 {
      assert boolArr[..i + 1] == boolArr;
    }
  }

  method EncodeBoolArrayToBuffer(boolArr: seq<bool>, buffer: Buffer)
    modifies buffer
    ensures buffer.bytes == old(buffer.bytes) + Text(PackedBools(boolArr))
    ensures old(buffer.bytes) <= buffer.bytes && SpellsBools(buffer.bytes[|old(buffer.bytes)|..], boolArr)
  {
    BoolTextSpells(boolArr);
    var tmpVal := 0;
    ghost var a: seq<bool>, g: seq<bool> := [], [];
    var i := 0;
    while i < |boolArr|
      invariant Packing(boolArr, i, a, g, tmpVal) && buffer.bytes == old(buffer.bytes) + Text(PackedBools(a))
    {
      PackNext(boolArr, i, a, g, tmpVal);
      g := g + [boolArr[i]];
      tmpVal := tmpVal + Bit(boolArr[i]) * Pow2(i % 6);
      if i % 6 == 5 || i == |boolArr| - 1 {
        buffer.Write(Digit(tmpVal));
        tmpVal := 0;
        if i == |boolArr| - 1 {
          return;
        }
        a, g := a + g, [];
      }
      i := i + 1;
    }
    assert boolArr[..i] == boolArr && a + g == a;
  }

  function Min(a: int, b: int): int {
    if a < b then a else b
  }

  predicate BitOf(d: sextet, k: nat) {
    d / Pow2(k) % 2 != 0
  }

  /** What decodeToBoolArray reads: boolean k is bit k % 6 of digit k / 6. */
  function UnpackedBools(ds: seq<sextet>, arraySize: nat): seq<bool> {
    seq(if arraySize < 6 * |ds| then arraySize else 6 * |ds|,
        k requires 0 <= k < 6 * |ds| => BitOf(ds[k / 6], k % 6))
  }

  /** The booleans in one digit, as long as the array has room for them. */
  method DecodeBits(bitarray: sextet, i: nat, arraySize: nat) returns (r: seq<bool>)
    ensures |r| == if 6 * i >= arraySize then 0 else if arraySize - 6 * i < 6 then arraySize - 6 * i else 6
    ensures forall k :: 0 <= k < |r| ==> r[k] == BitOf(bitarray, k)
  {
    r := [];
    while |r| < 6
      invariant |r| <= 6 && (|r| > 0 ==> 6 * i + |r| <= arraySize)
      invariant forall k :: 0 <= k < |r| ==> r[k] == BitOf(bitarray, k)
    {
      if 6 * i + |r| < arraySize {
        r := r + [BitOf(bitarray, |r|)];
      } else {
        break;
      }
    }
  }

  lemma BoolAt(ds: seq<sextet>, arraySize: nat, i: nat, k: nat)
    requires i < |ds| && k < 6 && 6 * i + k < arraySize
    ensures 6 * i + k < |UnpackedBools(ds, arraySize)|
    ensures UnpackedBools(ds, arraySize)[6 * i + k] == BitOf(ds[i], k)
  {
    DivUnique(6 * i + k, 6, i, k);
  }

  lemma Extended<T>(full: seq<T>, r: seq<T>, from: nat)
    requires from + |r| <= |full| && forall k :: 0 <= k < |r| ==> r[k] == full[from + k]
    ensures full[..from] + r == full[..from + |r|]
  {
  }

  lemma BitsPlaced(ds: seq<sextet>, arraySize: nat, i: nat, r: seq<bool>)
    requires i < |ds| && (6 * i >= arraySize ==> r == []) && (6 * i < arraySize ==> |r| == Min(arraySize - 6 * i, 6))
    requires forall k :: 0 <= k < |r| ==> r[k] == BitOf(ds[i], k)
    ensures var full := UnpackedBools(ds, arraySize); full[..Min(6 * i, |full|)] + r == full[..Min(6 * i + 6, |full|)]
  {
    var full := UnpackedBools(ds, arraySize);
    forall k | 0 <= k < |r| ensures 6 * i + k < |full| && r[k] == full[6 * i + k] {
      BoolAt(ds, arraySize, i, k);
    }
    Extended(full, r, Min(6 * i, |full|));
  }

  method DecodeToBoolArrayWithBounds(s: Buffer, offsetBegin: nat, offsetEnd: nat, arraySize: nat) returns (r: seq<bool>)
    requires offsetBegin <= offsetEnd <= |s.bytes| && AllDigits(s.bytes[offsetBegin..offsetEnd])
    ensures r == UnpackedBools(Indices(s.bytes[offsetBegin..offsetEnd]), arraySize)
  {
    var ds := Indices(s.bytes[offsetBegin..offsetEnd]);
    ghost var full := UnpackedBools(ds, arraySize);
    r := [];
    var i := 0;
    while i < |ds|
      invariant 0 <= i <= |ds| && r == full[..Min(6 * i, |full|)]
    {
      var bits := DecodeBits(ds[i], i, arraySize);
      BitsPlaced(ds, arraySize, i, bits);
      r := r + bits;
      i := i + 1;
    }
  }

  lemma {:induction false} PackedLength(a: seq<bool>)
    ensures 6 * |PackedBools(a)| >= |a|
  {
    if |a| > 6 {
      PackedLength(a[6..]);
    }
  }

  lemma {:induction false} PackedAt(a: seq<bool>, k: nat)
    requires k < |a|
    ensures k / 6 < |PackedBools(a)| && (PackedBools(a)[k / 6] / Pow2(k % 6) % 2 != 0) == a[k]
    decreases |a|
  {
    if |a| <= 6 {
      BoolBitsAt(a, k);
    } else if k < 6 {
      BoolBitsAt(a[..6], k);
    } else {
      PackedAt(a[6..], k - 6);
      assert PackedBools(a)[k / 6] == PackedBools(a[6..])[(k - 6) / 6];
    }
  }

  /** The digits are exactly the booleans, six a digit and zeros after the end. */
  lemma {:induction false} PackedBits(a: seq<bool>)
    ensures |PackedBools(a)| == (|a| + 5) / 6
    ensures forall i, k :: 0 <= i < |PackedBools(a)| && 0 <= k < 6 ==>
      (BitOf(PackedBools(a)[i], k) <==> 6 * i + k < |a| && a[6 * i + k])
    decreases |a|
  {
    if |a| > 6 {
      PackedBits(a[6..]);
    }
    forall i, k | 0 <= i < |PackedBools(a)| && 0 <= k < 6
      ensures BitOf(PackedBools(a)[i], k) <==> 6 * i + k < |a| && a[6 * i + k]
    {
      if i > 0 {
        assert PackedBools(a)[i] == PackedBools(a[6..])[i - 1];
        assert 6 * i + k < |a| ==> a[6 * i + k] == a[6..][6 * (i - 1) + k];
      } else {
        var first := a[..Min(|a|, 6)];
        assert |a| <= 6 ==> first == a;
        assert PackedBools(a)[0] == SixBits(first);
        SixBitsAt(first, k);
      }
    }
  }

  /** The text is the booleans, six a character from the lowest bit up, with zeros after the end. */
  ghost predicate SpellsBools(text: seq<byte>, a: seq<bool>) {
    |text| == (|a| + 5) / 6 && forall i :: 0 <= i < |text| ==> SpellsSix(text[i], a, i)
  }

  ghost predicate SpellsSix(c: byte, a: seq<bool>, i: nat) {
    exists d: sextet :: IsChar(c, d) && forall k :: 0 <= k < 6 ==> (BitOf(d, k) <==> 6 * i + k < |a| && a[6 * i + k])
  }

  lemma BoolTextSpells(a: seq<bool>)
    ensures SpellsBools(Text(PackedBools(a)), a)
  {
    PackedBits(a);
    var ds := PackedBools(a);
    forall i | 0 <= i < |Text(ds)| ensures SpellsSix(Text(ds)[i], a, i) {
      CharIndex(Digit(ds[i]), ds[i]);
      assert IsChar(Text(ds)[i], ds[i]);
    }
  }

  lemma SixBitsAt(a: seq<bool>, k: nat)
    requires |a| <= 6 && k < 6
    ensures BitOf(SixBits(a), k) <==> k < |a| && a[k]
  {
    if k < |a| {
      BoolBitsAt(a, k);
    } else {
      BitsBound(a);
      Pow2Monotone(|a|, k);
      BelowBit(BitsValue(a), Pow2(k));
    }
  }

  lemma BelowBit(v: nat, p: nat)
    requires v < p
    ensures v / p == 0
  {
    DivUnique(v, p, 0, v);
  }

  /** Every boolean array comes back from its digits and its length. */
  lemma {:induction false} BoolArrayRoundTrip(a: seq<bool>)
    ensures UnpackedBools(Indices(Text(PackedBools(a))), |a|) == a
  {
    TextIndices(PackedBools(a));
    PackedLength(a);
    forall k | 0 <= k < |a| ensures UnpackedBools(PackedBools(a), |a|)[k] == a[k] {
      PackedAt(a, k);
    }
  }
}
