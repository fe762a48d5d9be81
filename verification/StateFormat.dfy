/** The bytes of a saved state, written out: the separators are '|', ',', ':' and '%'. */
module StateFormat {
  import opened Arithmetic
  import opened Constants
  import opened Buffers
  import opened Base64
  import opened Base64Strings
  import opened Values
  import opened StateCodec

  /** The type codes of Type, mwg.js:1994-2004. */
  function TypeCode(v: Value): int {
    match v
    case BoolV(_) => 1
    case StringV(_) => 2
    case LongV(_) => 3
    case IntV(_) => 4
    case LongsV(_) => 7
    case IntsV(_) => 8
    case MapV(_) => 9
    case ArrayMapV(_) => 10
  }

  /** Each element after a ':'. */
  function ElementBytes(a: seq<int>): seq<byte> {
    if a == [] then [] else [58] + LongText(a[0]) + ElementBytes(a[1..])
  }

  /** Each key after a ':', and its value after a '%'. */
  function PairBytes(each: seq<(int, int)>): seq<byte> {
    if each == [] then [] else [58] + LongText(each[0].0) + [37] + LongText(each[0].1) + PairBytes(each[1..])
  }

  /** '1' and '0', the text of a string or a number, or a length and what is in the array or map. */
  function ValueBytes(v: Value): seq<byte> {
    match v
    case BoolV(b) => if b then [49] else [48]
    case StringV(s) => StringText(s)
    case LongV(l) => LongText(l)
    case IntV(i) => LongText(i)
    case LongsV(a) => LongText(|a|) + ElementBytes(a)
    case IntsV(a) => LongText(|a|) + ElementBytes(a)
    case MapV(each) => LongText(|each|) + PairBytes(each)
    case ArrayMapV(each) => LongText(|each|) + PairBytes(each)
  }

  /** A '|', the key, a ',', the code of the type, a ',' and the value. */
  function AttrBytes(key: int, v: Value): seq<byte> {
    [124] + LongText(key) + [44] + LongText(TypeCode(v)) + [44] + ValueBytes(v)
  }

  function SlotsBytes(slots: seq<Slot>): seq<byte> {
    if slots == [] then []
    else (if slots[0].Attr? then AttrBytes(slots[0].key, slots[0].value) else []) + SlotsBytes(slots[1..])
  }

  /** The number of slots, and the slots with content. */
  function StateBytes(slots: seq<Slot>): seq<byte> {
    LongText(|slots|) + SlotsBytes(slots)
  }

  // ----- it is what the tokens of save make -----

  lemma {:induction false} ElementsJoined(a: seq<int>)
    ensures Joined(ArrayTokens(a)) == ElementBytes(a)
  {
    if a != [] {
      ElementsJoined(a[1..]);
    }
  }

  lemma {:induction false} PairsJoined(each: seq<(int, int)>)
    ensures Joined(PairTokens(each)) == PairBytes(each)
  {
    if each != [] {
      PairsJoined(each[1..]);
      var k, v := Token(58, LongText(each[0].0)), Token(37, LongText(each[0].1));
      assert PairTokens(each) == [k] + ([v] + PairTokens(each[1..]));
      assert Joined([v] + PairTokens(each[1..])) == [37] + LongText(each[0].1) + PairBytes(each[1..]);
    }
  }

  lemma ValueJoined(v: Value)
    ensures ValueText(v) + Joined(ValueTokens(v)) == ValueBytes(v)
  {
    match v
    case LongsV(a) => ElementsJoined(a);
    case IntsV(a) => ElementsJoined(a);
    case MapV(each) => PairsJoined(each);
    case ArrayMapV(each) => PairsJoined(each);
    case _ =>
  }

  lemma JoinedFirst(t: Token, ts: seq<Token>)
    ensures Joined([t] + ts) == [t.sep] + t.text + Joined(ts)
  {
    assert ([t] + ts)[1..] == ts;
  }

  lemma Flat(a: seq<byte>, b: seq<byte>, c: seq<byte>, d: seq<byte>, e: seq<byte>, f: seq<byte>)
    ensures a + b + (c + d + (e + f)) == a + b + c + d + e + f
  {
  }

  lemma ValueTokensJoined(v: Value)
    ensures Joined([Token(44, ValueText(v))] + ValueTokens(v)) == [44] + ValueBytes(v)
  {
    JoinedFirst(Token(44, ValueText(v)), ValueTokens(v));
    ValueJoined(v);
    Together([44], ValueText(v), Joined(ValueTokens(v)));
  }

  lemma FirstOfTwo<T>(a: T, b: T, s: seq<T>)
    ensures [a, b] + s == [a] + ([b] + s)
  {
  }

  /** The codes are the ones that the types have. */
  lemma TypeCodeIs(v: Value)
    ensures KindOf(v) == TypeCode(v)
  {
  }

  lemma AttrTokensAre(key: int, v: Value)
    ensures SlotTokens(Attr(key, v)) == [Token(124, LongText(key))] + ([Token(44, LongText(TypeCode(v)))]
      + ([Token(44, ValueText(v))] + ValueTokens(v)))
  {
    TypeCodeIs(v);
    FirstOfTwo(Token(44, LongText(KindOf(v))), Token(44, ValueText(v)), ValueTokens(v));
  }

  lemma AttrJoined(key: int, v: Value)
    ensures Joined(SlotTokens(Attr(key, v))) == AttrBytes(key, v)
  {
    var rest := [Token(44, ValueText(v))] + ValueTokens(v);
    AttrTokensAre(key, v);
    ValueTokensJoined(v);
    JoinedFirst(Token(44, LongText(TypeCode(v))), rest);
    JoinedFirst(Token(124, LongText(key)), [Token(44, LongText(TypeCode(v)))] + rest);
    Flat([124], LongText(key), [44], LongText(TypeCode(v)), [44], ValueBytes(v));
  }

  lemma {:induction false} SlotsJoined(slots: seq<Slot>)
    ensures Joined(SlotsTokens(slots)) == SlotsBytes(slots)
  {
    if slots != [] {
      SlotsJoined(slots[1..]);
      JoinedAppend(SlotTokens(slots[0]), SlotsTokens(slots[1..]));
      if slots[0].Attr? {
        AttrJoined(slots[0].key, slots[0].value);
      }
    }
  }

  lemma SavedTextIs(slots: seq<Slot>)
    ensures SavedText(slots) == StateBytes(slots)
  {
    SlotsJoined(slots);
  }

  // ----- what each code is read as -----

  /** The value that an attribute with each type code gets when its last text is known. */
  lemma CodesRead(l: Loader, text: seq<byte>)
    requires AllDigits(text) && text != []
    ensures l.kind == 1 ==>
      Completed(l, text) == if text[0] == 48 then [BoolV(false)] else if text[0] == 49 then [BoolV(true)] else []
    ensures l.kind == 2 ==> Completed(l, text) == [StringV(Unpacked(Indices(text)))]
    ensures l.kind == 3 ==> Completed(l, text) == [LongV(LongOf(text))]
    ensures l.kind == 4 ==> Completed(l, text) == [IntV(IntOf(text).Floor)]
    ensures l.kind == 7 && l.subIndex < |l.arr| ==> Completed(l, text) == [LongsV(l.arr[l.subIndex := LongOf(text)])]
    ensures l.kind == 8 && l.subIndex < |l.arr| ==>
      Completed(l, text) == [IntsV(l.arr[l.subIndex := IntOf(text).Floor])]
    ensures l.kind == 9 && l.mapKey != NULL_LONG ==>
      Completed(l, text) == [MapV(PutKey(l.pairs, l.mapKey, LongOf(text)))]
    ensures l.kind == 10 && l.mapKey != NULL_LONG ==>
      Completed(l, text) == [ArrayMapV(PutPair(l.pairs, l.mapKey, LongOf(text)))]
    ensures l.kind == 9 && l.mapKey == NULL_LONG ==> Completed(l, text) == [MapV(l.pairs)]
    ensures l.kind == 10 && l.mapKey == NULL_LONG ==> Completed(l, text) == [ArrayMapV(l.pairs)]
    ensures l.kind !in {1, 2, 3, 4, 7, 8, 9, 10} ==> Completed(l, text) == []
  {
  }

  // ----- some texts in full -----

  /** Numbers below 32 are one digit. */
  lemma SmallText(l: int)
    requires -32 < l < 32
    ensures LongText(l) == [Digit(if l < 0 then 1 - 2 * l else 2 * l)]
  {
  }

  lemma OneSlotSaved(key: int, v: Value)
    requires 0 <= key < 32
    ensures SavedText([Attr(key, v)]) == [67, 124, Digit(2 * key), 44, Digit(2 * TypeCode(v)), 44] + ValueBytes(v)
  {
    SavedTextIs([Attr(key, v)]);
    SmallText(1);
    SmallText(key);
    SmallText(TypeCode(v));
    OneSlot(key, v);
    OneSlotParts(Digit(2 * key), Digit(2 * TypeCode(v)), ValueBytes(v));
  }

  lemma OneSlotParts(k: byte, c: byte, value: seq<byte>)
    ensures [67] + ([124] + [k] + [44] + [c] + [44] + value) == [67, 124, k, 44, c, 44] + value
  {
  }

  lemma OneSlot(key: int, v: Value)
    ensures SlotsBytes([Attr(key, v)]) == AttrBytes(key, v)
  {
    assert [Attr(key, v)][1..] == [];
  }

  /** States of one slot under key 0, with a value of each type: the texts C|A,C,1 and C|A,C,0 of the booleans, and
      C|A,E, of the empty string. */
  lemma SavedPlain()
    ensures SavedText([Attr(0, BoolV(true))]) == [67, 124, 65, 44, 67, 44, 49]
    ensures SavedText([Attr(0, BoolV(false))]) == [67, 124, 65, 44, 67, 44, 48]
    ensures SavedText([Attr(0, StringV([]))]) == [67, 124, 65, 44, 69, 44]
  {
    OneSlotSaved(0, BoolV(true));
    OneSlotSaved(0, BoolV(false));
    OneSlotSaved(0, StringV([]));
  }

  /** The text C|A,G,/ of -31 as a long, and C|A,I,K of 5 as an int. */
  lemma SavedNumbers()
    ensures SavedText([Attr(0, LongV(-31))]) == [67, 124, 65, 44, 71, 44, 47]
    ensures SavedText([Attr(0, IntV(5))]) == [67, 124, 65, 44, 73, 44, 75]
  {
    OneSlotSaved(0, LongV(-31));
    SmallText(-31);
    OneSlotSaved(0, IntV(5));
    SmallText(5);
  }

  /** The text C|A,O,E:G:K of the longs 3 and 5. */
  lemma SavedLongs()
    ensures SavedText([Attr(0, LongsV([3, 5]))]) == [67, 124, 65, 44, 79, 44, 69, 58, 71, 58, 75]
  {
    OneSlotSaved(0, LongsV([3, 5]));
    SmallText(2);
    SmallText(3);
    SmallText(5);
    OneElement(5);
    assert [3, 5][1..] == [5] && ElementBytes([3, 5]) == [58] + [71] + ([58] + [75]);
    assert ValueBytes(LongsV([3, 5])) == [69, 58, 71, 58, 75];
  }

  /** The text C|A,Q,C:A of a single int, 0. */
  lemma SavedInts()
    ensures SavedText([Attr(0, IntsV([0]))]) == [67, 124, 65, 44, 81, 44, 67, 58, 65]
  {
    OneSlotSaved(0, IntsV([0]));
    SmallText(1);
    SmallText(0);
    OneElement(0);
    assert ValueBytes(IntsV([0])) == [67, 58, 65];
  }

  /** The texts C|A,S,C:C%+ and C|A,U,C:C%E of the maps from 1 to 31 and from 1 to 2. */
  lemma SavedMaps()
    ensures SavedText([Attr(0, MapV([(1, 31)]))]) == [67, 124, 65, 44, 83, 44, 67, 58, 67, 37, 43]
    ensures SavedText([Attr(0, ArrayMapV([(1, 2)]))]) == [67, 124, 65, 44, 85, 44, 67, 58, 67, 37, 69]
  {
    SmallText(1);
    SmallText(2);
    SmallText(31);
    OneSlotSaved(0, MapV([(1, 31)]));
    OnePair(1, 31);
    assert ValueBytes(MapV([(1, 31)])) == [67, 58, 67, 37, 43];
    OneSlotSaved(0, ArrayMapV([(1, 2)]));
    OnePair(1, 2);
    assert ValueBytes(ArrayMapV([(1, 2)])) == [67, 58, 67, 37, 69];
  }

  lemma OneElement(x: int)
    ensures ElementBytes([x]) == [58] + LongText(x)
  {
    assert [x][1..] == [];
  }

  lemma OnePair(k: int, v: int)
    ensures PairBytes([(k, v)]) == [58] + LongText(k) + [37] + LongText(v)
  {
    assert [(k, v)][1..] == [];
  }
}
