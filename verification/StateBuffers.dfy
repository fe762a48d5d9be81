/** save and load of a state chunk on a buffer. */
module StateBuffers {
  import opened Hiding
  import opened Arithmetic
  import opened Constants
  import opened Buffers
  import opened Base64
  import opened Base64Strings
  import opened StateCodec
  import StateFormat
  import opened Values
  import LongLongMaps

  /** What stands after a buffer got tokens; the definition is used where `Unfold` is mentioned. */
  ghost predicate Appended(before: seq<byte>, after: seq<byte>, ts: seq<Token>) {
    forall b {:trigger Unfold(Topic.Texts, b)} :: Unfold(Topic.Texts, b) ==> after == before + Joined(ts)
  }

  lemma AppendedNone(before: seq<byte>)
    ensures Appended(before, before, [])
  {
  }

  lemma AppendedThen(a: seq<byte>, b: seq<byte>, c: seq<byte>, s: seq<Token>, t: seq<Token>)
    requires Appended(a, b, s) && Appended(b, c, t)
    ensures Appended(a, c, s + t)
  {
    assert Unfold(Topic.Texts, true);
    JoinedAppend(s, t);
    Together(a, Joined(s), Joined(t));
  }

  lemma AppendedOne(before: seq<byte>, t: Token)
    ensures Appended(before, before + [t.sep] + t.text, [t])
  {
    JoinedOne(t);
    assert before + [t.sep] + t.text == before + ([t.sep] + t.text);
  }

  lemma AppendedAre(before: seq<byte>, after: seq<byte>, ts: seq<Token>)
    requires Appended(before, after, ts)
    ensures after == before + Joined(ts)
  {
    assert Unfold(Topic.Texts, true);
  }

  function LongToken(sep: byte, l: int): Token {
    Token(sep, LongText(l))
  }

  method WriteLong(sep: byte, l: int, buffer: Buffer)
    requires IsLong(l)
    modifies buffer
    ensures Appended(old(buffer.bytes), buffer.bytes, [LongToken(sep, l)])
  {
    AppendedOne(buffer.bytes, LongToken(sep, l));
    buffer.Write(sep);
    EncodeLongToBuffer(l, buffer);
  }

  method WriteInt(sep: byte, l: int, buffer: Buffer)
    requires IsCount(l)
    modifies buffer
    ensures Appended(old(buffer.bytes), buffer.bytes, [LongToken(sep, l)])
  {
    AppendedOne(buffer.bytes, LongToken(sep, l));
    buffer.Write(sep);
    EncodeIntToBuffer(l, buffer);
  }

  lemma ArrayNext(before: seq<byte>, mid: seq<byte>, after: seq<byte>, a: seq<int>, j: nat)
    requires j < |a| && Appended(before, mid, ArrayTokens(a[..j]))
    requires Appended(mid, after, [LongToken(CHUNK_SUB_SUB_SEP, a[j])])
    ensures Appended(before, after, ArrayTokens(a[..j + 1]))
  {
    ArrayTokensLast(a, j);
    AppendedThen(before, mid, after, ArrayTokens(a[..j]), [LongToken(CHUNK_SUB_SUB_SEP, a[j])]);
  }

  method SaveLongs(a: seq<int>, buffer: Buffer)
    requires forall j :: 0 <= j < |a| ==> IsLong(a[j])
    modifies buffer
    ensures Appended(old(buffer.bytes), buffer.bytes, ArrayTokens(a))
  {
    AppendedNone(buffer.bytes);
    for j := 0 to |a|
      invariant Appended(old(buffer.bytes), buffer.bytes, ArrayTokens(a[..j]))
    {
      ghost var mid := buffer.bytes;
      WriteLong(CHUNK_SUB_SUB_SEP, a[j], buffer);
      ArrayNext(old(buffer.bytes), mid, buffer.bytes, a, j);
    }
    assert a[..|a|] == a;
  }

  method SaveInts(a: seq<int>, buffer: Buffer)
    requires forall j :: 0 <= j < |a| ==> IsCount(a[j])
    modifies buffer
    ensures Appended(old(buffer.bytes), buffer.bytes, ArrayTokens(a))
  {
    AppendedNone(buffer.bytes);
    for j := 0 to |a|
      invariant Appended(old(buffer.bytes), buffer.bytes, ArrayTokens(a[..j]))
    {
      ghost var mid := buffer.bytes;
      WriteInt(CHUNK_SUB_SUB_SEP, a[j], buffer);
      ArrayNext(old(buffer.bytes), mid, buffer.bytes, a, j);
    }
    assert a[..|a|] == a;
  }

  lemma PairNext(before: seq<byte>, mid: seq<byte>, keyed: seq<byte>, after: seq<byte>, each: seq<(int, int)>, j: nat)
    requires j < |each| && Appended(before, mid, PairTokens(each[..j]))
    requires Appended(mid, keyed, [LongToken(CHUNK_SUB_SUB_SEP, each[j].0)])
    requires Appended(keyed, after, [LongToken(CHUNK_SUB_SUB_SUB_SEP, each[j].1)])
    ensures Appended(before, after, PairTokens(each[..j + 1]))
  {
    var t, u := LongToken(CHUNK_SUB_SUB_SEP, each[j].0), LongToken(CHUNK_SUB_SUB_SUB_SEP, each[j].1);
    PairTokensLast(each, j);
    AppendedThen(mid, keyed, after, [t], [u]);
    assert [t] + [u] == [t, u];
    AppendedThen(before, mid, after, PairTokens(each[..j]), [t, u]);
  }

  /** each() with the callback that save passes. */
  method SavePairs(each: seq<(int, int)>, buffer: Buffer)
    requires forall j :: 0 <= j < |each| ==> IsLong(each[j].0) && IsLong(each[j].1)
    modifies buffer
    ensures Appended(old(buffer.bytes), buffer.bytes, PairTokens(each))
  {
    AppendedNone(buffer.bytes);
    for j := 0 to |each|
      invariant Appended(old(buffer.bytes), buffer.bytes, PairTokens(each[..j]))
    {
      ghost var mid := buffer.bytes;
      WriteLong(CHUNK_SUB_SUB_SEP, each[j].0, buffer);
      ghost var keyed := buffer.bytes;
      WriteLong(CHUNK_SUB_SUB_SUB_SEP, each[j].1, buffer);
      PairNext(old(buffer.bytes), mid, keyed, buffer.bytes, each, j);
    }
    assert each[..|each|] == each;
  }

  method SaveText(sep: byte, s: seq<code>, buffer: Buffer)
    modifies buffer
    ensures Appended(old(buffer.bytes), buffer.bytes, [Token(sep, StringText(s))])
  {
    AppendedOne(buffer.bytes, Token(sep, StringText(s)));
    buffer.Write(sep);
    EncodeStringToBuffer(s, buffer);
  }

  method SaveBool(sep: byte, b: bool, buffer: Buffer)
    modifies buffer
    ensures Appended(old(buffer.bytes), buffer.bytes, [Token(sep, ValueText(BoolV(b)))])
  {
    AppendedOne(buffer.bytes, Token(sep, ValueText(BoolV(b))));
    buffer.Write(sep);
    if b {
      buffer.Write(BOOL_TRUE);
    } else {
      buffer.Write(BOOL_FALSE);
    }
  }

  lemma OneToken(v: Value)
    ensures ValueTokens(v) == [] ==>
      [Token(CHUNK_SUB_SEP, ValueText(v))] + ValueTokens(v) == [Token(CHUNK_SUB_SEP, ValueText(v))]
  {
  }

  /** The separator before the value, and the switch of save over the types. */
  method SaveValue(v: Value, buffer: Buffer)
    requires Savable(v)
    modifies buffer
    ensures Appended(old(buffer.bytes), buffer.bytes, [Token(CHUNK_SUB_SEP, ValueText(v))] + ValueTokens(v))
  {
    OneToken(v);
    match v
    case StringV(s) => SaveText(CHUNK_SUB_SEP, s, buffer);
    case BoolV(b) => SaveBool(CHUNK_SUB_SEP, b, buffer);
    case LongV(l) => WriteLong(CHUNK_SUB_SEP, l, buffer);
    case IntV(i) => WriteInt(CHUNK_SUB_SEP, i, buffer);
    case LongsV(a) =>
      WriteInt(CHUNK_SUB_SEP, |a|, buffer);
      ghost var sized := buffer.bytes;
      SaveLongs(a, buffer);
      AppendedThen(old(buffer.bytes), sized, buffer.bytes, [LongToken(CHUNK_SUB_SEP, |a|)], ArrayTokens(a));
    case IntsV(a) =>
      WriteInt(CHUNK_SUB_SEP, |a|, buffer);
      ghost var sizedInts := buffer.bytes;
      SaveInts(a, buffer);
      AppendedThen(old(buffer.bytes), sizedInts, buffer.bytes, [LongToken(CHUNK_SUB_SEP, |a|)], ArrayTokens(a));
    case MapV(each) => SaveMap(each, buffer);
    case ArrayMapV(each) => SaveMap(each, buffer);
  }

  method SaveMap(each: seq<(int, int)>, buffer: Buffer)
    requires PairsOk(each)
    modifies buffer
    ensures Appended(old(buffer.bytes), buffer.bytes, [LongToken(CHUNK_SUB_SEP, |each|)] + PairTokens(each))
  {
    WriteLong(CHUNK_SUB_SEP, |each|, buffer);
    ghost var sized := buffer.bytes;
    SavePairs(each, buffer);
    AppendedThen(old(buffer.bytes), sized, buffer.bytes, [LongToken(CHUNK_SUB_SEP, |each|)], PairTokens(each));
  }

  lemma AttrTokensAre(key: int, v: Value)
    ensures SlotTokens(Attr(key, v)) ==
      [LongToken(CHUNK_SEP, key)] + [LongToken(CHUNK_SUB_SEP, KindOf(v))]
        + ([Token(CHUNK_SUB_SEP, ValueText(v))] + ValueTokens(v))
  {
  }

  method SaveAttr(key: int, v: Value, buffer: Buffer)
    requires IsLong(key) && Savable(v)
    modifies buffer
    ensures Appended(old(buffer.bytes), buffer.bytes, SlotTokens(Attr(key, v)))
  {
    WriteLong(CHUNK_SEP, key, buffer);
    ghost var keyed := buffer.bytes;
    WriteInt(CHUNK_SUB_SEP, KindOf(v), buffer);
    ghost var typed := buffer.bytes;
    SaveValue(v, buffer);
    ghost var k, t := [LongToken(CHUNK_SEP, key)], [LongToken(CHUNK_SUB_SEP, KindOf(v))];
    AppendedThen(old(buffer.bytes), keyed, typed, k, t);
    AppendedThen(old(buffer.bytes), typed, buffer.bytes, k + t, [Token(CHUNK_SUB_SEP, ValueText(v))] + ValueTokens(v));
    AttrTokensAre(key, v);
  }

  lemma SlotNext(before: seq<byte>, mid: seq<byte>, after: seq<byte>, slots: seq<Slot>, i: nat)
    requires i < |slots| && Appended(before, mid, SlotsTokens(slots[..i])) && Appended(mid, after, SlotTokens(slots[i]))
    ensures Appended(before, after, SlotsTokens(slots[..i + 1]))
  {
    SlotsTokensLast(slots, i);
    AppendedThen(before, mid, after, SlotsTokens(slots[..i]), SlotTokens(slots[i]));
  }

  /** The loop of save over the slots. */
  method SaveSlots(slots: seq<Slot>, buffer: Buffer)
    requires forall i :: 0 <= i < |slots| ==> SlotOk(slots[i])
    modifies buffer
    ensures buffer.bytes == old(buffer.bytes) + Joined(SlotsTokens(slots))
  {
    AppendedNone(buffer.bytes);
    for i := 0 to |slots|
      invariant Appended(old(buffer.bytes), buffer.bytes, SlotsTokens(slots[..i]))
    {
      ghost var mid := buffer.bytes;
      if slots[i].Attr? {
        SaveAttr(slots[i].key, slots[i].value, buffer);
      } else {
        AppendedNone(mid);
      }
      SlotNext(old(buffer.bytes), mid, buffer.bytes, slots, i);
    }
    assert slots[..|slots|] == slots;
    AppendedAre(old(buffer.bytes), buffer.bytes, SlotsTokens(slots));
  }

  /** save: the number of slots, and the slots with content. */
  method Save(slots: seq<Slot>, buffer: Buffer)
    requires IsCount(|slots|) && forall i :: 0 <= i < |slots| ==> SlotOk(slots[i])
    modifies buffer
    ensures buffer.bytes == old(buffer.bytes) + SavedText(slots)
    ensures buffer.bytes == old(buffer.bytes) + StateFormat.StateBytes(slots)
  {
    StateFormat.SavedTextIs(slots);
    EncodeIntToBuffer(|slots|, buffer);
    ghost var count := buffer.bytes;
    SaveSlots(slots, buffer);
    Together(old(buffer.bytes), LongText(|slots|), Joined(SlotsTokens(slots)));
  }

  // ----- loading -----

  lemma {:induction false} PutKeyAt(each: seq<(int, int)>, k: int, v: int, m: nat)
    requires m < |each| && each[m].0 == k && forall i :: 0 <= i < m ==> each[i].0 != k
    ensures PutKey(each, k, v) == each[m := (k, v)]
    decreases m
  {
    if m == 0 {
      assert [(k, v)] + each[1..] == each[0 := (k, v)];
    } else {
      PutKeyAt(each[1..], k, v, m - 1);
      assert each[m := (k, v)] == [each[0]] + each[1..][m - 1 := (k, v)];
    }
  }

  /** The put that the loader calls is the put of the map class. */
  lemma {:induction false} PutKeyIsPut(each: seq<(int, int)>, k: int, v: int)
    requires LongLongMaps.OnePerKey(each) && v != NULL_LONG
    ensures PutKey(each, k, v) == LongLongMaps.After(each, k, v)
  {
    if m :| 0 <= m < |each| && each[m].0 == k {
      PutKeyAt(each, k, v, m);
    } else {
      PutKeyFresh(each, k, v);
    }
  }

  predicate IsSep(b: byte) {
    b == CHUNK_SEP || b == CHUNK_SUB_SEP || b == CHUNK_SUB_SUB_SEP || b == CHUNK_SUB_SUB_SUB_SEP
  }

  ghost predicate Separated(ts: seq<Token>) {
    forall i :: 0 <= i < |ts| ==> IsSep(ts[i].sep)
  }

  /** The scan stands in `text`, which begins at previousStart; the definition is used where `Unfold` is mentioned. */
  ghost predicate Scanning(bytes: seq<byte>, previousStart: nat, cursor: nat, l: Loader, text: seq<byte>,
                           ts: seq<Token>) {
    forall b {:trigger Unfold(Topic.Texts, b)} :: Unfold(Topic.Texts, b) ==>
      && previousStart <= cursor <= previousStart + |text| && previousStart <= |bytes|
      && bytes[previousStart..] == text + Joined(ts) && Fits(l, text, ts) && Separated(ts)
  }

  lemma DigitsHaveNoSeparator(text: seq<byte>, i: nat)
    requires AllDigits(text) && i < |text|
    ensures !IsSep(text[i])
  {
    assert IsDigit(text[i]);
  }

  /** A text before the rest of the tokens. */
  lemma TextFirst(s: seq<byte>, text: seq<byte>, ts: seq<Token>)
    requires s == text + Joined(ts)
    ensures |text| <= |s| && s[..|text|] == text && (ts == [] ==> s == text)
    ensures ts != [] ==> |text| < |s| && s[|text|] == ts[0].sep && s[|text| + 1..] == ts[0].text + Joined(ts[1..])
  {
    if ts != [] {
      assert s == text + ([ts[0].sep] + (ts[0].text + Joined(ts[1..])));
    }
  }

  lemma FitsDigits(l: Loader, text: seq<byte>, ts: seq<Token>)
    requires Fits(l, text, ts)
    ensures AllDigits(text)
  {
  }

  lemma AtCursor(bytes: seq<byte>, previousStart: nat, cursor: nat, l: Loader, text: seq<byte>, ts: seq<Token>)
    requires Scanning(bytes, previousStart, cursor, l, text, ts)
    ensures previousStart <= cursor <= |bytes|
    ensures cursor < |bytes| && !IsSep(bytes[cursor]) ==> Scanning(bytes, previousStart, cursor + 1, l, text, ts)
    ensures cursor < |bytes| && IsSep(bytes[cursor]) ==>
      && ts != [] && bytes[cursor] == ts[0].sep && bytes[previousStart..cursor] == text && SepFits(l, ts[0].sep, text)
      && Scanning(bytes, cursor + 1, cursor + 1, OnSep(l, ts[0].sep, text), ts[0].text, ts[1..])
    ensures cursor == |bytes| ==> ts == [] && bytes[previousStart..cursor] == text && EndFits(l, text)
  {
    assert Unfold(Topic.Texts, true);
    var s := bytes[previousStart..];
    TextFirst(s, text, ts);
    FitsDigits(l, text, ts);
    var here := cursor - previousStart;
    if here < |text| {
      DigitsHaveNoSeparator(text, here);
      assert bytes[cursor] == s[here] == text[here];
    } else {
      assert bytes[previousStart..cursor] == s[..|text|];
      if ts != [] {
        assert bytes[cursor] == s[here];
        assert bytes[cursor + 1..] == s[here + 1..];
      }
    }
  }

  method ReadLong(payload: Buffer, previousStart: nat, cursor: nat) returns (r: int)
    requires previousStart <= cursor <= |payload.bytes| && LongLike(payload.bytes[previousStart..cursor])
    ensures r == LongIn(payload.bytes[previousStart..cursor])
  {
    r := DecodeToLongWithBounds(payload, previousStart, cursor);
  }

  method ReadInt(payload: Buffer, previousStart: nat, cursor: nat) returns (r: int)
    requires previousStart <= cursor <= |payload.bytes| && LongLike(payload.bytes[previousStart..cursor])
    ensures r == IntIn(payload.bytes[previousStart..cursor])
  {
    var exact := DecodeToIntWithBounds(payload, previousStart, cursor);
    r := exact.Floor;
  }

  /** The switch of load over the types when the text of an attribute ends. */
  method Complete(l: Loader, payload: Buffer, previousStart: nat, cursor: nat) returns (toInsert: seq<Value>)
    requires previousStart <= cursor <= |payload.bytes| && EndFits(l, payload.bytes[previousStart..cursor])
    ensures toInsert == Completed(l, payload.bytes[previousStart..cursor])
  {
    ghost var text := payload.bytes[previousStart..cursor];
    toInsert := [];
    if l.kind == BOOL {
      var first := payload.bytes[previousStart];
      assert first == text[0];
      if first == BOOL_FALSE {
        toInsert := [BoolV(false)];
      } else if first == BOOL_TRUE {
        toInsert := [BoolV(true)];
      }
    } else if l.kind == STRING {
      var s := DecodeToStringWithBounds(payload, previousStart, cursor);
      toInsert := [StringV(s)];
    } else if l.kind == LONG {
      var x := ReadLong(payload, previousStart, cursor);
      toInsert := [LongV(x)];
    } else if l.kind == INT {
      var x := ReadInt(payload, previousStart, cursor);
      toInsert := [IntV(x)];
    } else if l.kind == LONG_ARRAY {
      var x := ReadLong(payload, previousStart, cursor);
      toInsert := [LongsV(Store(l.arr, l.subIndex, x))];
    } else if l.kind == INT_ARRAY {
      var x := ReadInt(payload, previousStart, cursor);
      toInsert := [IntsV(Store(l.arr, l.subIndex, x))];
    } else if IsMap(l.kind) {
      var each := l.pairs;
      if l.mapKey != NULL_LONG {
        var x := ReadLong(payload, previousStart, cursor);
        each := PutInto(l.kind, each, l.mapKey, x);
      }
      toInsert := [if l.kind == LONG_LONG_MAP then MapV(each) else ArrayMapV(each)];
    }
  }

  method Insert(l: Loader, payload: Buffer, previousStart: nat, cursor: nat) returns (m: Loader)
    requires previousStart <= cursor <= |payload.bytes| && EndFits(l, payload.bytes[previousStart..cursor])
    ensures m == Finish(l, payload.bytes[previousStart..cursor])
  {
    m := l;
    if l.kind != -1 {
      var toInsert := Complete(l, payload, previousStart, cursor);
      if toInsert != [] {
        m := l.(done := l.done + [(l.key, toInsert[0])]);
      }
    }
  }

  method OnChunkSep(l: Loader, payload: Buffer, previousStart: nat, cursor: nat) returns (m: Loader)
    requires previousStart <= cursor <= |payload.bytes| && SepFits(l, CHUNK_SEP, payload.bytes[previousStart..cursor])
    ensures m == OnSep(l, CHUNK_SEP, payload.bytes[previousStart..cursor])
  {
    if l.first {
      var stateChunkSize := ReadInt(payload, previousStart, cursor);
      m := l.(first := false, number := stateChunkSize);
    } else {
      m := Insert(l, payload, previousStart, cursor);
      m := m.(key := NULL_LONG, kind := -1, subSize := -1, subIndex := 0, mapKey := NULL_LONG);
    }
  }

  method OnSubSep(l: Loader, payload: Buffer, previousStart: nat, cursor: nat) returns (m: Loader)
    requires previousStart <= cursor <= |payload.bytes|
    requires SepFits(l, CHUNK_SUB_SEP, payload.bytes[previousStart..cursor])
    ensures m == OnSep(l, CHUNK_SUB_SEP, payload.bytes[previousStart..cursor])
  {
    if l.key == NULL_LONG {
      var key := ReadLong(payload, previousStart, cursor);
      m := l.(key := key);
    } else {
      var kind := ReadInt(payload, previousStart, cursor);
      m := l.(kind := kind);
    }
  }

  method OnSubSubSep(l: Loader, payload: Buffer, previousStart: nat, cursor: nat) returns (m: Loader)
    requires previousStart <= cursor <= |payload.bytes|
    requires SepFits(l, CHUNK_SUB_SUB_SEP, payload.bytes[previousStart..cursor])
    ensures m == OnSep(l, CHUNK_SUB_SUB_SEP, payload.bytes[previousStart..cursor])
  {
    m := l;
    if l.subSize == -1 {
      var size := ReadLong(payload, previousStart, cursor);
      m := m.(subSize := size);
      if IsMap(l.kind) {
        m := m.(pairs := []);
      } else if l.kind == LONG_ARRAY || l.kind == INT_ARRAY {
        m := m.(arr := Zeros(size));
      }
    } else if l.kind == LONG_ARRAY {
      var x := ReadLong(payload, previousStart, cursor);
      m := l.(arr := Store(l.arr, l.subIndex, x), subIndex := l.subIndex + 1);
    } else if l.kind == INT_ARRAY {
      var x := ReadInt(payload, previousStart, cursor);
      m := l.(arr := Store(l.arr, l.subIndex, x), subIndex := l.subIndex + 1);
    } else if IsMap(l.kind) && l.mapKey != NULL_LONG {
      var x := ReadLong(payload, previousStart, cursor);
      m := l.(pairs := PutInto(l.kind, l.pairs, l.mapKey, x), mapKey := NULL_LONG);
    }
  }

  method OnSubSubSubSep(l: Loader, payload: Buffer, previousStart: nat, cursor: nat) returns (m: Loader)
    requires previousStart <= cursor <= |payload.bytes|
    requires SepFits(l, CHUNK_SUB_SUB_SUB_SEP, payload.bytes[previousStart..cursor])
    ensures m == OnSep(l, CHUNK_SUB_SUB_SUB_SEP, payload.bytes[previousStart..cursor])
  {
    m := l;
    if IsMap(l.kind) {
      var x := ReadLong(payload, previousStart, cursor);
      if l.mapKey == NULL_LONG {
        m := l.(mapKey := x);
      } else {
        m := l.(pairs := PutInto(l.kind, l.pairs, l.mapKey, x), mapKey := NULL_LONG);
      }
    }
  }

  /** The loop body of load at a separator. */
  method AtSeparator(l: Loader, current: byte, payload: Buffer, previousStart: nat, cursor: nat) returns (m: Loader)
    requires previousStart <= cursor <= |payload.bytes| && IsSep(current)
    requires SepFits(l, current, payload.bytes[previousStart..cursor])
    ensures m == OnSep(l, current, payload.bytes[previousStart..cursor])
  {
    if current == CHUNK_SEP {
      m := OnChunkSep(l, payload, previousStart, cursor);
    } else if current == CHUNK_SUB_SEP {
      m := OnSubSep(l, payload, previousStart, cursor);
    } else if current == CHUNK_SUB_SUB_SEP {
      m := OnSubSubSep(l, payload, previousStart, cursor);
    } else {
      m := OnSubSubSubSep(l, payload, previousStart, cursor);
    }
  }

  /** load, of any text that its decoders can be given: the run of the loader over the tokens. */
  method LoadTokens(payload: Buffer, ghost text: seq<byte>, ghost ts: seq<Token>) returns (l: Loader)
    requires payload.bytes == text + Joined(ts) && Fits(START, text, ts) && Separated(ts)
    ensures l == Run(START, text, ts)
  {
    l := START;
    var cursor, previousStart := 0, 0;
    ghost var here, rest := text, ts;
    assert payload.bytes[0..] == payload.bytes;
    while cursor < payload.Size()
      invariant Scanning(payload.bytes, previousStart, cursor, l, here, rest) && cursor <= |payload.bytes|
      invariant Run(l, here, rest) == Run(START, text, ts)
    {
      AtCursor(payload.bytes, previousStart, cursor, l, here, rest);
      var current := payload.bytes[cursor];
      if IsSep(current) {
        l := AtSeparator(l, current, payload, previousStart, cursor);
        here, rest := rest[0].text, rest[1..];
        previousStart := cursor + 1;
      }
      cursor := cursor + 1;
    }
    AtCursor(payload.bytes, previousStart, cursor, l, here, rest);
    l := Insert(l, payload, previousStart, cursor);
  }

  lemma {:induction false} SlotsSeparated(slots: seq<Slot>)
    ensures Separated(SlotsTokens(slots))
  {
    if slots != [] {
      SlotsSeparated(slots[1..]);
      if slots[0].Attr? {
        ValueSeparated(slots[0].value);
      }
    }
  }

  lemma ValueSeparated(v: Value)
    ensures Separated(ValueTokens(v))
  {
    match v
    case LongsV(a) => ArraySeparated(a);
    case IntsV(a) => ArraySeparated(a);
    case MapV(each) => PairsSeparated(each);
    case ArrayMapV(each) => PairsSeparated(each);
    case _ =>
  }

  lemma {:induction false} ArraySeparated(a: seq<int>)
    ensures Separated(ArrayTokens(a))
  {
    if a != [] {
      ArraySeparated(a[1..]);
    }
  }

  lemma {:induction false} PairsSeparated(each: seq<(int, int)>)
    ensures Separated(PairTokens(each))
  {
    if each != [] {
      PairsSeparated(each[1..]);
    }
  }

  /** What load finds in the text of a saved state: every attribute that had content, under its key and with its
      type, in the order of the slots. */
  method SaveThenScan(slots: seq<Slot>) returns (l: Loader)
    requires IsCount(|slots|) && forall i :: 0 <= i < |slots| ==> SlotOk(slots[i])
    ensures l.done == Attributes(slots) && (l.first <==> Attributes(slots) == [])
    ensures l.number == if Attributes(slots) == [] then 0 else |slots|
  {
    var buffer := new Buffer();
    Save(slots, buffer);
    l := Scan(buffer, slots);
  }

  /** What load finds in the bytes of a state, whoever wrote them. */
  method Scan(payload: Buffer, ghost slots: seq<Slot>) returns (l: Loader)
    requires IsCount(|slots|) && forall i :: 0 <= i < |slots| ==> SlotOk(slots[i])
    requires payload.bytes == StateFormat.StateBytes(slots)
    ensures l.done == Attributes(slots) && (l.first <==> Attributes(slots) == [])
    ensures l.number == if Attributes(slots) == [] then 0 else |slots|
  {
    StateFormat.SavedTextIs(slots);
    StartRun(slots, |slots|);
    SlotsSeparated(slots);
    l := LoadTokens(payload, LongText(|slots|), SlotsTokens(slots));
  }
}
