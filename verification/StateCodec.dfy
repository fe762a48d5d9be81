/** The text form of a state chunk: what save writes, token by token, and what load makes of the tokens. */
module StateCodec {
  import opened Arithmetic
  import opened Constants
  import opened Buffers
  import opened Base64
  import opened Base64Strings
  import opened Values

  const BOOL_TRUE: byte := 49   // '1'
  const BOOL_FALSE: byte := 48  // '0'

  /** A slot of the state, `Gap` when its content is null. */
  datatype Slot = Gap | Attr(key: int, value: Value)

  predicate IsLong(l: int) {
    -MAX_LONG <= l <= MAX_LONG
  }

  predicate IsCount(i: int) {
    0 <= i < MAX_INT_MAGNITUDE
  }

  ghost predicate PairsOk(each: seq<(int, int)>) {
    && each != [] && IsCount(|each|)
    && forall j :: 0 <= j < |each| ==>
         IsLong(each[j].0) && IsLong(each[j].1) && each[j].0 != NULL_LONG && each[j].1 != NULL_LONG
  }

  /** The values that come back: eight-bit characters, non-negative ints, arrays and maps with elements. */
  ghost predicate Savable(v: Value) {
    match v
    case BoolV(_) => true
    case StringV(s) => forall c <- s :: c < 256
    case LongV(l) => IsLong(l)
    case IntV(i) => IsCount(i)
    case LongsV(a) => a != [] && IsCount(|a|) && forall j :: 0 <= j < |a| ==> IsLong(a[j])
    case IntsV(a) => a != [] && IsCount(|a|) && forall j :: 0 <= j < |a| ==> IsCount(a[j])
    case MapV(each) => PairsOk(each) && forall i, j :: 0 <= i < j < |each| ==> each[i].0 != each[j].0
    case ArrayMapV(each) => PairsOk(each) && forall i, j :: 0 <= i < j < |each| ==> each[i] != each[j]
  }

  ghost predicate SlotOk(s: Slot) {
    s.Attr? ==> IsLong(s.key) && s.key != NULL_LONG && Savable(s.value)
  }

  // ----- tokens -----

  /** A separator and the text up to the next one. */
  datatype Token = Token(sep: byte, text: seq<byte>)

  function Joined(ts: seq<Token>): seq<byte> {
    if ts == [] then [] else [ts[0].sep] + ts[0].text + Joined(ts[1..])
  }

  function ArrayTokens(a: seq<int>): seq<Token> {
    if a == [] then [] else [Token(CHUNK_SUB_SUB_SEP, LongText(a[0]))] + ArrayTokens(a[1..])
  }

  function PairTokens(each: seq<(int, int)>): seq<Token> {
    if each == [] then []
    else
      var t, u := Token(CHUNK_SUB_SUB_SEP, LongText(each[0].0)), Token(CHUNK_SUB_SUB_SUB_SEP, LongText(each[0].1));
      [t, u] + PairTokens(each[1..])
  }

  /** The first text of a value, and the tokens after it. */
  function ValueText(v: Value): seq<byte> {
    match v
    case BoolV(b) => [if b then BOOL_TRUE else BOOL_FALSE]
    case StringV(s) => StringText(s)
    case LongV(l) => LongText(l)
    case IntV(i) => LongText(i)
    case LongsV(a) => LongText(|a|)
    case IntsV(a) => LongText(|a|)
    case MapV(each) => LongText(|each|)
    case ArrayMapV(each) => LongText(|each|)
  }

  function ValueTokens(v: Value): seq<Token> {
    match v
    case LongsV(a) => ArrayTokens(a)
    case IntsV(a) => ArrayTokens(a)
    case MapV(each) => PairTokens(each)
    case ArrayMapV(each) => PairTokens(each)
    case _ => []
  }

  /** The tokens after the key of an attribute. */
  function AttrTokens(v: Value): seq<Token> {
    [Token(CHUNK_SUB_SEP, LongText(KindOf(v))), Token(CHUNK_SUB_SEP, ValueText(v))] + ValueTokens(v)
  }

  function SlotTokens(s: Slot): seq<Token> {
    if s.Gap? then [] else [Token(CHUNK_SEP, LongText(s.key))] + AttrTokens(s.value)
  }

  function SlotsTokens(slots: seq<Slot>): seq<Token> {
    if slots == [] then [] else SlotTokens(slots[0]) + SlotsTokens(slots[1..])
  }

  /** What save writes. */
  function SavedText(slots: seq<Slot>): seq<byte> {
    LongText(|slots|) + Joined(SlotsTokens(slots))
  }

  // ----- the loader -----

  /** The variables of load; `done` is what the new arrays hold, `number` their element count. */
  datatype Loader = Loader(first: bool, number: int, done: seq<(int, Value)>, key: int, kind: int, subSize: int,
                           subIndex: nat, arr: seq<int>, pairs: seq<(int, int)>, mapKey: int)

  const START: Loader := Loader(true, 0, [], NULL_LONG, -1, -1, 0, [], [], NULL_LONG)

  function LongIn(text: seq<byte>): int {
    if forall b <- text :: IsDigit(b) then LongOf(text) else 0
  }

  function IntIn(text: seq<byte>): int {
    if forall b <- text :: IsDigit(b) then IntOf(text).Floor else 0
  }

  /** put of a long-to-long map, by the order of its slots. */
  function PutKey(each: seq<(int, int)>, k: int, v: int): seq<(int, int)> {
    if each == [] then [(k, v)]
    else if each[0].0 == k then [(k, v)] + each[1..]
    else [each[0]] + PutKey(each[1..], k, v)
  }

  function PutPair(each: seq<(int, int)>, k: int, v: int): seq<(int, int)> {
    if (k, v) in each then each else each + [(k, v)]
  }

  function PutInto(kind: int, each: seq<(int, int)>, k: int, v: int): seq<(int, int)> {
    if kind == LONG_LONG_MAP then PutKey(each, k, v) else PutPair(each, k, v)
  }

  function Zeros(n: int): seq<int> {
    if n <= 0 then [] else seq(n, _ => 0)
  }

  /** An assignment to an element of a typed array. */
  function Store(arr: seq<int>, i: nat, v: int): seq<int> {
    if i < |arr| then arr[i := v] else arr
  }

  predicate IsMap(kind: int) {
    kind == LONG_LONG_MAP || kind == LONG_LONG_ARRAY_MAP
  }

  /** The value of the attribute being read, once its last text is known. */
  function Completed(l: Loader, text: seq<byte>): (v: seq<Value>)
    ensures |v| <= 1
  {
    if l.kind == BOOL then
      if text != [] && text[0] == BOOL_FALSE then [BoolV(false)]
        else if text != [] && text[0] == BOOL_TRUE then [BoolV(true)] else []
    else if l.kind == STRING then [StringV(if forall b <- text :: IsDigit(b) then Unpacked(Indices(text)) else [])]
    else if l.kind == LONG then [LongV(LongIn(text))]
    else if l.kind == INT then [IntV(IntIn(text))]
    else if l.kind == LONG_ARRAY then [LongsV(Store(l.arr, l.subIndex, LongIn(text)))]
    else if l.kind == INT_ARRAY then [IntsV(Store(l.arr, l.subIndex, IntIn(text)))]
    else if IsMap(l.kind) then
      var each := if l.mapKey != NULL_LONG then PutInto(l.kind, l.pairs, l.mapKey, LongIn(text)) else l.pairs;
      [if l.kind == LONG_LONG_MAP then MapV(each) else ArrayMapV(each)]
    else []
  }

  function Finish(l: Loader, text: seq<byte>): Loader {
    var v := Completed(l, text);
    if l.kind != -1 && v != [] then l.(done := l.done + [(l.key, v[0])]) else l
  }

  /** What the loop body does at a separator after `text`. */
  function OnSep(l: Loader, sep: byte, text: seq<byte>): Loader {
    if sep == CHUNK_SEP then
      if l.first then l.(first := false, number := IntIn(text))
      else Finish(l, text).(key := NULL_LONG, kind := -1, subSize := -1, subIndex := 0, mapKey := NULL_LONG)
    else if sep == CHUNK_SUB_SEP then
      if l.key == NULL_LONG then l.(key := LongIn(text))
      else if l.kind == -1 then l.(kind := IntIn(text))
      else l
    else if sep == CHUNK_SUB_SUB_SEP then
      if l.subSize == -1 then
        var size := LongIn(text);
        if IsMap(l.kind) then l.(subSize := size, pairs := [])
        else if l.kind == LONG_ARRAY || l.kind == INT_ARRAY then l.(subSize := size, arr := Zeros(size))
        else l.(subSize := size)
      else if l.kind == LONG_ARRAY then l.(arr := Store(l.arr, l.subIndex, LongIn(text)), subIndex := l.subIndex + 1)
      else if l.kind == INT_ARRAY then l.(arr := Store(l.arr, l.subIndex, IntIn(text)), subIndex := l.subIndex + 1)
      else if IsMap(l.kind) && l.mapKey != NULL_LONG then
        l.(pairs := PutInto(l.kind, l.pairs, l.mapKey, LongIn(text)), mapKey := NULL_LONG)
      else l
    else if sep == CHUNK_SUB_SUB_SUB_SEP && IsMap(l.kind) then
      if l.mapKey == NULL_LONG then l.(mapKey := LongIn(text))
      else l.(pairs := PutInto(l.kind, l.pairs, l.mapKey, LongIn(text)), mapKey := NULL_LONG)
    else l
  }

  /** The run of load over tokens: `text` stands before the first separator. */
  function Run(l: Loader, text: seq<byte>, ts: seq<Token>): Loader
    decreases |ts|
  {
    if ts == [] then Finish(l, text) else Run(OnSep(l, ts[0].sep, text), ts[0].text, ts[1..])
  }

  /** The part of a run up to the last of the tokens. */
  function Part(l: Loader, text: seq<byte>, ts: seq<Token>): (Loader, seq<byte>)
    decreases |ts|
  {
    if ts == [] then (l, text) else Part(OnSep(l, ts[0].sep, text), ts[0].text, ts[1..])
  }

  lemma {:induction false} RunAppend(l: Loader, text: seq<byte>, a: seq<Token>, b: seq<Token>)
    ensures Run(l, text, a + b) == var (m, last) := Part(l, text, a); Run(m, last, b)
    ensures Part(l, text, a + b) == var (m, last) := Part(l, text, a); Part(m, last, b)
    decreases |a|
  {
    if a == [] {
      assert a + b == b;
    } else {
      assert (a + b)[1..] == a[1..] + b;
      RunAppend(OnSep(l, a[0].sep, text), a[0].text, a[1..], b);
    }
  }

  // ----- texts that the decoders can be given -----

  /** A text that denotes a number in range. */
  ghost predicate LongLike(text: seq<byte>) {
    text != [] && AllDigits(text) && FromSextets(Indices(text)) < Pow2(54)
  }

  ghost predicate EndFits(l: Loader, text: seq<byte>) {
    && AllDigits(text)
    && (l.kind == BOOL ==> text != [])
    && (l.kind !in {-1, BOOL, STRING} ==> LongLike(text))
  }

  ghost predicate SepFits(l: Loader, sep: byte, text: seq<byte>) {
    if sep == CHUNK_SEP && !l.first then EndFits(l, text)
    else LongLike(text) && (sep == CHUNK_SUB_SEP ==> l.key == NULL_LONG || l.kind == -1)
  }

  ghost predicate PartFits(l: Loader, text: seq<byte>, ts: seq<Token>)
    decreases |ts|
  {
    ts != [] ==> SepFits(l, ts[0].sep, text) && PartFits(OnSep(l, ts[0].sep, text), ts[0].text, ts[1..])
  }

  ghost predicate Fits(l: Loader, text: seq<byte>, ts: seq<Token>)
    decreases |ts|
  {
    if ts == [] then EndFits(l, text)
    else SepFits(l, ts[0].sep, text) && Fits(OnSep(l, ts[0].sep, text), ts[0].text, ts[1..])
  }

  lemma {:induction false} FitsAppend(l: Loader, text: seq<byte>, a: seq<Token>, b: seq<Token>)
    requires PartFits(l, text, a) && var (m, last) := Part(l, text, a); Fits(m, last, b)
    ensures Fits(l, text, a + b)
    decreases |a|
  {
    if a == [] {
      assert a + b == b;
    } else {
      TailOf(a[0], a[1..], b);
      assert a == [a[0]] + a[1..];
      FitsAppend(OnSep(l, a[0].sep, text), a[0].text, a[1..], b);
    }
  }

  // ----- each value comes back -----

  lemma LongInText(l: int)
    requires IsLong(l)
    ensures LongIn(LongText(l)) == l && LongLike(LongText(l))
  {
    LongRoundTrip(l);
  }

  lemma IntInText(i: int)
    requires i >= 0
    ensures IntIn(LongText(i)) == i
  {
    IntRoundTrip(i);
  }

  /** Between two attributes. */
  predicate Ready(l: Loader) {
    !l.first && l.key == NULL_LONG && l.kind == -1 && l.subSize == -1 && l.subIndex == 0 && l.mapKey == NULL_LONG
  }

  /** After its last token an attribute is complete but for its being appended. */
  ghost predicate Pending(l: Loader, text: seq<byte>, number: int, done: seq<(int, Value)>) {
    !l.first && l.number == number && Finish(l, text).done == done
  }

  ghost predicate Reading(l: Loader, kind: int, key: int) {
    !l.first && l.kind == kind && l.key == key && l.subSize != -1
  }

  lemma ZerosNext(a: seq<int>, i: nat, arr: seq<int>, v: int)
    requires i < |a| && v == a[i] && arr == a[..i] + Zeros(|a| - i)
    ensures Store(arr, i, v) == a[..i + 1] + Zeros(|a| - (i + 1))
  {
  }

  lemma LongElement(l: Loader, a: seq<int>, i: nat) returns (next: Loader)
    requires i < |a| && IsLong(a[i]) && Reading(l, LONG_ARRAY, l.key) && l.subIndex == i
    requires l.arr == a[..i] + Zeros(|a| - i)
    ensures SepFits(l, CHUNK_SUB_SUB_SEP, LongText(a[i])) && next == OnSep(l, CHUNK_SUB_SUB_SEP, LongText(a[i]))
    ensures next == l.(arr := a[..i + 1] + Zeros(|a| - (i + 1)), subIndex := i + 1)
    ensures EndFits(l, LongText(a[i]))
    ensures i + 1 == |a| ==> Pending(l, LongText(a[i]), l.number, l.done + [(l.key, LongsV(a))])
  {
    LongInText(a[i]);
    ZerosNext(a, i, l.arr, a[i]);
    next := OnSep(l, CHUNK_SUB_SUB_SEP, LongText(a[i]));
    assert i + 1 == |a| ==> a[..i + 1] + Zeros(0) == a;
  }

  lemma {:induction false} LongArrayRun(l: Loader, a: seq<int>, i: nat)
    requires i < |a| && (forall j :: 0 <= j < |a| ==> IsLong(a[j])) && Reading(l, LONG_ARRAY, l.key)
    requires l.subIndex == i && l.arr == a[..i] + Zeros(|a| - i)
    ensures var (m, last) := Part(l, LongText(a[i]), ArrayTokens(a[i + 1..]));
      Pending(m, last, l.number, l.done + [(l.key, LongsV(a))])
    ensures PartFits(l, LongText(a[i]), ArrayTokens(a[i + 1..]))
    ensures var (m, last) := Part(l, LongText(a[i]), ArrayTokens(a[i + 1..])); EndFits(m, last)
    decreases |a| - i
  {
    var next := LongElement(l, a, i);
    if i + 1 < |a| {
      assert a[i + 1..][1..] == a[i + 2..];
      LongArrayRun(next, a, i + 1);
    }
  }

  lemma IntElement(l: Loader, a: seq<int>, i: nat) returns (next: Loader)
    requires i < |a| && IsCount(a[i]) && Reading(l, INT_ARRAY, l.key) && l.subIndex == i
    requires l.arr == a[..i] + Zeros(|a| - i)
    ensures SepFits(l, CHUNK_SUB_SUB_SEP, LongText(a[i])) && next == OnSep(l, CHUNK_SUB_SUB_SEP, LongText(a[i]))
    ensures next == l.(arr := a[..i + 1] + Zeros(|a| - (i + 1)), subIndex := i + 1)
    ensures EndFits(l, LongText(a[i]))
    ensures i + 1 == |a| ==> Pending(l, LongText(a[i]), l.number, l.done + [(l.key, IntsV(a))])
  {
    LongInText(a[i]);
    IntInText(a[i]);
    ZerosNext(a, i, l.arr, a[i]);
    next := OnSep(l, CHUNK_SUB_SUB_SEP, LongText(a[i]));
    assert i + 1 == |a| ==> a[..i + 1] + Zeros(0) == a;
  }

  lemma {:induction false} IntArrayRun(l: Loader, a: seq<int>, i: nat)
    requires i < |a| && (forall j :: 0 <= j < |a| ==> IsCount(a[j])) && Reading(l, INT_ARRAY, l.key)
    requires l.subIndex == i && l.arr == a[..i] + Zeros(|a| - i)
    ensures var (m, last) := Part(l, LongText(a[i]), ArrayTokens(a[i + 1..]));
      Pending(m, last, l.number, l.done + [(l.key, IntsV(a))])
    ensures PartFits(l, LongText(a[i]), ArrayTokens(a[i + 1..]))
    ensures var (m, last) := Part(l, LongText(a[i]), ArrayTokens(a[i + 1..])); EndFits(m, last)
    decreases |a| - i
  {
    var next := IntElement(l, a, i);
    if i + 1 < |a| {
      assert a[i + 1..][1..] == a[i + 2..];
      IntArrayRun(next, a, i + 1);
    }
  }

  lemma {:induction false} PutKeyFresh(each: seq<(int, int)>, k: int, v: int)
    requires forall j :: 0 <= j < |each| ==> each[j].0 != k
    ensures PutKey(each, k, v) == each + [(k, v)]
  {
    if each != [] {
      PutKeyFresh(each[1..], k, v);
    }
  }

  /** What the maps of a kind ask of their pairs. */
  ghost predicate EachOk(kind: int, each: seq<(int, int)>) {
    && IsMap(kind) && PairsOk(each)
    && forall i, j :: 0 <= i < j < |each| ==> each[i] != each[j] && (kind == LONG_LONG_MAP ==> each[i].0 != each[j].0)
  }

  lemma PutNext(kind: int, each: seq<(int, int)>, i: nat)
    requires EachOk(kind, each) && i < |each|
    ensures PutInto(kind, each[..i], each[i].0, each[i].1) == each[..i + 1]
  {
    if kind == LONG_LONG_MAP {
      PutKeyFresh(each[..i], each[i].0, each[i].1);
    } else {
      assert (each[i].0, each[i].1) == each[i];
    }
  }

  function MapOf(kind: int, each: seq<(int, int)>): Value {
    if kind == LONG_LONG_MAP then MapV(each) else ArrayMapV(each)
  }

  /** The tokens after the key of pair i. */
  function PairsFrom(each: seq<(int, int)>, i: nat): seq<Token>
    requires i < |each|
  {
    [Token(CHUNK_SUB_SUB_SUB_SEP, LongText(each[i].1))] + PairTokens(each[i + 1..])
  }

  /** The two steps of a pair that is not the last. */
  lemma {:induction false} PairSteps(l: Loader, kind: int, each: seq<(int, int)>, i: nat)
    returns (keyed: Loader, put: Loader)
    requires EachOk(kind, each) && i < |each| && Reading(l, kind, l.key) && l.pairs == each[..i]
    requires l.mapKey == NULL_LONG
    ensures keyed == OnSep(l, CHUNK_SUB_SUB_SUB_SEP, LongText(each[i].0)) && keyed == l.(mapKey := each[i].0)
    ensures put == OnSep(keyed, CHUNK_SUB_SUB_SEP, LongText(each[i].1)) && put == l.(pairs := each[..i + 1])
    ensures SepFits(l, CHUNK_SUB_SUB_SUB_SEP, LongText(each[i].0))
    ensures SepFits(keyed, CHUNK_SUB_SUB_SEP, LongText(each[i].1))
  {
    LongInText(each[i].0);
    LongInText(each[i].1);
    PutNext(kind, each, i);
    keyed := OnSep(l, CHUNK_SUB_SUB_SUB_SEP, LongText(each[i].0));
    put := OnSep(keyed, CHUNK_SUB_SUB_SEP, LongText(each[i].1));
  }

  lemma {:induction false} LastPair(l: Loader, kind: int, each: seq<(int, int)>, i: nat)
    requires EachOk(kind, each) && i + 1 == |each| && Reading(l, kind, l.key) && l.pairs == each[..i]
    requires l.mapKey == each[i].0
    ensures Pending(l, LongText(each[i].1), l.number, l.done + [(l.key, MapOf(kind, each))])
    ensures EndFits(l, LongText(each[i].1))
  {
    LongInText(each[i].1);
    PutNext(kind, each, i);
    assert each[..i + 1] == each;
  }

  lemma {:induction false} MapRun(l: Loader, kind: int, each: seq<(int, int)>, i: nat)
    requires EachOk(kind, each) && i < |each| && Reading(l, kind, l.key) && l.pairs == each[..i]
    requires l.mapKey == NULL_LONG
    ensures var (m, last) := Part(l, LongText(each[i].0), PairsFrom(each, i));
      Pending(m, last, l.number, l.done + [(l.key, MapOf(kind, each))])
    ensures PartFits(l, LongText(each[i].0), PairsFrom(each, i))
    ensures var (m, last) := Part(l, LongText(each[i].0), PairsFrom(each, i)); EndFits(m, last)
    decreases |each| - i
  {
    var keyed, put := PairSteps(l, kind, each, i);
    assert PairsFrom(each, i)[1..] == PairTokens(each[i + 1..]);
    if i + 1 < |each| {
      var rest := PairTokens(each[i + 1..]);
      assert each[i + 1..][1..] == each[i + 2..];
      assert rest[1..] == PairsFrom(each, i + 1);
      MapRun(put, kind, each, i + 1);
    } else {
      assert PairTokens(each[i + 1..]) == [];
      LastPair(keyed, kind, each, i);
    }
  }

  ghost predicate Fresh(l: Loader, kind: int) {
    !l.first && l.kind == kind && l.subSize == -1 && l.subIndex == 0 && l.mapKey == NULL_LONG
  }

  lemma {:induction false} ScalarRun(l: Loader, v: Value)
    requires Savable(v) && Fresh(l, KindOf(v)) && (v.BoolV? || v.StringV? || v.LongV? || v.IntV?)
    ensures Pending(l, ValueText(v), l.number, l.done + [(l.key, v)])
    ensures EndFits(l, ValueText(v))
  {
    match v
    case BoolV(b) =>
    case StringV(s) => StringRoundTrip(s);
    case LongV(x) => LongInText(x);
    case IntV(x) => CountText(x);
  }

  lemma {:induction false} LongsValueRun(l: Loader, a: seq<int>)
    requires Savable(LongsV(a)) && Fresh(l, LONG_ARRAY)
    ensures var (m, last) := Part(l, LongText(|a|), ArrayTokens(a));
      Pending(m, last, l.number, l.done + [(l.key, LongsV(a))])
    ensures PartFits(l, LongText(|a|), ArrayTokens(a))
    ensures var (m, last) := Part(l, LongText(|a|), ArrayTokens(a)); EndFits(m, last)
  {
    CountText(|a|);
    var next := OnSep(l, CHUNK_SUB_SUB_SEP, LongText(|a|));
    assert a[0..] == a && next.arr == a[..0] + Zeros(|a|);
    LongArrayRun(next, a, 0);
  }

  lemma {:induction false} IntsValueRun(l: Loader, a: seq<int>)
    requires Savable(IntsV(a)) && Fresh(l, INT_ARRAY)
    ensures var (m, last) := Part(l, LongText(|a|), ArrayTokens(a));
      Pending(m, last, l.number, l.done + [(l.key, IntsV(a))])
    ensures PartFits(l, LongText(|a|), ArrayTokens(a))
    ensures var (m, last) := Part(l, LongText(|a|), ArrayTokens(a)); EndFits(m, last)
  {
    CountText(|a|);
    var next := OnSep(l, CHUNK_SUB_SUB_SEP, LongText(|a|));
    assert a[0..] == a && next.arr == a[..0] + Zeros(|a|);
    IntArrayRun(next, a, 0);
  }

  /** The value of an attribute, from its first text on. */
  lemma {:induction false} ValueRun(l: Loader, v: Value)
    requires Savable(v) && Fresh(l, KindOf(v))
    ensures var (m, last) := Part(l, ValueText(v), ValueTokens(v)); Pending(m, last, l.number, l.done + [(l.key, v)])
    ensures PartFits(l, ValueText(v), ValueTokens(v))
    ensures var (m, last) := Part(l, ValueText(v), ValueTokens(v)); EndFits(m, last)
  {
    match v
    case LongsV(a) => LongsValueRun(l, a);
    case IntsV(a) => IntsValueRun(l, a);
    case MapV(each) => MapValueRun(l, LONG_LONG_MAP, each);
    case ArrayMapV(each) => MapValueRun(l, LONG_LONG_ARRAY_MAP, each);
    case _ => ScalarRun(l, v);
  }

  lemma CountText(n: int)
    requires IsCount(n)
    ensures LongIn(LongText(n)) == n && IntIn(LongText(n)) == n && LongLike(LongText(n))
  {
    LongInText(n);
    IntInText(n);
  }

  lemma {:induction false} MapValueRun(l: Loader, kind: int, each: seq<(int, int)>)
    requires EachOk(kind, each) && !l.first && l.kind == kind && l.subSize == -1 && l.mapKey == NULL_LONG
    ensures var (m, last) := Part(l, LongText(|each|), PairTokens(each));
      Pending(m, last, l.number, l.done + [(l.key, MapOf(kind, each))])
    ensures PartFits(l, LongText(|each|), PairTokens(each))
    ensures var (m, last) := Part(l, LongText(|each|), PairTokens(each)); EndFits(m, last)
  {
    CountText(|each|);
    var next := OnSep(l, CHUNK_SUB_SUB_SEP, LongText(|each|));
    assert PairTokens(each)[1..] == PairsFrom(each, 0);
    assert each[..0] == [];
    MapRun(next, kind, each, 0);
  }

  /** The attributes of the slots, in their order. */
  function Attributes(slots: seq<Slot>): seq<(int, Value)> {
    if slots == [] then []
    else (if slots[0].Gap? then [] else [(slots[0].key, slots[0].value)]) + Attributes(slots[1..])
  }

  /** An attribute, from its key on. */
  lemma {:induction false} AttrRun(l: Loader, s: Slot)
    requires SlotOk(s) && s.Attr? && Ready(l)
    ensures var (m, last) := Part(l, LongText(s.key), AttrTokens(s.value));
      Pending(m, last, l.number, l.done + [(s.key, s.value)])
    ensures PartFits(l, LongText(s.key), AttrTokens(s.value))
    ensures var (m, last) := Part(l, LongText(s.key), AttrTokens(s.value)); EndFits(m, last)
  {
    LongInText(s.key);
    CountText(KindOf(s.value));
    var keyed := OnSep(l, CHUNK_SUB_SEP, LongText(s.key));
    var typed := OnSep(keyed, CHUNK_SUB_SEP, LongText(KindOf(s.value)));
    var ts := AttrTokens(s.value);
    assert ts[1..][1..] == ValueTokens(s.value);
    ValueRun(typed, s.value);
  }

  lemma NextAttr(l: Loader, text: seq<byte>, number: int, done: seq<(int, Value)>)
    requires Pending(l, text, number, done)
    ensures var next := OnSep(l, CHUNK_SEP, text); Ready(next) && next.number == number && next.done == done
  {
  }

  /** A run through an attribute to the one after it. */
  lemma {:induction false} AttrThen(l: Loader, s: Slot, tail: seq<Token>) returns (m: Loader, last: seq<byte>)
    requires SlotOk(s) && s.Attr? && Ready(l)
    ensures Pending(m, last, l.number, l.done + [(s.key, s.value)])
    ensures Run(l, LongText(s.key), AttrTokens(s.value) + tail) == Run(m, last, tail) && EndFits(m, last)
    ensures Fits(m, last, tail) ==> Fits(l, LongText(s.key), AttrTokens(s.value) + tail)
  {
    AttrRun(l, s);
    RunAppend(l, LongText(s.key), AttrTokens(s.value), tail);
    m, last := Part(l, LongText(s.key), AttrTokens(s.value)).0, Part(l, LongText(s.key), AttrTokens(s.value)).1;
    if Fits(m, last, tail) {
      FitsAppend(l, LongText(s.key), AttrTokens(s.value), tail);
    }
  }

  lemma TailOf<T>(x: T, a: seq<T>, b: seq<T>)
    ensures var ts := [x] + a + b; ts != [] && ts[0] == x && ts[1..] == a + b
  {
  }

  lemma Assoc<T>(a: seq<T>, x: T, b: seq<T>)
    ensures a + [x] + b == a + ([x] + b)
  {
  }

  lemma {:induction false} SlotsSplit(slots: seq<Slot>)
    requires slots != []
    ensures slots[0].Gap? ==>
      SlotsTokens(slots) == SlotsTokens(slots[1..]) && Attributes(slots) == Attributes(slots[1..])
    ensures slots[0].Attr? ==>
      var s, ts := slots[0], SlotsTokens(slots);
      && ts != [] && ts[0] == Token(CHUNK_SEP, LongText(s.key))
      && ts[1..] == AttrTokens(s.value) + SlotsTokens(slots[1..])
      && Attributes(slots) == [(s.key, s.value)] + Attributes(slots[1..])
  {
    if slots[0].Attr? {
      var t := Token(CHUNK_SEP, LongText(slots[0].key));
      TailOf(t, AttrTokens(slots[0].value), SlotsTokens(slots[1..]));
      assert SlotsTokens(slots) == [t] + AttrTokens(slots[0].value) + SlotsTokens(slots[1..]);
    }
  }

  /** From a complete attribute on. */
  lemma {:induction false} SlotsRun(l: Loader, text: seq<byte>, slots: seq<Slot>, number: int, done: seq<(int, Value)>)
    requires (forall s <- slots :: SlotOk(s)) && Pending(l, text, number, done) && EndFits(l, text)
    ensures Fits(l, text, SlotsTokens(slots))
    ensures var r := Run(l, text, SlotsTokens(slots));
      r.done == done + Attributes(slots) && r.number == number && !r.first
    decreases |slots|
  {
    if slots == [] {
      EndRun(l, text, number, done);
    } else {
      SlotsSplit(slots);
      if slots[0].Attr? {
        NextAttr(l, text, number, done);
        var next := OnSep(l, CHUNK_SEP, text);
        var m, last := AttrThen(next, slots[0], SlotsTokens(slots[1..]));
        var x := (slots[0].key, slots[0].value);
        SlotsRun(m, last, slots[1..], number, done + [x]);
        Assoc(done, x, Attributes(slots[1..]));
      } else {
        SlotsRun(l, text, slots[1..], number, done);
      }
    }
  }

  lemma EndRun(l: Loader, text: seq<byte>, number: int, done: seq<(int, Value)>)
    requires Pending(l, text, number, done)
    ensures var r := Run(l, text, SlotsTokens([])); r.done == done + Attributes([]) && r.number == number && !r.first
  {
  }

  lemma StartSep(count: int)
    requires IsCount(count)
    ensures var next := OnSep(START, CHUNK_SEP, LongText(count)); Ready(next) && next.number == count && next.done == []
    ensures SepFits(START, CHUNK_SEP, LongText(count))
  {
    CountText(count);
  }

  /** The first attribute ends the count; without any the count is never read. */
  lemma {:induction false} StartRun(slots: seq<Slot>, count: int)
    requires (forall s <- slots :: SlotOk(s)) && IsCount(count)
    ensures var r := Run(START, LongText(count), SlotsTokens(slots));
      && r.done == Attributes(slots) && r.number == (if Attributes(slots) == [] then 0 else count)
      && (r.first <==> Attributes(slots) == [])
    ensures Fits(START, LongText(count), SlotsTokens(slots))
    decreases |slots|
  {
    if slots != [] {
      SlotsSplit(slots);
      if slots[0].Attr? {
        StartSep(count);
        var next := OnSep(START, CHUNK_SEP, LongText(count));
        var m, last := AttrThen(next, slots[0], SlotsTokens(slots[1..]));
        SlotsRun(m, last, slots[1..], count, [(slots[0].key, slots[0].value)]);
      } else {
        StartRun(slots[1..], count);
      }
    }
  }

  // ----- growing token lists -----

  lemma {:induction false} JoinedAppend(a: seq<Token>, b: seq<Token>)
    ensures Joined(a + b) == Joined(a) + Joined(b)
  {
    if a == [] {
      assert a + b == b;
    } else {
      assert (a + b)[1..] == a[1..] + b;
      JoinedAppend(a[1..], b);
    }
  }

  lemma JoinedOne(t: Token)
    ensures Joined([t]) == [t.sep] + t.text
  {
    assert [t][1..] == [];
  }

  lemma {:induction false} ArrayTokensLast(a: seq<int>, j: nat)
    requires j < |a|
    ensures ArrayTokens(a[..j + 1]) == ArrayTokens(a[..j]) + [Token(CHUNK_SUB_SUB_SEP, LongText(a[j]))]
    decreases j
  {
    if j > 0 {
      ArrayTokensLast(a[1..], j - 1);
      assert a[..j + 1][1..] == a[1..][..j] && a[..j][1..] == a[1..][..j - 1];
    } else {
      assert a[..1][1..] == [] && a[..0] == [];
    }
  }

  lemma {:induction false} PairTokensLast(each: seq<(int, int)>, j: nat)
    requires j < |each|
    ensures PairTokens(each[..j + 1]) == PairTokens(each[..j]) +
      [Token(CHUNK_SUB_SUB_SEP, LongText(each[j].0)), Token(CHUNK_SUB_SUB_SUB_SEP, LongText(each[j].1))]
    decreases j
  {
    if j > 0 {
      PairTokensLast(each[1..], j - 1);
      assert each[..j + 1][1..] == each[1..][..j] && each[..j][1..] == each[1..][..j - 1];
    } else {
      assert each[..1][1..] == [] && each[..0] == [];
    }
  }

  lemma {:induction false} SlotsTokensLast(slots: seq<Slot>, i: nat)
    requires i < |slots|
    ensures SlotsTokens(slots[..i + 1]) == SlotsTokens(slots[..i]) + SlotTokens(slots[i])
    decreases i
  {
    if i > 0 {
      SlotsTokensLast(slots[1..], i - 1);
      assert slots[..i + 1][1..] == slots[1..][..i] && slots[..i][1..] == slots[1..][..i - 1];
      Together(SlotTokens(slots[0]), SlotsTokens(slots[1..][..i - 1]), SlotTokens(slots[i]));
    } else {
      assert slots[..1][1..] == [] && slots[..0] == [];
    }
  }
}
