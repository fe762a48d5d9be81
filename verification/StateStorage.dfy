/** A state that is saved and loaded: the slots of the table go into a buffer, and what the buffer holds goes
    into a new table, with new maps. */
module StateStorage {
  import opened Hiding
  import opened Constants
  import opened Values
  import opened Base64
  import opened Buffers
  import opened LongLongArrayMaps
  import LongLongMaps
  import opened StateElems
  import opened StateTables
  import opened StateChunks
  import C = StateCodec
  import B = StateBuffers

  /** What is read where a value is stored. */
  ghost function Read(v: Value): Content {
    match v
    case MapV(each) => Entries(each)
    case ArrayMapV(each) => Pairs(Elements(each))
    case _ => Held(v)
  }

  /** The contents that come back. */
  ghost predicate Storable(c: Content) {
    match c
    case Nothing => true
    case Held(v) => C.Savable(v)
    case Entries(each) => C.PairsOk(each)
    case Pairs(pairs) => pairs != {} && C.IsCount(|pairs|) && forall p <- pairs :: PairOk(p)
  }

  ghost predicate PairOk(p: (int, int)) {
    C.IsLong(p.0) && C.IsLong(p.1) && p.0 != NULL_LONG && p.1 != NULL_LONG
  }

  // ----- saving -----

  lemma {:induction false} ElementsSize(each: seq<(int, int)>)
    requires NoneTwice(each)
    ensures |Elements(each)| == |each|
  {
    if each != [] {
      var n := |each| - 1;
      ElementsSize(each[..n]);
      assert each == each[..n] + [each[n]];
      assert Elements(each) == Elements(each[..n]) + {each[n]};
    }
  }

  lemma ArrayMapSavable(each: seq<(int, int)>)
    requires NoneTwice(each) && Storable(Pairs(Elements(each)))
    ensures C.Savable(ArrayMapV(each))
  {
    ElementsSize(each);
    forall j | 0 <= j < |each| ensures PairOk(each[j]) {
      assert each[j] in Elements(each);
    }
  }

  /** What save writes for a slot: of a map, what each() delivers. */
  method ValueOf(e: Elem, kind: int, ghost seen: View) returns (v: Value)
    requires Sees(e, seen) && seen.ok && e != Null && Suits(kind, e) && Storable(seen.content)
    ensures Read(v) == seen.content && KindOf(v) == kind && C.Savable(v)
  {
    assert Unfold(Topic.Elems, true);
    if e.MapRef? {
      var each := e.m.Each();
      ArrayMapSavable(each);
      v := ArrayMapV(each);
    } else if e.LongRef? {
      var pairs := e.l.state.Each();
      v := MapV(pairs);
    } else {
      v := e.value;
    }
  }

  /** The slots before i hold what is read, each key once. */
  ghost predicate Taken(t: StateTable, views: map<int, View>, slots: seq<C.Slot>)
    reads t
  {
    && |slots| <= |t.es| == |t.ks|
    && forall i :: 0 <= i < |slots| ==>
         if t.es[i] == Null then slots[i] == C.Gap
         else
           && slots[i].Attr? && slots[i].key == t.ks[i] && t.ks[i] in views
           && Read(slots[i].value) == views[t.ks[i]].content
  }

  /** Each content is in one slot. */
  ghost predicate Slotted(slots: seq<C.Slot>, views: map<int, View>) {
    && (forall i :: 0 <= i < |slots| && slots[i].Attr? ==>
          slots[i].key in views && Read(slots[i].value) == views[slots[i].key].content)
    && (forall i, j :: 0 <= i < j < |slots| && slots[i].Attr? && slots[j].Attr? ==> slots[i].key != slots[j].key)
    && (forall k <- views :: exists i :: 0 <= i < |slots| && slots[i].Attr? && slots[i].key == k)
  }

  lemma TakenAll(t: StateTable, elems: map<int, Elem>, views: map<int, View>, slots: seq<C.Slot>)
    requires t.Valid() && FiledIn(t, elems) && elems.Keys == views.Keys && Taken(t, views, slots)
    requires |slots| == t.elementCount
    ensures Slotted(slots, views)
  {
    assert Unfold(Topic.Tables, true);
    SlotsGiven(t);
    forall k | k in views ensures exists i :: 0 <= i < |slots| && slots[i].Attr? && slots[i].key == k {
      assert Under(t.Look(k), elems, k);
      var m :| Has(t.ks, t.linked, m, k) && t.es[m] != Null;
      assert slots[m].key == k;
    }
    forall i, j | 0 <= i < j < |slots| && slots[i].Attr? && slots[j].Attr? ensures slots[i].key != slots[j].key {
      assert Has(t.ks, t.linked, i, t.ks[i]) && Has(t.ks, t.linked, j, t.ks[j]);
    }
  }

  /** What comes back of a state. */
  ghost predicate AllStorable(views: map<int, View>) {
    forall k <- views :: C.IsLong(k) && k != NULL_LONG && Storable(views[k].content)
  }

  /** One slot of the loop of save. */
  method TakeSlot(c: StateChunk, i: nat) returns (slot: C.Slot)
    requires c.Valid() && AllStorable(c.views) && c.state.Valid() && i < c.state.elementCount
    requires i < |c.state.es| == |c.state.ks|
    ensures c.Valid() && C.SlotOk(slot)
    ensures if c.state.es[i] == Null then slot == C.Gap
            else
              && slot.Attr? && slot.key == c.state.ks[i] && slot.key in c.views
              && Read(slot.value) == c.views[slot.key].content
  {
    var t := c.state;
    SlotKnown(c, i);
    assert allocated(HandlesOf(c.elems)) && allocated(CoresOf(c.elems));
    if t.elementV[i] == Null {
      return C.Gap;
    }
    var v := ValueOf(t.elementV[i], t.elementType[i], c.views[t.ks[i]]);
    slot := C.Attr(t.elementK[i], v);
  }

  lemma SlotKnown(c: StateChunk, i: nat)
    requires c.Valid() && i < c.state.elementCount
    ensures var t := c.state;
      && i < |t.es| == |t.ks| == |t.ts| == t.elementV.Length == t.elementType.Length == t.elementK.Length
      && t.elementV[i] == t.es[i] && t.elementType[i] == t.ts[i] && t.elementK[i] == t.ks[i]
      && (t.es[i] != Null ==>
            && t.ks[i] in c.views && c.views[t.ks[i]].ok && Sees(t.es[i], c.views[t.ks[i]])
            && Suits(t.ts[i], t.es[i]))
  {
    assert Unfold(Topic.States, true);
    SlotFiled(c.state, c.elems, i);
    assert Unfold(Topic.Elems, true);
    assert c.state.elementK[..][i] == c.state.ks[i];
  }

  /** The loop of save over the slots. */
  method Collect(c: StateChunk) returns (slots: seq<C.Slot>)
    requires c.Valid() && AllStorable(c.views)
    ensures c.Valid() && |slots| == c.state.elementCount && Slotted(slots, c.views)
    ensures forall i :: 0 <= i < |slots| ==> C.SlotOk(slots[i])
  {
    assert Unfold(Topic.States, true);
    SlotsGiven(c.state);
    slots := [];
    for i := 0 to c.state.elementCount
      invariant c.Valid() && |slots| == i && Taken(c.state, c.views, slots)
      invariant forall i :: 0 <= i < |slots| ==> C.SlotOk(slots[i])
    {
      var slot := TakeSlot(c, i);
      slots := slots + [slot];
    }
    TakenAll(c.state, c.elems, c.views, slots);
  }

  // ----- loading -----

  /** The put of the loader is the put of the map classes. */
  lemma LoaderPutIsPut(each: seq<(int, int)>, k: int, v: int, long: bool)
    requires v != NULL_LONG && (long ==> LongLongMaps.OnePerKey(each))
    ensures EachContent(C.PutInto(MapKind(long), each, k, v), long) == AfterPut(EachContent(each, long), k, v)
  {
    if long {
      B.PutKeyIsPut(each, k, v);
    } else {
      assert Elements(C.PutPair(each, k, v)) == Elements(each) + {(k, v)};
    }
  }

  lemma NextPut(each: seq<(int, int)>, j: nat, long: bool)
    requires j < |each| && C.EachOk(MapKind(long), each)
    ensures AfterPut(EachContent(each[..j], long), each[j].0, each[j].1) == EachContent(each[..j + 1], long)
  {
    C.PutNext(MapKind(long), each, j);
    LoaderPutIsPut(each[..j], each[j].0, each[j].1, long);
  }

  ghost function EachContent(each: seq<(int, int)>, long: bool): Content {
    if long then Entries(each) else Pairs(Elements(each))
  }

  /** A map with the pairs of a text. */
  method MapOf(each: seq<(int, int)>, long: bool, hash: (int, int) -> int) returns (e: Elem, ghost v: View)
    requires C.EachOk(MapKind(long), each) && forall n: int :: n >= 1 ==> InRange(hash, n)
    ensures Sees(e, v) && v.ok && v.touched <= v.core && fresh(v.core) && v.content == EachContent(each, long)
    ensures e != Null && Suits(MapKind(long), e)
  {
    e, v := NewMap(long, |each|, hash);
    assert Elements([]) == {} && each[..0] == [];
    for j := 0 to |each|
      invariant Sees(e, v) && v.ok && v.touched <= v.core && fresh(v.core) && v.content == EachContent(each[..j], long)
    {
      NextPut(each, j, long);
      ghost var news;
      v, news := StateElems.PutInto(e, v, each[j].0, each[j].1);
    }
    assert each[..|each|] == each;
  }

  /** What load puts into a slot. */
  method ElemOf(x: Value, hash: (int, int) -> int) returns (e: Elem, ghost v: View)
    requires C.Savable(x) && forall n: int :: n >= 1 ==> InRange(hash, n)
    ensures Sees(e, v) && v.ok && v.touched <= v.core && fresh(v.core) && v.content == Read(x)
    ensures e != Null && Suits(KindOf(x), e)
  {
    if x.MapV? {
      e, v := MapOf(x.each, true, hash);
    } else if x.ArrayMapV? {
      e, v := MapOf(x.each, false, hash);
    } else {
      e, v := Plain(x), View(true, Held(x), {}, {});
      PlainView(e);
    }
  }

  /** The table's part of an insertion; the maps are apart from it. */
  method InsertApart(t: StateTable, key: int, kind: int, elem: Elem, ghost elems: map<int, Elem>,
                     ghost elems': map<int, Elem>, ghost views': map<int, View>)
    requires t.Valid() && FiledIn(t, elems) && t.elementCount < t.elementDataSize
    requires forall m :: !Has(t.ks, t.linked, m, key)
    requires elem != Null && Suits(kind, elem) && elems' == elems[key := elem] && Shown(elems', views')
    requires HandlesOf(elems') !! {t, t.elementV} + t.Links() && CoresOf(elems') !! {t, t.elementV} + t.Links()
    modifies t, t.elementV, t.Links()
    ensures t.Valid() && FiledIn(t, elems') && Shown(elems', views') && t.elementCount == old(t.elementCount) + 1
    ensures forall m, k :: Has(t.ks, t.linked, m, k) ==> if m == old(t.elementCount) then k == key
      else Has(old(t.ks), old(t.linked), m, k)
  {
    ghost var looks := t.Looks();
    FiledLooks(t, elems);
    assert allocated(HandlesOf(elems')) && allocated(CoresOf(elems'));
    t.Insert(key, kind, elem);
    FiledPut(t, looks, elems, key, kind, elem, true);
  }

  ghost predicate HasKey(done: seq<(int, Value)>, k: int) {
    exists x :: x in done && x.0 == k
  }

  /** The views are of these attributes. */
  ghost predicate Given(done: seq<(int, Value)>, views: map<int, View>) {
    && (forall x <- done :: x.0 in views && views[x.0].content == Read(x.1))
    && (forall k <- views :: HasKey(done, k))
  }

  ghost predicate Keyed(done: seq<(int, Value)>) {
    forall i, j :: 0 <= i < j < |done| ==> done[i].0 != done[j].0
  }

  lemma GivenMore(done: seq<(int, Value)>, views: map<int, View>, x: (int, Value), v: View)
    requires Given(done, views) && (forall y <- done :: y.0 != x.0) && v.content == Read(x.1)
    ensures Given(done + [x], views[x.0 := v]) && x.0 !in views
  {
    forall k | k in views[x.0 := v] ensures HasKey(done + [x], k) {
      if k == x.0 {
        assert x in done + [x];
      } else {
        var y :| y in done && y.0 == k;
        assert y in done + [x];
      }
    }
  }

  /** One more attribute. */
  method LoadSlot(t: StateTable, x: (int, Value), ghost elems: map<int, Elem>, ghost views: map<int, View>,
                  ghost done: seq<(int, Value)>, ghost table: set<object>)
    returns (ghost elems': map<int, Elem>, ghost views': map<int, View>, ghost news: set<object>)
    requires t.Valid() && FiledIn(t, elems) && Shown(elems, views) && Good(views, table)
    requires table == {t, t.elementV} + t.Links()
    requires t.elementCount < t.elementDataSize && (forall m, k :: Has(t.ks, t.linked, m, k) ==> HasKey(done, k))
    requires Given(done, views) && C.Savable(x.1) && forall y <- done :: y.0 != x.0
    modifies t, t.elementV, t.Links()
    ensures t.Valid() && FiledIn(t, elems') && Shown(elems', views') && Good(views', table)
    ensures t.elementCount == old(t.elementCount) + 1
    ensures Given(done + [x], views') && fresh(news) && Feet(views') <= Feet(views) + news
    ensures forall m, k :: Has(t.ks, t.linked, m, k) ==> HasKey(done + [x], k)
  {
    ghost var kind := KindOf(x.1);
    assert forall y <- done :: y in done + [x];
    var e, v := FreshElem(t, x, elems, views, table);
    elems', views', news := elems[x.0 := e], views[x.0 := v], v.touched;
    GivenMore(done, views, x, v);
    AssignedGood(elems, views, table, x.0, e, v);
    CoresApart(elems', views', table);
    InsertApart(t, x.0, KindOf(x.1), e, elems, elems', views');
  }

  method FreshElem(t: StateTable, x: (int, Value), ghost elems: map<int, Elem>, ghost views: map<int, View>,
                   ghost table: set<object>)
    returns (e: Elem, ghost v: View)
    requires t.Valid() && FiledIn(t, elems) && Shown(elems, views) && Good(views, table) && C.Savable(x.1)
    ensures t.Valid() && FiledIn(t, elems) && Shown(elems, views) && Sees(e, v) && Fit(v, table)
    ensures Single(views, x.0, v)
    ensures fresh(v.touched) && v.content == Read(x.1) && e != Null && Suits(KindOf(x.1), e)
  {
    assert allocated(HandlesOf(elems)) && allocated(CoresOf(elems)) && allocated(Body(views));
    e, v := ElemOf(x.1, t.hash);
    SingleNew(views, table, x.0, v, Body(views));
  }

  /** The attributes of a text, in an empty table. */
  method FillTable(t: StateTable, done: seq<(int, Value)>)
    returns (ghost elems: map<int, Elem>, ghost views: map<int, View>)
    requires t.Valid() && t.elementCount == 0 && |done| <= t.elementDataSize
    requires forall m, k :: !Has(t.ks, t.linked, m, k)
    requires FiledIn(t, map[]) && Keyed(done) && forall x <- done :: C.Savable(x.1)
    modifies t, t.elementV, t.Links()
    ensures t.Valid() && FiledIn(t, elems) && Shown(elems, views) && Good(views, {t, t.elementV} + t.Links())
    ensures t.elementCount == |done| && Given(done, views) && fresh(Feet(views))
  {
    ghost var table, news: set<object> := {t, t.elementV} + t.Links(), {};
    elems, views := map[], map[];
    NoneGood(table);
    for j := 0 to |done|
      invariant t.Valid() && FiledIn(t, elems) && Shown(elems, views) && Good(views, table) && t.elementCount == j
      invariant Given(done[..j], views) && fresh(news) && Feet(views) <= news
      invariant forall m, k :: Has(t.ks, t.linked, m, k) ==> HasKey(done[..j], k)
    {
      assert done[..j + 1] == done[..j] + [done[j]];
      ghost var more;
      elems, views, more := LoadSlot(t, done[j], elems, views, done[..j], table);
      news := news + more;
    }
    assert done[..|done|] == done;
  }

  lemma NothingFiled(t: StateTable)
    requires t.Valid() && forall k :: t.Look(k) == NoCell
    ensures FiledIn(t, map[])
  {
    forall k ensures Under(t.Look(k), map[], k) {
    }
  }

  method FilledTable(l: C.Loader, hash: (int, int) -> int)
    returns (t: StateTable, ghost elems: map<int, Elem>, ghost views: map<int, View>)
    requires forall n: int :: n >= 1 ==> InRange(hash, n)
    requires Keyed(l.done) && (forall x <- l.done :: C.Savable(x.1))
    requires (if l.first then l.done == [] else |l.done| <= l.number)
    ensures t.Valid() && FiledIn(t, elems) && Shown(elems, views) && Good(views, {t, t.elementV} + t.Links())
    ensures fresh({t, t.elementV} + t.Links() + Feet(views)) && Given(l.done, views)
    ensures t.elementCount == if l.first then 0 else l.number
    ensures t.elementDataSize == if l.first then 0 else if l.number == 0 then 1 else 2 * l.number
  {
    var size := if l.first then 0 else if l.number == 0 then 1 else l.number * 2;
    t := NewTable(size, hash);
    NothingFiled(t);
    elems, views := FillTable(t, l.done);
    if !l.first {
      Numbered(t, l.number, elems, views);
    }
  }

  /** What load makes of its variables: a table of twice the count that the text begins with, and none without
      an attribute. */
  method LoadTable(l: C.Loader, hash: (int, int) -> int) returns (c: StateChunk)
    requires forall n: int :: n >= 1 ==> InRange(hash, n)
    requires Keyed(l.done) && (forall x <- l.done :: C.Savable(x.1))
    requires (if l.first then l.done == [] else |l.done| <= l.number)
    ensures c.Valid() && fresh(c) && fresh(c.Foot()) && Given(l.done, c.views)
    ensures c.state.elementCount == if l.first then 0 else l.number
    ensures c.state.elementDataSize == if l.first then 0 else if l.number == 0 then 1 else 2 * l.number
  {
    var t, elems, views := FilledTable(l, hash);
    c := new StateChunk.On(t, elems, views);
    assert c.Foot() <= {c} + ({t, t.elementV} + t.Links() + Feet(views));
  }

  method Numbered(t: StateTable, number: nat, ghost elems: map<int, Elem>, ghost views: map<int, View>)
    requires t.Valid() && FiledIn(t, elems) && Shown(elems, views) && Good(views, {t, t.elementV} + t.Links())
    requires t.elementCount <= number <= t.elementDataSize
    modifies t`elementCount
    ensures t.Valid() && FiledIn(t, elems) && Shown(elems, views) && t.elementCount == number
  {
    CoresApart(elems, views, {t, t.elementV} + t.Links());
    assert allocated(HandlesOf(elems)) && allocated(CoresOf(elems));
    ghost var looks := t.Looks();
    FiledLooks(t, elems);
    t.Recount(number);
    FiledPut(t, looks, elems, 0, 0, Null, false);
  }

  // ----- there and back -----

  /** The attributes of the slots are the contents of the state. */
  lemma {:induction false} AttributesAre(slots: seq<C.Slot>)
    requires forall i :: 0 <= i < |slots| ==> C.SlotOk(slots[i])
    requires forall i, j :: 0 <= i < j < |slots| && slots[i].Attr? && slots[j].Attr? ==> slots[i].key != slots[j].key
    ensures var done := C.Attributes(slots);
      && Keyed(done) && |done| <= |slots| && (forall x <- done :: C.Savable(x.1))
      && (forall x :: x in done <==> InSlots(slots, x))
  {
    if slots != [] {
      AttributesAre(slots[1..]);
      var done, rest := C.Attributes(slots), C.Attributes(slots[1..]);
      forall x ensures x in done <==> InSlots(slots, x) {
        InRest(slots, x);
      }
      if slots[0].Attr? {
        forall x | x in rest ensures x.0 != slots[0].key {
          var i :| 0 <= i < |slots[1..]| && slots[1..][i] == C.Attr(x.0, x.1);
        }
      }
    }
  }

  ghost predicate InSlots(slots: seq<C.Slot>, x: (int, Value)) {
    C.Attr(x.0, x.1) in slots
  }

  lemma InRest(slots: seq<C.Slot>, x: (int, Value))
    requires slots != []
    ensures InSlots(slots, x) <==> slots[0] == C.Attr(x.0, x.1) || InSlots(slots[1..], x)
  {
  }

  lemma ReadBack(slots: seq<C.Slot>, views: map<int, View>, done: seq<(int, Value)>, views': map<int, View>, k: int)
    requires Slotted(slots, views) && Given(done, views') && forall x :: x in done <==> InSlots(slots, x)
    ensures k in views <==> k in views'
    ensures k in views ==> views'[k].content == views[k].content
  {
    if k in views' {
      assert HasKey(done, k);
      var x :| x in done && x.0 == k;
      assert InSlots(slots, x);
      var i :| 0 <= i < |slots| && slots[i] == C.Attr(x.0, x.1);
    }
    if k in views {
      var i :| 0 <= i < |slots| && slots[i].Attr? && slots[i].key == k;
      var x := (k, slots[i].value);
      assert InSlots(slots, x);
      assert x in done;
    }
  }

  lemma ReadAllBack(slots: seq<C.Slot>, views: map<int, View>, done: seq<(int, Value)>, views': map<int, View>)
    requires Slotted(slots, views) && Given(done, views') && forall x :: x in done <==> InSlots(slots, x)
    ensures views'.Keys == views.Keys && (forall k <- views :: views'[k].content == views[k].content)
    ensures done == [] <==> views == map[]
  {
    forall k ensures k in views <==> k in views' {
      ReadBack(slots, views, done, views', k);
    }
    forall k | k in views ensures views'[k].content == views[k].content {
      ReadBack(slots, views, done, views', k);
    }
    if done != [] {
      assert done[0] in done;
    } else {
      forall k ensures k !in views {
        assert k in views' ==> HasKey(done, k);
      }
    }
  }

  lemma HashFits(c: StateChunk)
    requires c.Valid()
    ensures forall n: int :: n >= 1 ==> InRange(c.state.hash, n)
  {
    assert Unfold(Topic.States, true);
  }

  /** A saved state comes back: what is loaded is in order, and under every key it reads as the saved state,
      pairs of maps included. */
  method SaveThenLoad(c: StateChunk) returns (loaded: StateChunk)
    requires c.Valid() && C.IsCount(c.state.elementCount) && AllStorable(c.views)
    ensures loaded.Valid() && fresh(loaded) && fresh(loaded.Foot()) && forall k :: loaded.Reading(k) == c.Reading(k)
    ensures loaded.state.elementCount == if c.views == map[] then 0 else c.state.elementCount
  {
    HashFits(c);
    ghost var views, count := c.views, c.state.elementCount;
    var slots := Collect(c);
    var l := B.SaveThenScan(slots);
    AttributesAre(slots);
    loaded := LoadTable(l, c.state.hash);
    ReadAllBack(slots, views, l.done, loaded.views);
  }
}
