/** HeapStateChunk: attributes in a hash table whose arrays a fork shares with its origin until it
    changes them, and maps whose states it shares until it puts into them. */
module StateChunks {
  import opened Hiding
  import opened Constants
  import opened LongLongArrayMaps
  import opened StateElems
  import opened Values
  import opened StateTables

  /** What is done to a state: a value or nothing under a key, a map for a key, a put into the map under a key. */
  datatype Change =
    | Set(key: int, kind: int, elem: Elem)
    | Obtain(key: int, long: bool)
    | Put(key: int, k: int, v: int)

  predicate AllAllowed(changes: seq<Change>) {
    forall c <- changes :: Allowed(c)
  }

  predicate Allowed(c: Change) {
    && (c.Set? ==> Suits(c.kind, c.elem) && (c.elem.Null? || c.elem.Plain?))
    && (c.Put? ==> c.v != NULL_LONG)
  }

  /** Whether getOrCreate gives a new map: what is read decides that, except that under a key without content it
      may find a slot of the type. */
  ghost predicate Decided(c: Change, before: Content, given: bool) {
    c.Obtain? && before != Nothing ==> (given <==> !IsMap(before, c.long))
  }

  /** What is read under the key of a change. */
  ghost function Changed(c: Change, before: Content, given: bool): Content {
    match c
    case Set(_, _, elem) => if elem.Plain? then Held(elem.value) else Nothing
    case Obtain(_, long) => if given then NewContent(long) else before
    case Put(_, k, v) => AfterPut(before, k, v)
  }

  class StateChunk {
    var state: StateTable
    ghost var elems: map<int, Elem>    // the contents that there are, by their keys
    ghost var views: map<int, View>    // and what is to be known about them

    /** The table is in order and has exactly these contents; the definition comes into play only where `Unfold`
        is mentioned. */
    ghost predicate Tied()
      reads this, state, state.elementK, state.elementV, state.elementNext, state.elementHash, state.elementType
    {
      forall b {:trigger Unfold(Topic.States, b)} :: Unfold(Topic.States, b) ==> state.Valid() && FiledIn(state, elems)
    }

    /** The objects of the table. */
    ghost function Table(): set<object>
      reads this
    {
      {this, state, state.elementV} + state.Links()
    }

    /** What a change may touch of the table: links, keys and types that are shared are not among it. */
    ghost function Own(): set<object>
      reads this
    {
      {state, state.elementV} + if state.hashReadOnly then {} else state.Links()
    }

    /** What a change may touch of the table and the maps. */
    ghost function Foot(): set<object>
      reads this
    {
      {this} + Own() + Feet(views)
    }

    /** The table is in order, and so are the maps: they are apart from the table, and what a put into one
        of them touches no other is read from. */
    ghost predicate Valid()
      reads this, state, state.elementK, state.elementV, state.elementNext, state.elementHash, state.elementType
      reads HandlesOf(elems), CoresOf(elems)
    {
      Tied() && Shown(elems, views) && Good(views, Table())
    }

    /** What is read under a key. */
    ghost function Reading(key: int): Content
      reads this
    {
      if key in views then views[key].content else Nothing
    }

    ghost function Readings(): (f: int -> Content)
      reads this
      ensures forall k :: f(k) == Reading(k)
    {
      var seen := views;
      k => if k in seen then seen[k].content else Nothing
    }

    /** A state without attributes. */
    constructor Empty(hash: (int, int) -> int)
      requires forall n: int :: n >= 1 ==> InRange(hash, n)
      ensures Valid() && fresh(Foot()) && forall k :: Reading(k) == Nothing
      ensures state.elementDataSize == 16
    {
      var table := NewTable(MAP_INITIAL_CAPACITY, hash);
      state, elems, views := table, map[], map[];
      new;
      NoneGood(Table());
    }

    /** A state on a table, with maps that are apart from it. */
    constructor On(table: StateTable, ghost elems: map<int, Elem>, ghost views: map<int, View>)
      requires table.Valid() && FiledIn(table, elems) && Shown(elems, views)
      requires Good(views, {table, table.elementV} + table.Links())
      ensures Valid() && state == table && this.elems == elems && this.views == views
    {
      state, this.elems, this.views := table, elems, views;
      assert allocated(HandlesOf(elems)) && allocated(CoresOf(elems)) && allocated(Body(views));
      new;
      GoodMore(views, {table, table.elementV} + table.Links(), Table(), {this}, Body(views));
    }

    /** A state that shares its origin's links, keys and types, and the states of its maps. */
    static method Fork(origin: StateChunk) returns (fork: StateChunk)
      requires origin.Valid()
      ensures fork.Valid() && fresh(fork) && fresh(fork.Foot()) && origin.Valid()
      ensures forall k :: fork.Reading(k) == origin.Reading(k)
    {
      assert allocated(HandlesOf(origin.elems)) && allocated(CoresOf(origin.elems));
      var table, elems, views := ForkTable(origin);
      fork := new StateChunk.On(table, elems, views);
      assert fork.Foot() <= {fork, table, table.elementV} + Feet(views);
    }

    /** What a caller of the state does. */
    method Apply(c: Change) returns (ghost given: bool, ghost news: set<object>)
      requires Valid() && Allowed(c)
      modifies this, Own(), Feet(views)
      ensures Valid() && fresh(news) && Foot() <= old(Foot()) + news && Decided(c, old(Reading(c.key)), given)
      ensures forall k :: Reading(k) == if k == c.key then Changed(c, old(Reading(k)), given) else old(Reading(k))
    {
      ghost var foot := Foot();
      given := true;
      if c.Set? {
        Set(c.key, c.kind, c.elem);
      } else if c.Obtain? {
        given := GetOrCreate(c.key, c.long);
      } else {
        PutAt(c.key, c.k, c.v);
      }
      news := Foot() - foot;
    }

    // ----- the table -----

    /** internal_set: without `replaceIfPresent` a slot of the right type keeps its content. */
    method Place(key: int, kind: int, elem: Elem, replaceIfPresent: bool, ghost v: View)
      returns (ghost given: bool, ghost news: set<object>)
      requires Tied() && Suits(kind, elem)
      modifies this, Own()
      ensures Tied() && fresh(news) && Own() <= old(Own()) + news && Table() <= old(Table()) + news
      ensures given == (replaceIfPresent || !old(state.Typed(key, kind)))
      ensures elems == (if given then Updated(old(elems), key, elem, elem) else old(elems))
      ensures views == if given then Updated(old(views), key, elem, v) else old(views)
    {
      assert Unfold(Topic.States, true);
      FiledLooks(state, elems);
      ghost var looks, elems0 := state.Looks(), elems;
      given := replaceIfPresent || !state.Typed(key, kind);
      if given {
        elems, views := Updated(elems, key, elem, elem), Updated(views, key, elem, v);
      }
      assert this !in Own();
      news := PutNews(key, kind, elem, replaceIfPresent);
      FiledPut(state, looks, elems0, key, kind, elem, given);
    }

    method PutNews(key: int, kind: int, elem: Elem, replaceIfPresent: bool) returns (ghost news: set<object>)
      requires state.Valid()
      modifies `state, Own()
      ensures state.Valid() && fresh(news) && Own() <= old(Own()) + news && Table() <= old(Table()) + news
      ensures var given := replaceIfPresent || !old(state.Typed(key, kind));
        forall k :: state.Look(k) == if k == key && given then CellOf(kind, elem) else old(state.Look(k))
    {
      ghost var own, table := Own(), Table();
      Put(key, kind, elem, replaceIfPresent);
      news := (Own() - own) + (Table() - table);
    }

    method Put(key: int, kind: int, elem: Elem, replaceIfPresent: bool)
      requires state.Valid()
      modifies `state, Own()
      ensures state.Valid()
      ensures state == old(state) || (fresh(state) && fresh(state.Links()) && !state.hashReadOnly)
      ensures state.elementV == old(state.elementV) || fresh(state.elementV)
      ensures var given := replaceIfPresent || !old(state.Typed(key, kind));
        forall k :: state.Look(k) == if k == key && given then CellOf(kind, elem) else old(state.Look(k))
    {
      var entry := state.Find(key);
      if entry == -1 {
        Add(key, kind, elem);
      } else {
        SameSlot(state, entry, key, kind);
        if replaceIfPresent || kind != state.elementType[entry] {
          Overwrite(entry, key, kind, elem);
        }
      }
    }

    /** A new slot, in arrays of the chunk's own. */
    method Add(key: int, kind: int, elem: Elem)
      requires state.Valid() && forall m :: !Has(state.ks, state.linked, m, key)
      modifies `state, Own()
      ensures state.Valid()
      ensures state == old(state) || (fresh(state) && fresh(state.Links()) && !state.hashReadOnly)
      ensures state.elementV == old(state.elementV) || fresh(state.elementV)
      ensures forall k :: state.Look(k) == if k == key then CellOf(kind, elem) else old(state.Look(k))
    {
      Prepare();
      state.Insert(key, kind, elem);
    }

    /** New content in a slot, and a new type when that differs. */
    method Overwrite(entry: int, ghost key: int, kind: int, elem: Elem)
      requires state.Valid() && Has(state.ks, state.linked, entry, key)
      modifies `state, Own()
      ensures state.Valid()
      ensures state == old(state) || (fresh(state) && fresh(state.Links()) && !state.hashReadOnly)
      ensures state.elementV == old(state.elementV) || fresh(state.elementV)
      ensures forall k :: state.Look(k) == if k == key then CellOf(kind, elem) else old(state.Look(k))
    {
      state.Replace(entry, key, elem);
      if state.elementType[entry] != kind {
        state := state.DeepClone();
        state.Retype(entry, key, kind);
      }
    }

    /** Makes room for one more slot in arrays of the chunk's own. */
    method Prepare()
      requires state.Valid()
      modifies `state
      ensures state.Valid() && !state.hashReadOnly
      ensures state == old(state) || (fresh(state) && fresh(state.Links()) && !state.hashReadOnly)
      ensures state.elementV == old(state.elementV) || fresh(state.elementV)
      ensures state.elementCount < state.elementDataSize && state.elementCount == old(state.elementCount)
      ensures state.elementDataSize == var size := old(state.elementDataSize);
        if 4 * (old(state.elementCount) + 1) <= 3 * size then size else if size == 0 then 1 else 2 * size
      ensures forall k :: state.Look(k) == old(state.Look(k))
      ensures forall m, key :: Has(state.ks, state.linked, m, key) ==> Has(old(state.ks), old(state.linked), m, key)
    {
      if 4 * (state.elementCount + 1) > 3 * state.elementDataSize {
        state := state.Grown();
      } else if state.hashReadOnly {
        state := state.DeepClone();
      }
    }

    // ----- what its readers and writers do -----

    method Look(key: int) returns (cell: Cell)
      requires Tied()
      ensures Tied() && Under(cell, elems, key) && (cell.Cell? ==> state.Typed(key, cell.kind))
    {
      assert Unfold(Topic.States, true);
      cell := state.Get(key);
      assert Unfold(Topic.Tables, true);
    }

    /** get: what is handed out is in order, and has the content that is read under the key. */
    method Get(key: int) returns (cell: Cell)
      requires Valid()
      ensures Valid() && (cell.NoCell? ==> Reading(key) == Nothing)
      ensures cell.Cell? ==> Ok(cell.elem) && ContentOf(cell.elem) == Reading(key) && Suits(cell.kind, cell.elem)
    {
      assert allocated(HandlesOf(elems)) && allocated(CoresOf(elems));
      cell := Look(key);
      if cell.Cell? {
        SeenOk(elems[key], views[key]);
        ViewGood(views, Table(), key);
      }
    }

    /** The table's part of an assignment; the maps are apart from it. */
    method PlaceApart(key: int, kind: int, elem: Elem, replaceIfPresent: bool, ghost v: View,
                      ghost elems': map<int, Elem>, ghost views': map<int, View>)
      returns (ghost given: bool, ghost news: set<object>)
      requires Tied() && Suits(kind, elem) && elems' == Updated(elems, key, elem, elem)
      requires views' == Updated(views, key, elem, v)
      requires Shown(elems, views) && HandlesOf(elems) !! Table() && CoresOf(elems) !! Table()
      requires Shown(elems', views') && HandlesOf(elems') !! Table() && CoresOf(elems') !! Table()
      modifies this, Own()
      ensures Tied() && fresh(news) && Own() <= old(Own()) + news && Table() <= old(Table()) + news
      ensures given == (replaceIfPresent || !old(state.Typed(key, kind)))
      ensures Shown(elems, views) && views == if given then views' else old(views)
    {
      assert allocated(HandlesOf(elems)) && allocated(CoresOf(elems)) && allocated(HandlesOf(elems'))
        && allocated(CoresOf(elems'));
      given, news := Place(key, kind, elem, replaceIfPresent, v);
    }

    /** internal_set: a new content under a key, except that without `replaceIfPresent` a slot of the right type
        keeps what it has. A map must be one of the chunk's own. */
    method Assign(key: int, kind: int, elem: Elem, replaceIfPresent: bool, ghost v: View)
      returns (ghost given: bool, ghost news: set<object>)
      requires Valid() && Suits(kind, elem) && Sees(elem, v) && Fit(v, Table()) && Single(views, key, v)
      modifies this, Own()
      ensures Valid() && fresh(news) && Foot() <= old(Foot()) + v.touched + news
      ensures given == (replaceIfPresent || !old(state.Typed(key, kind)))
      ensures forall k :: Reading(k) == if k == key && given then (if elem == Null then Nothing else v.content)
        else old(Reading(k))
    {
      ghost var elems', views' := Updated(elems, key, elem, elem), Updated(views, key, elem, v);
      AssignedGood(elems, views, Table(), key, elem, v);
      CoresApart(elems, views, Table());
      CoresApart(elems', views', Table());
      ghost var table := Table();
      assert allocated(Body(views)) && allocated(Body(views'));
      given, news := PlaceApart(key, kind, elem, replaceIfPresent, v, elems', views');
      GoodMore(views, table, Table(), news, Body(views));
    }

    /** set: a value that is never changed in place, or nothing. */
    method Set(key: int, kind: int, elem: Elem)
      requires Valid() && Suits(kind, elem) && (elem.Null? || elem.Plain?)
      modifies this, Own()
      ensures Valid() && fresh(Foot() - old(Foot()))
      ensures forall k :: Reading(k) == if k == key then (if elem.Null? then Nothing else Held(elem.value))
        else old(Reading(k))
    {
      PlainView(elem);
      var _, _ := Assign(key, kind, elem, true, View(true, if elem.Null? then Nothing else Held(elem.value), {}, {}));
    }

    /** What is read tells the type of the slot. */
    lemma ReadingTyped(key: int, long: bool)
      requires Valid() && Reading(key) != Nothing
      ensures |state.ks| == |state.ts| && (state.Typed(key, MapKind(long)) <==> IsMap(Reading(key), long))
    {
      assert Unfold(Topic.States, true) && Unfold(Topic.Tables, true) && Unfold(Topic.Elems, true);
      assert Under(state.Look(key), elems, key);
      var m :| Has(state.ks, state.linked, m, key) && state.es[m] != Null;
      SameSlot(state, m, key, MapKind(long));
      SeenKind(elems[key], views[key], state.ts[m], long);
    }

    /** getOrCreate: a map under a key that has no slot of its type. A slot of the type that has lost its content
        keeps that it has none. */
    method GetOrCreate(key: int, long: bool) returns (ghost given: bool)
      requires Valid()
      modifies this, Own()
      ensures Valid() && fresh(Foot() - old(Foot())) && given == !old(state.Typed(key, MapKind(long)))
      ensures forall k :: Reading(k) == if k == key && given then NewContent(long) else old(Reading(k))
      ensures old(Reading(key)) != Nothing ==> (given <==> !IsMap(old(Reading(key)), long))
    {
      if Reading(key) != Nothing {
        ReadingTyped(key, long);
      }
      var present := Present(key, MapKind(long));
      ghost var news: set<object> := {};
      given := false;
      if !present {
        given, news := Create(key, long);
      }
      assert Foot() <= old(Foot()) + news;
    }

    /** There is a content of a type under a key. */
    method Present(key: int, kind: int) returns (present: bool)
      requires Valid()
      ensures Valid() && Foot() == old(Foot()) && (present ==> state.Typed(key, kind))
    {
      assert allocated(HandlesOf(elems)) && allocated(CoresOf(elems));
      var cell := Look(key);
      present := cell.Cell? && cell.kind == kind;
    }

    /** internal_set of an empty map, without replacing a slot of the right type. */
    method Create(key: int, long: bool) returns (ghost given: bool, ghost news: set<object>)
      requires Valid()
      modifies this, Own()
      ensures Valid() && fresh(news) && Foot() <= old(Foot()) + news && given == !old(state.Typed(key, MapKind(long)))
      ensures forall k :: Reading(k) == if k == key && given then NewContent(long) else old(Reading(k))
    {
      var e, v := NewMapApart(key, long, Table() + Body(views));
      given, news := Assign(key, MapKind(long), e, false, v);
      news := v.touched + news;
    }

    method NewMapApart(ghost key: int, long: bool, ghost others: set<object>) returns (e: Elem, ghost v: View)
      requires Valid() && others == Table() + Body(views)
      ensures Valid() && Sees(e, v) && v.content == NewContent(long) && e != Null && Suits(MapKind(long), e)
      ensures fresh(v.touched) && Fit(v, Table()) && Single(views, key, v) && Foot() == old(Foot())
    {
      assert allocated(HandlesOf(elems)) && allocated(CoresOf(elems));
      assert Unfold(Topic.States, true);
      e, v := NewMap(long, MAP_INITIAL_CAPACITY, state.hash);
      assert v.core !! others;
      SingleNew(views, Table(), key, v, Body(views));
    }

    /** A put into the map under a key; what is no map is left alone. */
    method PutAt(key: int, k: int, v: int)
      requires Valid() && v != NULL_LONG
      modifies this`views, Feet(views)
      ensures Valid() && fresh(Foot() - old(Foot()))
      ensures forall x :: Reading(x) == if x == key then AfterPut(old(Reading(x)), k, v) else old(Reading(x))
    {
      assert allocated(HandlesOf(elems)) && allocated(CoresOf(elems));
      var cell := Look(key);
      if cell.Cell? {
        ghost var news := PutFound(key, cell.elem, k, v);
      }
    }

    method PutFound(key: int, elem: Elem, k: int, v: int) returns (ghost news: set<object>)
      requires Valid() && v != NULL_LONG && key in elems && elems[key] == elem
      modifies this`views, Feet(views)
      ensures Valid() && fresh(news) && Foot() <= old(Foot()) + news && key in old(views)
      ensures views.Keys == old(views).Keys && views == old(views)[key := views[key]]
      ensures views[key].content == AfterPut(old(views)[key].content, k, v)
    {
      ghost var now;
      now, news := PutBeside(key, elem, k, v, Table() + Body(views));
      Remember(views[key := now]);
    }

    method PutBeside(key: int, elem: Elem, k: int, v: int, ghost others: set<object>)
      returns (ghost now: View, ghost news: set<object>)
      requires Valid() && v != NULL_LONG && key in elems && elems[key] == elem && others == Table() + Body(views)
      modifies Feet(views)
      ensures views == old(views) && elems == old(elems) && state == old(state) && key in views && Tied() && fresh(news)
      ensures Shown(elems, views[key := now]) && Good(views[key := now], Table())
      ensures Feet(views[key := now]) <= Feet(views) + news && now.content == AfterPut(views[key].content, k, v)
    {
      PutApart(elems, views, Table(), key);
      assert allocated(HandlesOf(elems - {key})) && allocated(CoresOf(elems - {key}));
      now, news := PutInto(elem, views[key], k, v);
      assert news !! others;
      ShownBack(elems, views, key, now);
      GoodPut(views, Table(), key, now, news, Body(views));
    }

    ghost method Remember(views': map<int, View>)
      requires Tied() && Shown(elems, views') && Good(views', Table())
      modifies this`views
      ensures Valid() && views == views'
    {
      CoresApart(elems, views', Table());
      views := views';
    }
  }

  // ----- forks -----

  /** A fork of which some keys have been given maps of their own: it reads as before, and what a put into
      one of these maps touches is new, and no other is read from it; the definition comes into play only
      where `Unfold` is mentioned. */
  ghost predicate Forking(views: map<int, View>, views0: map<int, View>, done: set<int>, table: set<object>,
                          news: set<object>) {
    forall b {:trigger Unfold(Topic.Elems, b)} :: Unfold(Topic.Elems, b) ==>
      && views.Keys == views0.Keys
      && (forall k <- views :: views[k].content == views0[k].content && Fit(views[k], table))
      && (forall j, k :: j in done && j in views && k in views && j != k ==> views[j].touched !! views[k].core)
      && (forall k <- views :: k in done ==> views[k].touched <= news)
  }

  lemma ForkingNone(views: map<int, View>, table0: set<object>, table: set<object>)
    requires Good(views, table0) && table <= table0 + (table - Body(views))
    ensures Forking(views, views, {}, table, {})
  {
    assert Unfold(Topic.Elems, true);
    assert forall k <- views :: views[k].core <= Body(views);
  }

  lemma ForkingOne(views: map<int, View>, views0: map<int, View>, done: set<int>, table: set<object>,
                   news: set<object>, key: int, v: View)
    requires Forking(views, views0, done, table, news) && key in views && v.ok && v.content == views[key].content
    requires v.touched !! table + Body(views) && v.core <= v.touched + views[key].core && v.touched <= v.core
    ensures Forking(views[key := v], views0, done + {key}, table, news + v.touched)
  {
    assert Unfold(Topic.Elems, true);
    assert forall k <- views :: views[k].core <= Body(views);
  }

  lemma ForkingPlain(elems: map<int, Elem>, views: map<int, View>, views0: map<int, View>, done: set<int>,
                     table: set<object>, news: set<object>, key: int)
    requires Shown(elems, views) && Forking(views, views0, done, table, news)
    requires (key in elems ==> elems[key].Null? || elems[key].Plain?)
    ensures Forking(views, views0, done + {key}, table, news)
  {
    assert Unfold(Topic.Elems, true);
    assert key in views ==> Sees(elems[key], views[key]);
  }

  lemma ForkingFacts(elems: map<int, Elem>, views: map<int, View>, views0: map<int, View>, done: set<int>,
                     table: set<object>, news: set<object>)
    requires Shown(elems, views) && Forking(views, views0, done, table, news)
    ensures HandlesOf(elems) !! table && CoresOf(elems) !! table && forall k <- views :: views[k].ok
  {
    assert Unfold(Topic.Elems, true);
    forall k | k in elems ensures Core(elems[k]) == views[k].core && Handles(elems[k]) <= views[k].core {
      CoreIs(elems[k], views[k]);
    }
  }

  lemma ForkingAll(t: StateTable, elems: map<int, Elem>, views: map<int, View>, views0: map<int, View>, done: set<int>,
                   table: set<object>, news: set<object>)
    requires t.Valid() && FiledIn(t, elems) && elems.Keys == views.Keys && Forking(views, views0, done, table, news)
    requires |t.es| == |t.ks|
    requires forall m :: 0 <= m < t.elementCount && m < |t.es| && t.es[m] != Null ==> t.ks[m] in done
    ensures Good(views, table) && Feet(views) <= news && views.Keys == views0.Keys
    ensures forall k <- views :: views[k].content == views0[k].content
  {
    assert Unfold(Topic.Elems, true);
    SlotsGiven(t);
    FiledLooks(t, elems);
    forall k | k in views ensures k in done {
      assert Under(t.Looks()(k), elems, k);
      assert t.Look(k).Cell?;
      var m :| Has(t.ks, t.linked, m, k) && t.es[m] != Null;
    }
  }

  /** The content of a slot is under its key. */
  lemma SlotFiled(t: StateTable, elems: map<int, Elem>, i: nat)
    requires t.Valid() && FiledIn(t, elems) && i < t.elementCount
    ensures i < |t.es| == |t.ks| == t.elementV.Length && t.elementV[i] == t.es[i]
    ensures t.es[i] != Null ==> Has(t.ks, t.linked, i, t.ks[i]) && t.ks[i] in elems && elems[t.ks[i]] == t.es[i]
    ensures |t.ts| == |t.es| && t.elementType.Length == |t.ts| && t.elementType[i] == t.ts[i] && Suits(t.ts[i], t.es[i])
  {
    SlotsGiven(t);
    assert Unfold(Topic.Tables, true);
    assert t.elementV[..][i] == t.es[i] && t.elementType[..][i] == t.ts[i];
    if t.es[i] != Null {
      LookIs(t.ks, t.ts, t.es, t.ns, t.hs, t.hash, t.chains, t.linked, t.elementCount, t.ks[i], i);
      assert Under(t.Look(t.ks[i]), elems, t.ks[i]);
    }
  }

  /** A new content for a slot; the maps are apart from it. */
  method Refill(t: StateTable, i: nat, e: Elem, ghost elems: map<int, Elem>, ghost key: int,
                ghost elems': map<int, Elem>, ghost views': map<int, View>)
    requires t.Valid() && FiledIn(t, elems) && Has(t.ks, t.linked, i, key) && key in elems && e != Null
    requires elems' == elems[key := e]
    requires |t.ts| == |t.es| && i < |t.ts| && Suits(t.ts[i], e)
    requires Shown(elems', views') && HandlesOf(elems') !! {t, t.elementV} && CoresOf(elems') !! {t, t.elementV}
    modifies t`es, t.elementV
    ensures t.Valid() && FiledIn(t, elems') && t.es == old(t.es)[i := e] && Shown(elems', views')
  {
    ghost var looks := t.Looks();
    FiledLooks(t, elems);
    assert allocated(HandlesOf(elems')) && allocated(CoresOf(elems'));
    t.Replace(i, key, e);
    FiledPut(t, looks, elems, key, t.ts[i], e, true);
  }

  /** A map of its own for one key of a fork. */
  method ForkOne(elem: Elem, ghost key: int, ghost elems: map<int, Elem>, ghost views: map<int, View>,
                 ghost table: set<object>, ghost others: set<object>) returns (e: Elem, ghost v: View)
    requires Shown(elems, views) && HandlesOf(elems) !! table && CoresOf(elems) !! table && table <= others
    requires key in elems && elems[key] == elem && views[key].ok && elem != Null
    ensures key in views && Shown(elems[key := e], views[key := v]) && v.ok && v.content == views[key].content
    ensures e != Null
    ensures fresh(v.touched) && v.touched !! others && v.core <= v.touched + views[key].core && v.touched <= v.core
    ensures forall kind :: Suits(kind, elem) ==> Suits(kind, e)
    ensures HandlesOf(elems[key := e]) !! table && CoresOf(elems[key := e]) !! table
  {
    assert allocated(HandlesOf(elems)) && allocated(CoresOf(elems));
    CoreIs(elem, views[key]);
    e, v := ForkElem(elem, views[key]);
    ShownPut(elems, views, key, e, v);
    ApartPut(elems, key, e, v, table);
  }

  /** A map of its own for one slot of a fork. */
  method ForkSlot(t: StateTable, i: nat, ghost elems: map<int, Elem>, ghost views: map<int, View>,
                  ghost others: set<object>)
    returns (ghost key: int, ghost e: Elem, ghost v: View)
    requires t.Valid() && FiledIn(t, elems) && i < t.elementCount <= |t.es| && t.es[i] != Null
    requires {t, t.elementV} <= others
    requires Shown(elems, views) && HandlesOf(elems) !! {t, t.elementV} && CoresOf(elems) !! {t, t.elementV}
    requires forall k <- views :: views[k].ok
    modifies t`es, t.elementV
    ensures t.Valid() && FiledIn(t, elems[key := e]) && i < |t.ks| == |t.es| && key == t.ks[i]
    ensures t.es == old(t.es)[i := e] && e != Null
    ensures key in views && Shown(elems[key := e], views[key := v]) && v.ok && v.content == views[key].content
    ensures fresh(v.touched) && v.touched !! others && v.core <= v.touched + views[key].core && v.touched <= v.core
  {
    SlotFiled(t, elems, i);
    key := t.ks[i];
    var b;
    b, v := ForkOne(t.elementV[i], key, elems, views, {t, t.elementV}, others);
    e := b;
    Refill(t, i, b, elems, key, elems[key := e], views[key := v]);
  }

  /** A slot that has been seen to. */
  method ForkNext(t: StateTable, i: nat, ghost elems: map<int, Elem>, ghost views: map<int, View>,
                  ghost views0: map<int, View>, ghost done: set<int>, ghost table: set<object>, ghost news: set<object>)
    returns (ghost elems': map<int, Elem>, ghost views': map<int, View>, ghost news': set<object>)
    requires t.Valid() && FiledIn(t, elems) && Shown(elems, views) && Forking(views, views0, done, table, news)
    requires {t, t.elementV} <= table
    requires i < t.elementCount <= |t.es| == |t.ks|
    modifies t`es, t.elementV
    ensures t.Valid() && FiledIn(t, elems') && Shown(elems', views') && |t.es| == |t.ks| && news <= news'
    ensures fresh(news' - news)
    ensures Forking(views', views0, done + if t.es[i] == Null then {} else {t.ks[i]}, table, news')
    ensures |t.es| == |old(t.es)| && forall m :: 0 <= m < |t.es| && t.es[m] != Null ==> old(t.es)[m] != Null
  {
    SlotFiled(t, elems, i);
    ForkingFacts(elems, views, views0, done, table, news);
    elems', views', news' := elems, views, news;
    if t.elementType[i] in {LONG_LONG_MAP, LONG_LONG_ARRAY_MAP} && t.elementV[i] != Null {
      ghost var key, e, v := ForkSlot(t, i, elems, views, table + Body(views));
      ForkingOne(views, views0, done, table, news, key, v);
      elems', views', news' := elems[key := e], views[key := v], news + v.touched;
    } else if t.elementV[i] != Null {
      ForkingPlain(elems, views, views0, done, table, news, t.ks[i]);
    }
  }

  /** Maps of a fork's own, slot by slot. */
  method ForkMaps(t: StateTable, ghost elems0: map<int, Elem>, ghost views0: map<int, View>, ghost table: set<object>)
    returns (ghost elems: map<int, Elem>, ghost views: map<int, View>)
    requires t.Valid() && FiledIn(t, elems0) && Shown(elems0, views0) && Forking(views0, views0, {}, table, {})
    requires {t, t.elementV} <= table
    modifies t`es, t.elementV
    ensures t.Valid() && FiledIn(t, elems) && Shown(elems, views) && Good(views, table) && fresh(Feet(views))
    ensures views.Keys == views0.Keys
    ensures forall k <- views :: views[k].content == views0[k].content
  {
    elems, views := elems0, views0;
    ghost var done: set<int>, news: set<object> := {}, {};
    SlotsGiven(t);
    for i := 0 to t.elementCount
      invariant t.Valid() && FiledIn(t, elems) && Shown(elems, views) && Forking(views, views0, done, table, news)
      invariant fresh(news)
      invariant t.elementCount <= |t.es| == |t.ks|
      invariant forall m :: 0 <= m < i && t.es[m] != Null ==> t.ks[m] in done
    {
      elems, views, news := ForkNext(t, i, elems, views, views0, done, table, news);
      done := done + if t.es[i] == Null then {} else {t.ks[i]};
    }
    ForkingAll(t, elems, views, views0, done, table, news);
  }

  /** A table that shares its origin's links, keys and types. */
  method CloneApart(origin: StateChunk) returns (t: StateTable)
    requires origin.Valid()
    ensures t.Valid() && FiledIn(t, origin.elems) && Shown(origin.elems, origin.views)
    ensures t.hashReadOnly && fresh(t) && fresh(t.elementV) && t.Links() == origin.state.Links()
  {
    assert allocated(HandlesOf(origin.elems)) && allocated(CoresOf(origin.elems));
    assert Unfold(Topic.States, true);
    t := origin.state.SoftClone();
    FiledSame(origin.state, t, origin.elems);
  }

  /** A table for a fork, with the maps of its own. */
  method ForkTable(origin: StateChunk) returns (t: StateTable, ghost elems: map<int, Elem>, ghost views: map<int, View>)
    requires origin.Valid()
    ensures t.Valid() && t.hashReadOnly && fresh(t) && fresh(t.elementV) && fresh(Feet(views)) && FiledIn(t, elems)
    ensures Shown(elems, views)
    ensures Good(views, {t, t.elementV} + t.Links())
    ensures views.Keys == origin.views.Keys && forall k <- views :: views[k].content == origin.views[k].content
  {
    ghost var table0, views0, body := origin.Table(), origin.views, Body(origin.views);
    t := CloneApart(origin);
    ghost var table := {t, t.elementV} + t.Links();
    assert allocated(body);
    assert table <= table0 + (table - body);
    ForkingNone(views0, table0, table);
    elems, views := ForkMaps(t, origin.elems, views0, table);
  }

  lemma FiledSame(t: StateTable, t': StateTable, elems: map<int, Elem>)
    requires FiledIn(t, elems) && t'.ks == t.ks && t'.ts == t.ts && t'.es == t.es && t'.linked == t.linked
    ensures FiledIn(t', elems)
  {
    assert Unfold(Topic.Tables, true);
    forall k ensures Under(t'.Look(k), elems, k) {
      assert Under(t.Look(k), elems, k);
    }
  }

  /** `Filed`, for callers to pass on. */
  ghost predicate FiledIn(t: StateTable, elems: map<int, Elem>)
    reads t
  {
    forall b {:trigger Unfold(Topic.Tables, b)} :: Unfold(Topic.Tables, b) ==> Filed(t, elems)
  }

  lemma FiledLooks(t: StateTable, elems: map<int, Elem>)
    requires FiledIn(t, elems)
    ensures |t.ks| == |t.ts| == |t.es|
    ensures forall k :: Under(t.Looks()(k), elems, k)
  {
    assert Unfold(Topic.Tables, true);
  }

  lemma FiledPut(t: StateTable, looks: int -> Cell, elems: map<int, Elem>, key: int, kind: int, elem: Elem, given: bool)
    requires t.Valid() && (given ==> Suits(kind, elem)) && forall k :: Under(looks(k), elems, k)
    requires forall k :: t.Look(k) == if k == key && given then CellOf(kind, elem) else looks(k)
    ensures FiledIn(t, if given then Updated(elems, key, elem, elem) else elems)
  {
    forall k ensures Under(t.Look(k), if given then Updated(elems, key, elem, elem) else elems, k) {
      assert Under(looks(k), elems, k);
    }
  }

  /** What a table has under a key. */
  ghost predicate Under(cell: Cell, elems: map<int, Elem>, key: int) {
    if cell.Cell? then key in elems && elems[key] == cell.elem && Suits(cell.kind, cell.elem) else key !in elems
  }

  /** The contents of a table by their keys. */
  ghost predicate Filed(t: StateTable, elems: map<int, Elem>)
    reads t
  {
    |t.ks| == |t.ts| == |t.es| && forall k :: Under(t.Look(k), elems, k)
  }

  // ----- forks that are changed and forked again -----

  /** What is read under a key after some changes. */
  ghost function After(changes: seq<Change>, givens: seq<bool>, key: int, before: Content): Content
    requires |changes| == |givens|
  {
    if changes == [] then before
    else
      var n := |changes| - 1;
      var c := After(changes[..n], givens[..n], key, before);
      if key == changes[n].key then Changed(changes[n], c, givens[n]) else c
  }

  /** One more change. */
  lemma AfterMore(changes: seq<Change>, givens: seq<bool>, n: nat, given: bool, key: int, before: Content)
    requires n < |changes| && |givens| == n
    ensures var c := After(changes[..n], givens, key, before);
      After(changes[..n + 1], givens + [given], key, before) == if key == changes[n].key
        then Changed(changes[n], c, given) else c
  {
    assert changes[..n + 1][..n] == changes[..n] && (givens + [given])[..n] == givens;
  }

  /** The decisions of getOrCreate, by what is read when it is called. */
  ghost predicate AllDecided(changes: seq<Change>, givens: seq<bool>, before: int -> Content) {
    && |changes| == |givens|
    && forall i :: 0 <= i < |changes| ==>
         Decided(changes[i], After(changes[..i], givens[..i], changes[i].key, before(changes[i].key)), givens[i])
  }

  lemma DecidedMore(changes: seq<Change>, givens: seq<bool>, before: int -> Content, n: nat, given: bool)
    requires n < |changes| && AllDecided(changes[..n], givens, before)
    requires Decided(changes[n], After(changes[..n], givens, changes[n].key, before(changes[n].key)), given)
    ensures AllDecided(changes[..n + 1], givens + [given], before)
  {
    var cs, gs := changes[..n + 1], givens + [given];
    forall i | 0 <= i < |cs| ensures Decided(cs[i], After(cs[..i], gs[..i], cs[i].key, before(cs[i].key)), gs[i]) {
      assert cs[..i] == changes[..i] && gs[..i] == givens[..i];
      if i < n {
        assert changes[..n][i] == cs[i] && changes[..n][..i] == cs[..i];
      }
    }
  }

  method ChangeAll(fork: StateChunk, changes: seq<Change>, ghost before: int -> Content)
    returns (ghost givens: seq<bool>, ghost news: set<object>)
    requires fork.Valid() && AllAllowed(changes) && forall k :: before(k) == fork.Reading(k)
    modifies fork.Foot()
    ensures fork.Valid() && fresh(news) && fork.Foot() <= old(fork.Foot()) + news && AllDecided(changes, givens, before)
    ensures forall k :: fork.Reading(k) == After(changes, givens, k, before(k))
  {
    givens, news := [], {};
    for n := 0 to |changes|
      invariant fork.Valid() && fresh(news) && fork.Foot() <= old(fork.Foot()) + news
      invariant AllDecided(changes[..n], givens, before)
      invariant forall k :: fork.Reading(k) == After(changes[..n], givens, k, before(k))
    {
      ghost var given, more := fork.Apply(changes[n]);
      DecidedMore(changes, givens, before, n, given);
      forall k {
        AfterMore(changes, givens, n, given, k, before(k));
      }
      givens, news := givens + [given], news + more;
    }
    assert changes[..|changes|] == changes;
  }

  method ForkChanged(origin: StateChunk, changes: seq<Change>) returns (fork: StateChunk, ghost givens: seq<bool>)
    requires origin.Valid() && AllAllowed(changes)
    ensures fork.Valid() && fresh(fork) && fresh(fork.Foot())
    ensures AllDecided(changes, givens, old(origin.Readings()))
    ensures forall k :: fork.Reading(k) == After(changes, givens, k, old(origin.Reading(k)))
  {
    ghost var before := origin.Readings();
    fork := StateChunk.Fork(origin);
    ghost var foot, news := fork.Foot(), {};
    givens, news := ChangeAll(fork, changes, before);
    assert fork.Foot() <= foot + news;
  }

  /** A fork that is changed in any way reads as its origin did with these changes, and its origin reads as
      before. */
  method ChangeFork(origin: StateChunk, changes: seq<Change>) returns (fork: StateChunk, ghost givens: seq<bool>)
    requires origin.Valid() && AllAllowed(changes)
    ensures fork.Valid() && fresh(fork) && fresh(fork.Foot()) && origin.Valid()
    ensures AllDecided(changes, givens, origin.Readings())
    ensures forall k :: fork.Reading(k) == After(changes, givens, k, origin.Reading(k))
  {
    assert allocated(HandlesOf(origin.elems)) && allocated(CoresOf(origin.elems));
    fork, givens := ForkChanged(origin, changes);
  }

  /** State i + 1 of a chain reads as state i with its own changes. */
  ghost predicate Linked(chain: seq<StateChunk>, rounds: seq<seq<Change>>, givens: seq<seq<bool>>, i: nat)
    requires |chain| == |rounds| + 1 == |givens| + 1 && i < |rounds|
    reads chain
  {
    && AllDecided(rounds[i], givens[i], chain[i].Readings())
    && forall k :: chain[i + 1].Reading(k) == After(rounds[i], givens[i], k, chain[i].Reading(k))
  }

  lemma LinkedMore(chain: seq<StateChunk>, rounds: seq<seq<Change>>, givens: seq<seq<bool>>, origin: StateChunk,
                   first: seq<bool>)
    requires |chain| == |rounds| == |givens| + 1
    requires forall i :: 0 <= i < |givens| ==> Linked(chain, rounds[1..], givens, i)
    requires AllDecided(rounds[0], first, origin.Readings())
    requires forall k :: chain[0].Reading(k) == After(rounds[0], first, k, origin.Reading(k))
    ensures forall i :: 0 <= i < |rounds| ==> Linked([origin] + chain, rounds, [first] + givens, i)
  {
    forall i | 0 <= i < |rounds| ensures Linked([origin] + chain, rounds, [first] + givens, i) {
      if i > 0 {
        assert Linked(chain, rounds[1..], givens, i - 1);
      }
    }
  }

  /** However often the newest fork is changed and forked again, in the end every state of the chain is in order
      and reads as its origin with its own changes: no change has reached an earlier state. */
  method Chain(origin: StateChunk, rounds: seq<seq<Change>>)
    returns (chain: seq<StateChunk>, ghost givens: seq<seq<bool>>)
    requires origin.Valid() && forall r <- rounds :: AllAllowed(r)
    ensures |chain| == |rounds| + 1 == |givens| + 1 && chain[0] == origin
    ensures forall c <- chain :: c.Valid()
    ensures forall i :: 0 <= i < |rounds| ==> Linked(chain, rounds, givens, i)
    decreases |rounds|
  {
    if rounds == [] {
      return [origin], [];
    }
    assert allocated(HandlesOf(origin.elems)) && allocated(CoresOf(origin.elems));
    ghost var first;
    var fork;
    fork, first := ChangeFork(origin, rounds[0]);
    chain, givens := Chain(fork, rounds[1..]);
    LinkedMore(chain, rounds, givens, origin, first);
    chain, givens := [origin] + chain, [first] + givens;
  }
}
