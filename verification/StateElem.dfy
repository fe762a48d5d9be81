/** What a slot of a state holds, and what its reader sees of that. */
module StateElems {
  import opened Hiding
  import opened Constants
  import opened Values
  import LongLongArrayMaps
  import LongLongMaps

  type ArrayMap = LongLongArrayMaps.LongLongArrayMap
  type LongMap = LongLongMaps.LongLongMap

  /** What an attribute's slot holds: nothing, a value that is never changed in place, or a map. */
  datatype Elem = Null | Plain(value: Value) | MapRef(m: ArrayMap) | LongRef(l: LongMap)

  /** The type of a slot says what it holds. */
  predicate Suits(kind: int, e: Elem) {
    match e
    case Null => true
    case Plain(v) => kind == KindOf(v) && kind != LONG_LONG_MAP && kind != LONG_LONG_ARRAY_MAP
    case MapRef(_) => kind == LONG_LONG_ARRAY_MAP
    case LongRef(_) => kind == LONG_LONG_MAP
  }

  /** What is read of it: of a map its pairs, of a long-to-long map in the order in which its keys came. */
  datatype Content = Nothing | Held(value: Value) | Pairs(pairs: set<(int, int)>) | Entries(each: seq<(int, int)>)

  function Handles(e: Elem): set<object> {
    match e
    case MapRef(m) => {m}
    case LongRef(l) => {l}
    case _ => {}
  }

  /** The objects that a reader of a map visits. */
  ghost function Core(e: Elem): set<object>
    reads Handles(e)
  {
    match e
    case MapRef(m) => {m, m.state} + m.state.Arrays()
    case LongRef(l) => {l, l.state} + l.state.Arrays()
    case _ => {}
  }

  /** The objects that a put into a map may touch: a shared state is not among them. */
  ghost function Touched(e: Elem): (t: set<object>)
    reads Handles(e)
    ensures t <= Core(e)
  {
    match e
    case MapRef(m) => {m} + m.Own()
    case LongRef(l) => {l} + l.Own()
    case _ => {}
  }

  ghost predicate Ok(e: Elem)
    reads Handles(e), Core(e)
  {
    match e
    case MapRef(m) => m.Valid()
    case LongRef(l) => l.Valid()
    case _ => true
  }

  ghost function ContentOf(e: Elem): Content
    requires Ok(e)
    reads Handles(e), Core(e)
  {
    match e
    case Null => Nothing
    case Plain(v) => Held(v)
    case MapRef(m) => Pairs(m.Contents())
    case LongRef(l) => Entries(l.Pairs())
  }

  /** A put as the reader sees it; what is no map is left alone. */
  ghost function AfterPut(c: Content, k: int, v: int): Content {
    match c
    case Pairs(pairs) => Pairs(pairs + {(k, v)})
    case Entries(each) => Entries(LongLongMaps.After(each, k, v))
    case _ => c
  }

  /** All there is to know about what a slot holds: what is read, from which objects, and which of them a
      put may touch. */
  datatype View = View(ok: bool, content: Content, core: set<object>, touched: set<object>)

  ghost function ViewOf(e: Elem): View
    reads Handles(e), Core(e)
  {
    View(Ok(e), if Ok(e) then ContentOf(e) else Nothing, Core(e), Touched(e))
  }

  /** `ViewOf`, for callers to pass on: its definition comes into play only where `Unfold` is mentioned. */
  ghost predicate Sees(e: Elem, v: View)
    reads Handles(e), Core(e)
  {
    forall b {:trigger Unfold(Topic.Elems, b)} :: Unfold(Topic.Elems, b) ==> v == ViewOf(e)
  }

  /** A view of something that a table may hold. */
  ghost predicate Fit(v: View, table: set<object>) {
    v.ok && v.touched <= v.core && v.core !! table
  }

  lemma PlainView(e: Elem)
    requires e.Null? || e.Plain?
    ensures Sees(e, View(true, if e.Null? then Nothing else Held(e.value), {}, {}))
  {
  }

  method PutInto(e: Elem, ghost seen: View, k: int, v: int) returns (ghost now: View, ghost news: set<object>)
    requires Sees(e, seen) && seen.ok && v != NULL_LONG
    modifies seen.touched
    ensures Sees(e, now) && now.ok && now.touched <= now.core && now.content == AfterPut(seen.content, k, v)
    ensures fresh(news) && now.core <= seen.core + news && now.touched <= seen.touched + news
  {
    assert Unfold(Topic.Elems, true);
    if e.MapRef? {
      var _ := e.m.Put(k, v);
    } else if e.LongRef? {
      e.l.Put(k, v);
    }
    now := ViewOf(e);
    news := (now.core - seen.core) + (now.touched - seen.touched);
  }

  /** The content of a fork's slot: a map of its own, on the state of the origin's map. */
  method ForkElem(e: Elem, ghost seen: View) returns (b: Elem, ghost v: View)
    requires Sees(e, seen) && seen.ok
    ensures Sees(b, v) && v.ok && v.content == seen.content && (b == Null <==> e == Null)
    ensures forall kind :: Suits(kind, e) ==> Suits(kind, b)
    ensures fresh(v.touched) && v.core <= v.touched + seen.core && v.touched <= v.core
  {
    assert Unfold(Topic.Elems, true);
    b := e;
    if e.MapRef? {
      var own := new LongLongArrayMaps.LongLongArrayMap.Fork(e.m);
      b := MapRef(own);
    } else if e.LongRef? {
      var own := new LongLongMaps.LongLongMap.Fork(e.l);
      b := LongRef(own);
    }
    v := ViewOf(b);
  }

  function MapKind(long: bool): int {
    if long then LONG_LONG_MAP else LONG_LONG_ARRAY_MAP
  }

  function NewContent(long: bool): Content {
    if long then Entries([]) else Pairs({})
  }

  ghost predicate IsMap(c: Content, long: bool) {
    if long then c.Entries? else c.Pairs?
  }

  /** An empty map. */
  method NewMap(long: bool, initialCapacity: nat, hash: (int, int) -> int) returns (e: Elem, ghost v: View)
    requires initialCapacity >= 1 && forall n: int :: n >= 1 ==> LongLongArrayMaps.InRange(hash, n)
    ensures Sees(e, v) && v.ok && v.content == NewContent(long) && e != Null && Suits(MapKind(long), e)
    ensures fresh(v.core) && v.touched <= v.core
  {
    if long {
      var l := new LongLongMaps.LongLongMap(initialCapacity, hash);
      e := LongRef(l);
    } else {
      var m := new LongLongArrayMaps.LongLongArrayMap(initialCapacity, hash);
      e := MapRef(m);
    }
    v := ViewOf(e);
  }

  // ----- the contents of a whole table -----

  /** The views fit the table, and what a put into one of them touches no other is read from; the
      definition comes into play only where `Unfold` is mentioned. */
  ghost predicate Good(views: map<int, View>, table: set<object>) {
    forall b {:trigger Unfold(Topic.Elems, b)} :: Unfold(Topic.Elems, b) ==>
      && (forall k <- views :: Fit(views[k], table))
      && (forall j, k :: j in views && k in views && j != k ==> views[j].touched !! views[k].core)
  }

  /** What puts into the contents may touch, and what they are read from. */
  ghost function Feet(views: map<int, View>): set<object> {
    set k, o | k in views && o in views[k].touched :: o
  }

  ghost function Body(views: map<int, View>): set<object> {
    set k, o | k in views && o in views[k].core :: o
  }

  /** A view apart from all the others. */
  ghost predicate Single(views: map<int, View>, key: int, v: View) {
    forall k <- views :: k != key ==> v.touched !! views[k].core && views[k].touched !! v.core
  }

  lemma NoneGood(table: set<object>)
    ensures Good(map[], table) && Feet(map[]) == {} && Body(map[]) == {}
  {
  }

  /** One content is another. */
  lemma GoodAssigned(views: map<int, View>, table: set<object>, key: int, v: View)
    requires Good(views, table) && Fit(v, table) && Single(views, key, v)
    ensures Good(views[key := v], table) && Feet(views[key := v]) <= Feet(views) + v.touched
    ensures Good(views - {key}, table) && Feet(views - {key}) <= Feet(views)
  {
    assert Unfold(Topic.Elems, true);
  }

  /** A table with some new objects. */
  lemma GoodMore(views: map<int, View>, table: set<object>, table': set<object>, news: set<object>, body: set<object>)
    requires Good(views, table) && table' <= table + news && body == Body(views) && news !! body
    ensures Good(views, table')
  {
    assert Unfold(Topic.Elems, true);
    forall k | k in views ensures views[k].core <= body {
    }
  }

  /** A put into one content. */
  lemma GoodPut(views: map<int, View>, table: set<object>, key: int, now: View, news: set<object>, body: set<object>)
    requires Good(views, table) && key in views && now.ok && now.touched <= now.core
    requires now.core <= views[key].core + news && now.touched <= views[key].touched + news && news !! table
    requires news !! body && body == Body(views)
    ensures Good(views[key := now], table) && Feet(views[key := now]) <= Feet(views) + news
  {
    assert Unfold(Topic.Elems, true);
    forall k | k in views ensures views[k].core <= body {
    }
  }

  /** What a put into one content touches is apart from the table and the other contents. */
  lemma PutApart(elems: map<int, Elem>, views: map<int, View>, table: set<object>, key: int)
    requires Shown(elems, views) && Good(views, table) && key in views
    ensures views[key].ok && views[key].touched !! table && views[key].touched <= Feet(views)
    ensures Shown(elems - {key}, views - {key})
    ensures HandlesOf(elems - {key}) !! views[key].touched && CoresOf(elems - {key}) !! views[key].touched
  {
    assert Unfold(Topic.Elems, true);
    forall k | k in elems && k != key ensures Core(elems[k]) == views[k].core && Handles(elems[k]) <= views[k].core {
      CoreIs(elems[k], views[k]);
    }
  }

  ghost function HandlesOf(elems: map<int, Elem>): set<object> {
    set k, o | k in elems && o in Handles(elems[k]) :: o
  }

  ghost function CoresOf(elems: map<int, Elem>): set<object>
    reads HandlesOf(elems)
  {
    set k, o | k in elems && o in Core(elems[k]) :: o
  }

  /** The views are those of the contents. */
  ghost predicate Shown(elems: map<int, Elem>, views: map<int, View>)
    reads HandlesOf(elems), CoresOf(elems)
  {
    elems.Keys == views.Keys && forall k <- elems :: Sees(elems[k], views[k])
  }

  lemma SeenOk(e: Elem, v: View)
    requires Sees(e, v)
    ensures v.ok <==> Ok(e)
    ensures Ok(e) ==> ContentOf(e) == v.content
  {
    assert Unfold(Topic.Elems, true);
  }

  lemma ViewGood(views: map<int, View>, table: set<object>, key: int)
    requires Good(views, table) && key in views
    ensures views[key].ok
  {
    assert Unfold(Topic.Elems, true);
  }

  /** What is seen tells the type. */
  lemma SeenKind(e: Elem, v: View, kind: int, long: bool)
    requires Sees(e, v) && v.ok && Suits(kind, e) && e != Null
    ensures IsMap(v.content, long) <==> kind == MapKind(long)
  {
    assert Unfold(Topic.Elems, true);
  }

  /** The objects of what is seen, for a change that happens elsewhere. */
  lemma CoreIs(e: Elem, v: View)
    requires Sees(e, v)
    ensures Core(e) == v.core && Handles(e) <= v.core
  {
    assert Unfold(Topic.Elems, true);
  }

  lemma CoresApart(elems: map<int, Elem>, views: map<int, View>, table: set<object>)
    requires Shown(elems, views) && Good(views, table)
    ensures HandlesOf(elems) !! table && CoresOf(elems) !! table
  {
    assert Unfold(Topic.Elems, true);
    forall k | k in elems ensures Core(elems[k]) == views[k].core && Handles(elems[k]) <= views[k].core {
      CoreIs(elems[k], views[k]);
    }
  }

  /** One more content apart from a table. */
  lemma ApartPut(elems: map<int, Elem>, key: int, e: Elem, v: View, table: set<object>)
    requires HandlesOf(elems) !! table && CoresOf(elems) !! table && Sees(e, v) && v.core !! table
    ensures HandlesOf(elems[key := e]) !! table && CoresOf(elems[key := e]) !! table
  {
    CoreIs(e, v);
    assert HandlesOf(elems[key := e]) <= HandlesOf(elems) + Handles(e);
    assert CoresOf(elems[key := e]) <= CoresOf(elems) + Core(e);
  }

  lemma ShownPut(elems: map<int, Elem>, views: map<int, View>, key: int, e: Elem, v: View)
    requires elems.Keys == views.Keys && forall k <- elems :: k != key ==> Sees(elems[k], views[k])
    requires Sees(e, v)
    ensures Shown(elems[key := e], views[key := v]) && Shown(elems - {key}, views - {key})
  {
    assert forall k <- elems[key := e] :: k == key || k in elems;
  }

  function Updated<T>(m: map<int, T>, key: int, e: Elem, x: T): map<int, T> {
    if e == Null then m - {key} else m[key := x]
  }

  /** What an assignment leaves behind. */
  lemma AssignedGood(elems: map<int, Elem>, views: map<int, View>, table: set<object>, key: int, e: Elem, v: View)
    requires Shown(elems, views) && Good(views, table) && Sees(e, v) && Fit(v, table) && Single(views, key, v)
    ensures Shown(Updated(elems, key, e, e), Updated(views, key, e, v)) && Good(Updated(views, key, e, v), table)
    ensures Feet(Updated(views, key, e, v)) <= Feet(views) + v.touched
  {
    ShownPut(elems, views, key, e, v);
    GoodAssigned(views, table, key, v);
  }

  lemma ShownBack(elems: map<int, Elem>, views: map<int, View>, key: int, now: View)
    requires Shown(elems - {key}, views - {key}) && elems.Keys == views.Keys && key in elems && Sees(elems[key], now)
    ensures Shown(elems, views[key := now])
  {
    forall k | k in elems ensures Sees(elems[k], views[key := now][k]) {
      if k != key {
        assert (elems - {key})[k] == elems[k] && (views - {key})[k] == views[k];
      }
    }
  }

  /** A content whose objects are all new. */
  lemma SingleNew(views: map<int, View>, table: set<object>, key: int, v: View, body: set<object>)
    requires body == Body(views) && v.core !! body && v.touched <= v.core && Good(views, table)
    ensures Single(views, key, v)
  {
    assert Unfold(Topic.Elems, true);
    forall k | k in views ensures views[k].core <= body {
    }
  }
}
