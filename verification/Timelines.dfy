/** The history of one node over all worlds: what a write does to it, and what every read of it answers. */
module Timelines {
  import opened Hiding
  import opened Constants
  import opened TimeLine
  import opened Worlds
  import opened TimeIndex

  /** The chunks of a node in one world: its time trees, the magics of those, and the states by time. */
  datatype History = History(index: Index, superMagic: nat, treeMagics: map<int, nat>, contents: map<int, int>)

  datatype Timeline = Timeline(forest: Forest, order: map<int, int>, orderMagic: nat, worlds: map<int, History>)

  datatype Place = Place(world: int, superTime: int, time: int)
  datatype Resolution = Nowhere | At(place: Place)

  // ----- the invariant -----

  /** A world's history starts at its divergence time, and its index stands for the times of its states. */
  ghost predicate HistoryOk(h: History, start: int) {
    && Refines(h.index, h.contents.Keys) && start in h.contents && IsTime(start)
    && forall x <- h.contents :: start <= x
  }

  /** `HistoryOk`, for callers to pass on: its definition comes into play only where `Unfold` is mentioned. */
  ghost predicate Sound(h: History, start: int) {
    forall b {:trigger Unfold(Topic.Histories, b)} :: Unfold(Topic.Histories, b) ==> HistoryOk(h, start)
  }

  ghost predicate Inv(tl: Timeline) {
    && Grown(tl.forest) && tl.order.Keys == tl.worlds.Keys && tl.order.Keys <= tl.forest.depth.Keys
    && forall w <- tl.worlds :: Sound(tl.worlds[w], tl.order[w])
  }

  // ----- reads -----

  /** Where the climb to the nearest world and the two floors lead. */
  ghost function Resolve(tl: Timeline, w: int, t: int): Resolution
    requires Inv(tl) && w in tl.forest.depth
  {
    var rw := Nearest(tl.order, Line(tl.forest, w), t);
    if rw !in tl.worlds then Nowhere
    else
      var ix := tl.worlds[rw].index;
      assert Unfold(Topic.Histories, true) && HistoryOk(tl.worlds[rw], tl.order[rw]);
      var s := Floor(ix.supers, t);
      if s == NULL_LONG then Nowhere
      else
        assert TreeOk(ix, tl.worlds[rw].contents.Keys, s);
        At(Place(rw, s, Floor(ix.trees[s], t)))
  }

  /** A read finds the last state at or before t in the nearest world with a history by t, and fails
      only when there is no such world. */
  lemma ResolveSpec(tl: Timeline, w: int, t: int)
    requires Inv(tl) && w in tl.forest.depth
    ensures var line := Line(tl.forest, w); var rw := Nearest(tl.order, line, t);
      if DivergedBy(tl.order, rw, t) then
        && rw in tl.worlds && Resolve(tl, w, t).At? && Resolve(tl, w, t).place.world == rw
        && IsFloorOf(tl.worlds[rw].contents.Keys, t, Resolve(tl, w, t).place.time)
      else Resolve(tl, w, t) == Nowhere && forall v <- line :: !DivergedBy(tl.order, v, t)
  {
    var line := Line(tl.forest, w);
    var rw := Nearest(tl.order, line, t);
    if rw in tl.worlds {
      var h := tl.worlds[rw];
      assert Unfold(Topic.Histories, true);
      FloorOfFloor(h.index, h.contents.Keys, t);
    }
  }

  // ----- writes -----

  function MagicAt(m: map<int, nat>, k: int): nat {
    if k in m then m[k] else 0
  }

  function IncreaseAt(m: map<int, nat>, k: int, d: nat): map<int, nat> {
    if d == 0 then m else m[k := MagicAt(m, k) + d]
  }

  function WithState(h: History, t: int, content: int): History {
    h.(contents := h.contents[t := content])
  }

  /** A changed time tree; its magic counts the changes. */
  function WithTree(h: History, s: int, tree: seq<int>, changes: nat): History {
    h.(index := Index(h.index.supers, h.index.trees[s := tree]), treeMagics := IncreaseAt(h.treeMagics, s, changes))
  }

  /** A new time tree, whose magic starts from 0. */
  function WithNewTree(h: History, s: int, tree: seq<int>): History {
    h.(index := Index(h.index.supers, h.index.trees[s := tree]), treeMagics := h.treeMagics[s := 0])
  }

  function WithSuper(h: History, m: int): History {
    h.(index := Index(Added(h.index.supers, m), h.index.trees), superMagic := h.superMagic + if m in h.index.supers
      then 0 else 1)
  }

  /** One more state, and its time in the tree at super time s. */
  function Extended(h: History, s: int, t: int, content: int): History
    requires s in h.index.trees && (forall k <- h.index.trees[s] :: IsTime(k)) && IsTime(t)
  {
    var before := h.index.trees[s];
    var tree := Added(before, t);
    var h1 := WithTree(WithState(h, t, content), s, tree, if t in before then 0 else 1);
    if |tree| != Threshold(|h.index.supers|) then h1
    else
      var right := Walk(tree, BEGINNING_OF_TIME, END_OF_TIME, |tree| / 2);
      var median := if right == [] then -1 else right[|right| - 1];
      WithTree(WithSuper(WithNewTree(h1, median, right), median), s, Kept(tree, median), 1)
  }

  /** The first state of a node in a world. */
  function Started(t: int, content: int): History {
    History(Index([t], map[t := [t]]), 1, map[t := 1], map[t := content])
  }

  /** A phased write at (w, t): a state of its own, copied from the resolved one and then changed. */
  ghost function Write(tl: Timeline, w: int, t: int, content: int): Timeline
    requires Inv(tl) && w in tl.forest.depth && IsTime(t) && Resolve(tl, w, t).At?
  {
    var p := Resolve(tl, w, t).place;
    ResolvedPlaced(tl, w, t);
    if p.world == w then
      tl.(worlds := tl.worlds[w := Extended(tl.worlds[w], p.superTime, t, content)])
    else
      tl.(worlds := tl.worlds[w := Started(t, content)], order := tl.order[w := t], orderMagic := tl.orderMagic + 1)
  }

  /** A write into a world's past before its own history would mix two worlds' trees. */
  predicate Early(tl: Timeline, w: int, t: int) {
    w in tl.order && t < tl.order[w]
  }

  lemma StartedOk(t: int, content: int)
    requires IsTime(t)
    ensures Sound(Started(t, content), t) && Started(t, content).contents == map[t := content]
  {
    var h := Started(t, content);
    forall x ensures Floor(h.index.supers, x) == if t <= x then t else NULL_LONG {
      assert t in h.index.supers;
      var f := Floor(h.index.supers, x);
    }
    assert TreeOk(h.index, h.contents.Keys, t);
  }

  lemma ExtendedOk(h: History, start: int, s: int, t: int, content: int)
    requires Sound(h, start) && Placed(h, s, t) && start <= t
    ensures Sound(Extended(h, s, t, content), start)
    ensures Extended(h, s, t, content).contents == h.contents[t := content]
  {
    assert Unfold(Topic.Histories, true);
    InsertRefines(h.index, h.contents.Keys, s, t);
    var h' := Extended(h, s, t, content);
    ExtendedParts(h, start, s, t, content);
    assert h'.contents.Keys == h.contents.Keys + {t};
  }

  /** s is where a write at t belongs. */
  ghost predicate Placed(h: History, s: int, t: int) {
    && IsTime(t) && s in h.index.trees && (forall k <- h.index.trees[s] :: IsTime(k)) && s != NULL_LONG
    && (forall k <- h.index.supers :: IsTime(k)) && s == Floor(h.index.supers, t)
  }

  lemma SoundStart(h: History, start: int)
    requires Sound(h, start)
    ensures IsTime(start) && start in h.contents && (forall x <- h.contents :: IsTime(x) && start <= x)
  {
    assert Unfold(Topic.Histories, true);
  }

  /** A node resolves in its own world from the divergence on, and in an ancestor before. */
  lemma OwnWorld(tl: Timeline, w: int, t: int)
    requires Inv(tl) && w in tl.forest.depth && Resolve(tl, w, t).At?
    ensures Resolve(tl, w, t).place.world == w <==> w in tl.order && !Early(tl, w, t)
  {
    ResolveSpec(tl, w, t);
    if w in tl.order {
      SoundStart(tl.worlds[w], tl.order[w]);
      assert Line(tl.forest, w)[0] == w;
    }
  }

  lemma ResolvedPlaced(tl: Timeline, w: int, t: int)
    requires Inv(tl) && w in tl.forest.depth && IsTime(t) && Resolve(tl, w, t).At?
    ensures var p := Resolve(tl, w, t).place;
      && p.world in tl.worlds && p.world in tl.order && Sound(tl.worlds[p.world], tl.order[p.world])
      && tl.order[p.world] <= t && Placed(tl.worlds[p.world], p.superTime, t)
  {
    ResolveSpec(tl, w, t);
    var p := Resolve(tl, w, t).place;
    var h := tl.worlds[p.world];
    assert Sound(h, tl.order[p.world]) && Unfold(Topic.Histories, true);
    assert TreeOk(h.index, h.contents.Keys, p.superTime);
  }

  lemma ExtendedParts(h: History, start: int, s: int, t: int, content: int)
    requires Sound(h, start) && Placed(h, s, t)
    ensures var h' := Extended(h, s, t, content);
      h'.index == Insert(h.index, s, t) && h'.contents == h.contents[t := content]
  {
    var tree := Added(h.index.trees[s], t);
    if |tree| == Threshold(|h.index.supers|) {
      SplitElsewhere(h, start, s, t);
      var right := Walk(tree, BEGINNING_OF_TIME, END_OF_TIME, |tree| / 2);
      var median := right[|right| - 1];
      SplitTreesMap(h.index.trees, s, median, tree, right, Kept(tree, median));
    }
  }

  lemma SplitTreesMap(trees: map<int, seq<int>>, s: int, median: int, tree: seq<int>, right: seq<int>, left: seq<int>)
    requires s != median
    ensures trees[s := tree][median := right][s := left] == trees[s := left][median := right]
  {
  }

  /** A split gives its new tree a key of its own. */
  lemma SplitElsewhere(h: History, start: int, s: int, t: int)
    requires Sound(h, start) && Placed(h, s, t) && |Added(h.index.trees[s], t)| == Threshold(|h.index.supers|)
    ensures var tree := Added(h.index.trees[s], t);
      var right := Walk(tree, BEGINNING_OF_TIME, END_OF_TIME, |tree| / 2);
      right != [] && right[|right| - 1] != s && right[|right| - 1] !in h.index.supers
  {
    assert Unfold(Topic.Histories, true);
    assert TreeOk(h.index, h.contents.Keys, s);
    SplitTrees(h.index, h.contents.Keys, s, t);
  }

  /** The order stays, and one history gets one more state. */
  ghost predicate Grew(tl: Timeline, tl': Timeline, w: int, t: int, content: int) {
    && w in tl.worlds && w in tl.order && tl'.order == tl.order && tl'.forest == tl.forest
    && tl'.worlds.Keys == tl.worlds.Keys
    && Sound(tl'.worlds[w], tl.order[w]) && tl'.worlds[w].contents == tl.worlds[w].contents[t := content]
    && forall v <- tl.worlds :: v != w ==> tl'.worlds[v] == tl.worlds[v]
  }

  /** A node starts a history of its own in w. */
  ghost predicate Began(tl: Timeline, tl': Timeline, w: int, t: int, content: int) {
    && w !in tl.order && w !in tl.worlds && tl'.forest == tl.forest && tl'.order == tl.order[w := t]
    && tl'.worlds.Keys == tl.worlds.Keys + {w} && Sound(tl'.worlds[w], t) && tl'.worlds[w].contents == map[t := content]
    && forall v <- tl.worlds :: tl'.worlds[v] == tl.worlds[v]
  }

  lemma WriteParts(tl: Timeline, w: int, t: int, content: int)
    requires Inv(tl) && w in tl.forest.depth && IsTime(t) && Resolve(tl, w, t).At? && !Early(tl, w, t)
    ensures var tl' := Write(tl, w, t, content);
      if w in tl.order then Resolve(tl, w, t).place.world == w && Grew(tl, tl', w, t, content)
      else Resolve(tl, w, t).place.world != w && Began(tl, tl', w, t, content)
  {
    ResolvedPlaced(tl, w, t);
    OwnWorld(tl, w, t);
    var p := Resolve(tl, w, t).place;
    if p.world == w {
      ExtendedOk(tl.worlds[w], tl.order[w], p.superTime, t, content);
    } else {
      StartedOk(t, content);
    }
  }

  lemma WriteKeeps(tl: Timeline, w: int, t: int, content: int)
    requires Inv(tl) && w in tl.forest.depth && IsTime(t) && Resolve(tl, w, t).At? && !Early(tl, w, t)
    ensures Inv(Write(tl, w, t, content))
  {
    WriteParts(tl, w, t, content);
  }

  // ----- isolation -----

  /** What a read of (v, u) is answered with: the content of the state found, or nothing. */
  datatype Answer = Missing | Found(world: int, time: int, content: int)

  ghost function Read(tl: Timeline, v: int, u: int): Answer
    requires Inv(tl) && v in tl.forest.depth
  {
    ResolveSpec(tl, v, u);
    if Resolve(tl, v, u).Nowhere? then Missing
    else
      var p := Resolve(tl, v, u).place;
      Found(p.world, p.time, tl.worlds[p.world].contents[p.time])
  }

  /** The readers of (v, u) whom a state at (w, t) is for: w is v or an ancestor with no nearer history
      by u, and t is the last of the times in w up to u. */
  ghost predicate Reaches(tl: Timeline, w: int, t: int, v: int, u: int)
    requires Grown(tl.forest) && v in tl.forest.depth
  {
    && t <= u && Met(tl.order, Line(tl.forest, v), u, w)
    && (w in tl.worlds ==> forall x <- tl.worlds[w].contents :: x <= u ==> x <= t)
  }

  lemma GrewReads(tl: Timeline, tl': Timeline, w: int, t: int, content: int, v: int, u: int)
    requires Inv(tl) && Inv(tl') && v in tl.forest.depth && Grew(tl, tl', w, t, content) && tl.order[w] <= t
    requires IsTime(t)
    ensures Read(tl', v, u) == if Reaches(tl, w, t, v, u) then Found(w, t, content) else Read(tl, v, u)
  {
    ResolveSpec(tl, v, u);
    ResolveSpec(tl', v, u);
    SoundStart(tl.worlds[w], tl.order[w]);
    var line := Line(tl.forest, v);
    var rw := Nearest(tl.order, line, u);
    if t <= u && Met(tl.order, line, u, w) {
      assert DivergedBy(tl.order, w, u);
      assert IsNearest(tl.order, line, u, w);
      NearestUnique(tl.order, line, u, rw, w);
      FloorGrows(tl.worlds[w].contents, t, content, u, Resolve(tl, v, u).place.time, Resolve(tl', v, u).place.time);
    } else if DivergedBy(tl.order, rw, u) {
      assert Met(tl.order, line, u, rw);
      if rw == w {
        FloorGrows(tl.worlds[w].contents, t, content, u, Resolve(tl, v, u).place.time, Resolve(tl', v, u).place.time);
      }
    }
  }

  /** The floor after one more time: that time when it lies at or below u and above the floor. */
  lemma FloorGrows(m: map<int, int>, t: int, content: int, u: int, f: int, f': int)
    requires IsFloorOf(m.Keys, u, f) && IsFloorOf(m[t := content].Keys, u, f')
    ensures f' == if t <= u && f <= t then t else f
  {
    var m' := m[t := content];
    assert m'.Keys == m.Keys + {t};
  }

  lemma {:induction false} BeganReads(tl: Timeline, tl': Timeline, w: int, t: int, content: int, v: int, u: int)
    requires Inv(tl) && Inv(tl') && v in tl.forest.depth && Began(tl, tl', w, t, content) && IsTime(t)
    ensures Read(tl', v, u) == if Reaches(tl, w, t, v, u) then Found(w, t, content) else Read(tl, v, u)
  {
    ResolveSpec(tl, v, u);
    ResolveSpec(tl', v, u);
    var line := Line(tl.forest, v);
    var rw, rw' := Nearest(tl.order, line, u), Nearest(tl'.order, line, u);
    NewcomerNearest(tl.order, line, u, w, t);
  }

  lemma MetFrom(order: map<int, int>, line: seq<int>, u: int, w: int, k: nat)
    requires k <= |line| && forall j :: 0 <= j < k ==> !DivergedBy(order, line[j], u)
    ensures k < |line| && line[k] == w ==> Met(order, line, u, w)
  {
  }

  /** A newcomer is nearest exactly where the climb meets it first. */
  lemma NewcomerNearest(order: map<int, int>, line: seq<int>, u: int, w: int, t: int)
    requires line != [] && w !in order && t != NULL_LONG
    ensures var order' := order[w := t];
      var r, r' := Nearest(order, line, u), Nearest(order', line, u);
      if t <= u && Met(order, line, u, w) then r' == w && DivergedBy(order', w, u)
      else r' == r && (DivergedBy(order', r', u) <==> DivergedBy(order, r, u))
  {
    var order' := order[w := t];
    forall v | v != w ensures DivergedBy(order, v, u) == DivergedBy(order', v, u) {
    }
    if t <= u && Met(order, line, u, w) {
      var k :| 0 <= k < |line| && line[k] == w && forall j :: 0 <= j < k ==> !DivergedBy(order, line[j], u);
      var c := Climbed(order', line, u);
      assert c <= k;
      if c < k {
        assert line[c] == w;
      }
    } else {
      var c, c' := Climbed(order, line, u), Climbed(order', line, u);
      MetFrom(order, line, u, w, if c' < c then c' else c);
    }
  }

  /** World isolation: a write at (w, t) is seen by exactly the readers it reaches, and every other
      read in every world is answered as before. */
  lemma WriteReads(tl: Timeline, w: int, t: int, content: int, v: int, u: int)
    requires Inv(tl) && w in tl.forest.depth && IsTime(t) && Resolve(tl, w, t).At? && !Early(tl, w, t)
    requires v in tl.forest.depth && Inv(Write(tl, w, t, content))
    ensures Read(Write(tl, w, t, content), v, u) ==
      if Reaches(tl, w, t, v, u) then Found(w, t, content) else Read(tl, v, u)
  {
    var tl' := Write(tl, w, t, content);
    WriteParts(tl, w, t, content);
    if w in tl.order {
      GrewReads(tl, tl', w, t, content, v, u);
    } else {
      BeganReads(tl, tl', w, t, content, v, u);
    }
  }

  // ----- births of worlds -----

  function Bear(tl: Timeline, parent: int, child: int): Timeline
    requires parent in tl.forest.depth
  {
    tl.(forest := Diverge(tl.forest, parent, child))
  }

  /** A new world reads as its parent, and no other world's reads change. */
  lemma BearReads(tl: Timeline, parent: int, child: int)
    requires Inv(tl) && parent in tl.forest.depth && Fresh(tl.forest, child)
    ensures var tl' := Bear(tl, parent, child);
      && Inv(tl') && child in tl'.forest.depth && tl.forest.depth.Keys <= tl'.forest.depth.Keys
      && (forall u :: Read(tl', child, u) == Read(tl, parent, u))
      && forall v, u :: v in tl.forest.depth ==> Read(tl', v, u) == Read(tl, v, u)
  {
    var tl' := Bear(tl, parent, child);
    DivergeKeeps(tl.forest, parent, child);
    forall u ensures Read(tl', child, u) == Read(tl, parent, u) {
      BirthRead(tl, parent, child, u);
    }
  }

  lemma BirthRead(tl: Timeline, parent: int, child: int, u: int)
    requires Inv(tl) && parent in tl.forest.depth && Fresh(tl.forest, child) && Inv(Bear(tl, parent, child))
    ensures Read(Bear(tl, parent, child), child, u) == Read(tl, parent, u)
  {
    var tl' := Bear(tl, parent, child);
    DivergeKeeps(tl.forest, parent, child);
    var line := Line(tl.forest, parent);
    NearestAbove(tl.order, child, line, u);
    ResolveSpec(tl, parent, u);
    ResolveSpec(tl', child, u);
    assert DivergedBy(tl.order, Nearest(tl.order, line, u), u) ==> Resolve(tl', child, u) == Resolve(tl, parent, u);
  }

  /** A world without a history leaves the climb to its parent's line. */
  lemma NearestAbove(order: map<int, int>, child: int, line: seq<int>, u: int)
    requires line != [] && child !in order
    ensures var r, r' := Nearest(order, line, u), Nearest(order, [child] + line, u);
      && (DivergedBy(order, r', u) <==> DivergedBy(order, r, u)) && (DivergedBy(order, r, u) ==> r' == r)
  {
    var line' := [child] + line;
    assert line'[0] == child && line'[1..] == line && !DivergedBy(order, child, u);
    assert Climbed(order, line', u) == 1 + Climbed(order, line, u);
  }

  // ----- whole runs -----

  datatype Step = Born(parent: int, child: int) | Phased(world: int, time: int, content: int)

  ghost predicate Allowed(tl: Timeline, step: Step) {
    && Inv(tl)
    && match step
       case Born(parent, child) => parent in tl.forest.depth && Fresh(tl.forest, child)
       case Phased(w, t, _) => w in tl.forest.depth && IsTime(t) && Resolve(tl, w, t).At? && !Early(tl, w, t)
  }

  ghost function After(tl: Timeline, step: Step): Timeline
    requires Allowed(tl, step)
  {
    match step
    case Born(parent, child) => Bear(tl, parent, child)
    case Phased(w, t, content) => Write(tl, w, t, content)
  }

  lemma StepKeeps(tl: Timeline, step: Step)
    requires Allowed(tl, step)
    ensures Inv(After(tl, step)) && tl.forest.depth.Keys <= After(tl, step).forest.depth.Keys
    ensures forall v <- tl.forest.depth :: Line(After(tl, step).forest, v) == Line(tl.forest, v)
  {
    match step
    case Born(parent, child) =>
      DivergeKeeps(tl.forest, parent, child);
      BearReads(tl, parent, child);
    case Phased(w, t, content) =>
      WriteKeeps(tl, w, t, content);
      WriteParts(tl, w, t, content);
  }

  ghost predicate Run(states: seq<Timeline>, steps: seq<Step>) {
    && |states| == |steps| + 1
    && forall i :: 0 <= i < |steps| ==> Allowed(states[i], steps[i]) && states[i + 1] == After(states[i], steps[i])
  }

  /** In every state of every run the index of each world stands for the times of its states, each tree
      holds just the times of its stretch, and none is as large as the size at which trees are split. */
  lemma {:induction false} RunKeeps(states: seq<Timeline>, steps: seq<Step>, n: nat)
    requires Run(states, steps) && Inv(states[0]) && n <= |steps|
    ensures Inv(states[n]) && states[0].forest.depth.Keys <= states[n].forest.depth.Keys
    ensures forall v <- states[0].forest.depth :: Line(states[n].forest, v) == Line(states[0].forest, v)
    ensures forall w <- states[n].worlds ::
      Refines(states[n].worlds[w].index, states[n].worlds[w].contents.Keys) && Sized(states[n].worlds[w].index)
  {
    if n > 0 {
      RunKeeps(states, steps, n - 1);
      StepKeeps(states[n - 1], steps[n - 1]);
    }
    forall w | w in states[n].worlds
      ensures Refines(states[n].worlds[w].index, states[n].worlds[w].contents.Keys) && Sized(states[n].worlds[w].index)
    {
      assert Sound(states[n].worlds[w], states[n].order[w]) && Unfold(Topic.Histories, true);
      RefinesSized(states[n].worlds[w].index, states[n].worlds[w].contents.Keys);
    }
  }

  /** No tree is as large as the size at which it would be split. */
  ghost predicate Sized(ix: Index) {
    forall s <- ix.supers :: s in ix.trees && |ix.trees[s]| < 2000000
      && (|ix.supers| <= 200000 ==> |ix.trees[s]| < 200000) && (|ix.supers| <= 20000 ==> |ix.trees[s]| < 20000)
      && (|ix.supers| <= 2000 ==> |ix.trees[s]| < 2000)
  }

  lemma RefinesSized(ix: Index, flat: set<int>)
    requires Refines(ix, flat)
    ensures Sized(ix)
  {
    ThresholdIs(|ix.supers|);
    forall s | s in ix.supers ensures s in ix.trees && |ix.trees[s]| < Threshold(|ix.supers|) {
      assert TreeOk(ix, flat, s);
    }
  }

  /** Several trees have at least a thousand keys each, and a world's super magic is the number of its trees. */
  ghost predicate Balanced(h: History) {
    && h.superMagic == |h.index.supers|
    && (|h.index.supers| > 1 ==> forall s <- h.index.supers :: s in h.index.trees && |h.index.trees[s]| >= 1000)
  }

  lemma ExtendedBalanced(h: History, start: int, s: int, t: int, content: int)
    requires Sound(h, start) && Placed(h, s, t) && Balanced(h)
    ensures Balanced(Extended(h, s, t, content))
  {
    assert Unfold(Topic.Histories, true);
    ExtendedParts(h, start, s, t, content);
    assert TreeOk(h.index, h.contents.Keys, s);
    if |Added(h.index.trees[s], t)| == Threshold(|h.index.supers|) {
      SplitTrees(h.index, h.contents.Keys, s, t);
    }
  }

  ghost predicate MagicsCount(tl: Timeline) {
    tl.orderMagic == |tl.order| && forall w <- tl.worlds :: Balanced(tl.worlds[w])
  }

  lemma StepCounted(tl: Timeline, step: Step)
    requires Allowed(tl, step) && MagicsCount(tl)
    ensures MagicsCount(After(tl, step))
  {
    if step.Phased? {
      var w, t := step.world, step.time;
      OwnWorld(tl, w, t);
      if w in tl.order {
        ResolvedPlaced(tl, w, t);
        ExtendedBalanced(tl.worlds[w], tl.order[w], Resolve(tl, w, t).place.superTime, t, step.content);
      }
    }
  }

  /** In every state of every run that starts with a node's first state, the magic of the world order is the number
      of its worlds, a super tree's magic that of its keys, and where there are several time trees in a world, each
      has at least a thousand keys. */
  lemma {:induction false} RunCounted(states: seq<Timeline>, steps: seq<Step>, n: nat)
    requires Run(states, steps) && MagicsCount(states[0]) && n <= |steps|
    ensures MagicsCount(states[n])
  {
    if n > 0 {
      RunCounted(states, steps, n - 1);
      StepCounted(states[n - 1], steps[n - 1]);
    }
  }

  /** What a write does to the magics.  A new time in a tree that it does not fill counts once; in one that it does,
      it counts for the super tree too, and the tree that keeps the lesser times counts its being rebuilt. */
  lemma WriteMagics(tl: Timeline, w: int, t: int, content: int)
    requires Inv(tl) && w in tl.forest.depth && IsTime(t) && Resolve(tl, w, t).At? && !Early(tl, w, t)
    ensures var tl' := Write(tl, w, t, content);
      if w !in tl.order then
        w in tl'.worlds && tl'.orderMagic == tl.orderMagic + 1 && tl'.worlds[w].superMagic == 1
        && tl'.worlds[w].treeMagics == map[t := 1]
      else
        var s := Resolve(tl, w, t).place.superTime;
        && tl'.orderMagic == tl.orderMagic && w in tl.worlds && w in tl'.worlds && s in tl.worlds[w].index.trees
        && var h, h' := tl.worlds[w], tl'.worlds[w];
        if t in h.contents then h' == h.(contents := h'.contents)
        else if |h.index.trees[s]| + 1 != Threshold(|h.index.supers|) then CountedOnce(h, h', s)
        else CountedTwice(h, h', s)
  {
    OwnWorld(tl, w, t);
    if w in tl.order {
      ResolvedPlaced(tl, w, t);
      ExtendedMagics(tl.worlds[w], tl.order[w], Resolve(tl, w, t).place.superTime, t, content);
    }
  }

  /** What becomes of the magics of a history that gets a new time in the tree at s: without a split, ... */
  ghost predicate CountedOnce(h: History, h': History, s: int) {
    && h'.index.supers == h.index.supers && h'.superMagic == h.superMagic
    && h'.treeMagics == h.treeMagics[s := MagicAt(h.treeMagics, s) + 1]
  }

  /** ... and with one. */
  ghost predicate CountedTwice(h: History, h': History, s: int) {
    && |h'.index.supers| == |h.index.supers| + 1 && h'.superMagic == h.superMagic + 1
    && h'.treeMagics == h.treeMagics[h'.index.supers[|h.index.supers|] := 0][s := MagicAt(h.treeMagics, s) + 2]
  }

  lemma ExtendedMagics(h: History, start: int, s: int, t: int, content: int)
    requires Sound(h, start) && Placed(h, s, t)
    ensures var h', size := Extended(h, s, t, content), |h.index.trees[s]|;
      if t in h.contents then h' == h.(contents := h'.contents)
      else if size + 1 != Threshold(|h.index.supers|) then CountedOnce(h, h', s)
      else CountedTwice(h, h', s)
  {
    TreeHas(h, start, s, t);
    if |Added(h.index.trees[s], t)| == Threshold(|h.index.supers|) {
      SplitElsewhere(h, start, s, t);
      SplitMagicsAre(h, s, t, content);
    } else if t in h.contents {
      assert h.index.trees[s := h.index.trees[s]] == h.index.trees;
    }
  }

  lemma TreeHas(h: History, start: int, s: int, t: int)
    requires Sound(h, start) && Placed(h, s, t)
    ensures s in h.index.trees && (t in h.index.trees[s] <==> t in h.contents)
    ensures |h.index.trees[s]| < Threshold(|h.index.supers|)
  {
    assert Unfold(Topic.Histories, true);
    assert TreeOk(h.index, h.contents.Keys, s);
  }

  lemma SplitMagicsAre(h: History, s: int, t: int, content: int)
    requires s in h.index.trees && (forall k <- h.index.trees[s] :: IsTime(k)) && IsTime(t) && t !in h.index.trees[s]
    requires var tree := h.index.trees[s] + [t];
      var right := Walk(tree, BEGINNING_OF_TIME, END_OF_TIME, |tree| / 2);
      && |tree| == Threshold(|h.index.supers|)
      && right != [] && right[|right| - 1] != s && right[|right| - 1] !in h.index.supers
    ensures CountedTwice(h, Extended(h, s, t, content), s)
  {
    var tree := h.index.trees[s] + [t];
    var right := Walk(tree, BEGINNING_OF_TIME, END_OF_TIME, |tree| / 2);
    var m := right[|right| - 1];
    DividedMagics(h, WithState(h, t, content), s, tree, right, Kept(tree, m), m);
  }

  lemma DividedMagics(h: History, h1: History, s: int, tree: seq<int>, right: seq<int>, left: seq<int>, m: int)
    requires m != s && m !in h.index.supers && h1 == h.(contents := h1.contents)
    ensures CountedTwice(h, WithTree(WithSuper(WithNewTree(WithTree(h1, s, tree, 1), m, right), m), s, left, 1), s)
  {
    var k := MagicAt(h.treeMagics, s);
    assert h.treeMagics[s := k + 1][m := 0][s := k + 2] == h.treeMagics[m := 0][s := k + 2];
  }

  /** A write that a reader at (v, u) is to see. */
  ghost predicate Seen(tl: Timeline, step: Step, v: int, u: int) {
    step.Phased? && Grown(tl.forest) && v in tl.forest.depth && Reaches(tl, step.world, step.time, v, u)
  }

  /** Isolation over whole runs: whatever is born, and whatever is written that does not reach it when it
      is written, a read stays. */
  lemma {:induction false} RunIsolated(states: seq<Timeline>, steps: seq<Step>, n: nat, v: int, u: int)
    requires Run(states, steps) && Inv(states[0]) && n <= |steps| && v in states[0].forest.depth
    requires forall i :: 0 <= i < n ==> !Seen(states[i], steps[i], v, u)
    ensures Inv(states[n]) && v in states[n].forest.depth && Read(states[n], v, u) == Read(states[0], v, u)
  {
    RunKeeps(states, steps, n);
    if n > 0 {
      RunIsolated(states, steps, n - 1, v, u);
      RunKeeps(states, steps, n - 1);
      var tl, step := states[n - 1], steps[n - 1];
      assert !Seen(tl, step, v, u);
      match step
      case Born(parent, child) => BearReads(tl, parent, child);
      case Phased(w, t, content) => WriteReads(tl, w, t, content, v, u);
    }
  }

  /** No step turns a read that is answered into one that is not. */
  lemma StepFound(tl: Timeline, step: Step, v: int, u: int)
    requires Allowed(tl, step) && v in tl.forest.depth && Resolve(tl, v, u).At?
    ensures Inv(After(tl, step)) && v in After(tl, step).forest.depth && Resolve(After(tl, step), v, u).At?
  {
    StepKeeps(tl, step);
    assert Read(tl, v, u).Found?;
    match step
    case Born(parent, child) =>
      BearReads(tl, parent, child);
      assert Read(After(tl, step), v, u).Found?;
    case Phased(w, t, content) =>
      WriteReads(tl, w, t, content, v, u);
      assert Read(After(tl, step), v, u).Found?;
  }

  /** A node with one state, in a world that may be anywhere in the forest. */
  function First(forest: Forest, w: int, t: int, content: int): Timeline {
    Timeline(forest, map[w := t], 1, map[w := Started(t, content)])
  }

  lemma FirstKeeps(forest: Forest, w: int, t: int, content: int)
    requires Grown(forest) && w in forest.depth && IsTime(t)
    ensures Inv(First(forest, w, t, content)) && MagicsCount(First(forest, w, t, content))
  {
    StartedOk(t, content);
  }

  // ----- the fast path -----

  /** A node as a lookup hands it out: where it resolved, and the magics of the chunks used for that. */
  datatype Handle = Handle(world: int, time: int, place: Place, orderMagic: int, superMagic: int, treeMagic: int)

  ghost predicate Recorded(tl: Timeline, h: Handle) {
    Inv(tl) && h.world in tl.forest.depth && Resolve(tl, h.world, h.time) == At(h.place) && Matches(tl, h)
  }

  /** The test in front of the fast path. */
  predicate Matches(tl: Timeline, h: Handle) {
    && h.orderMagic == tl.orderMagic && h.place.world in tl.worlds
    && h.superMagic == tl.worlds[h.place.world].superMagic
    && h.treeMagic == MagicAt(tl.worlds[h.place.world].treeMagics, h.place.superTime)
  }

  /** From h to h' no magic falls, and a magic that stays tells of a tree that stays. */
  ghost predicate HistoryRose(h: History, h': History, s: int) {
    && s in h.index.supers && s in h'.index.supers && s in h.index.trees && s in h'.index.trees
    && h.superMagic <= h'.superMagic && (h.superMagic == h'.superMagic ==> h.index.supers == h'.index.supers)
    && MagicAt(h.treeMagics, s) <= MagicAt(h'.treeMagics, s)
    && (MagicAt(h.treeMagics, s) == MagicAt(h'.treeMagics, s) ==> h.index.trees[s] == h'.index.trees[s])
  }

  lemma ExtendedRose(h: History, start: int, s: int, t: int, content: int, s': int)
    requires Sound(h, start) && Placed(h, s, t) && s' in h.index.supers
    ensures HistoryRose(h, Extended(h, s, t, content), s')
  {
    assert Unfold(Topic.Histories, true);
    assert TreeOk(h.index, h.contents.Keys, s) && TreeOk(h.index, h.contents.Keys, s');
    if |Added(h.index.trees[s], t)| == Threshold(|h.index.supers|) {
      SplitTrees(h.index, h.contents.Keys, s, t);
    }
  }

  ghost predicate Rose(tl: Timeline, tl': Timeline, w: int, s: int) {
    && w in tl.worlds && w in tl'.worlds && HistoryRose(tl.worlds[w], tl'.worlds[w], s)
    && tl.orderMagic <= tl'.orderMagic && (tl.orderMagic == tl'.orderMagic ==> tl.order == tl'.order)
  }

  lemma HistoryRoseSame(h: History, start: int, s: int)
    requires Sound(h, start) && s in h.index.supers
    ensures HistoryRose(h, h, s)
  {
    assert Unfold(Topic.Histories, true);
    assert TreeOk(h.index, h.contents.Keys, s);
  }

  lemma StepRose(tl: Timeline, step: Step, w: int, s: int)
    requires Allowed(tl, step) && w in tl.worlds && s in tl.worlds[w].index.supers
    ensures Rose(tl, After(tl, step), w, s)
  {
    HistoryRoseSame(tl.worlds[w], tl.order[w], s);
    if step.Phased? {
      OwnWorld(tl, step.world, step.time);
      if w == step.world && !Early(tl, w, step.time) {
        ResolvedPlaced(tl, w, step.time);
        ExtendedRose(tl.worlds[w], tl.order[w], Resolve(tl, w, step.time).place.superTime, step.time, step.content, s);
      }
    }
  }

  lemma {:induction false} RunRose(states: seq<Timeline>, steps: seq<Step>, n: nat, w: int, s: int)
    requires Run(states, steps) && Inv(states[0]) && n <= |steps| && w in states[0].worlds
    requires s in states[0].worlds[w].index.supers
    ensures Rose(states[0], states[n], w, s)
  {
    if n == 0 {
      HistoryRoseSame(states[0].worlds[w], states[0].order[w], s);
    } else {
      RunRose(states, steps, n - 1, w, s);
      StepRose(states[n - 1], steps[n - 1], w, s);
    }
  }

  /** When the recorded magics still match after any number of births and writes by others, resolving
      anew would find the recorded place. */
  lemma FastPath(states: seq<Timeline>, steps: seq<Step>, n: nat, h: Handle)
    requires Run(states, steps) && Recorded(states[0], h) && n <= |steps| && Matches(states[n], h)
    ensures Inv(states[n]) && h.world in states[n].forest.depth && Resolve(states[n], h.world, h.time) == At(h.place)
  {
    RunKeeps(states, steps, n);
    var tl, tl', p := states[0], states[n], h.place;
    ResolveSpec(tl, h.world, h.time);
    assert Sound(tl.worlds[p.world], tl.order[p.world]) && Unfold(Topic.Histories, true);
    RunRose(states, steps, n, p.world, p.superTime);
  }
}
