/** What a node's handle remembers of its last resolution, what resolveState takes in hand by it, and
    when reads and writes through it can be relied on. */
module Handles {
  import opened Hiding
  import opened Constants
  import opened TimeLine
  import opened Worlds
  import opened TimeIndex
  import opened Timelines

  // ----- a phased write with whatever chunks are in hand -----

  /** The chunks a phased write has in hand: the world it resolved to, whose super tree it uses, and
      the world and super time of its time tree. */
  datatype InHand = InHand(world: int, treeWorld: int, superTime: int)

  ghost predicate Holdable(worlds: map<int, History>, w: int, i: InHand) {
    && w in worlds && i.world in worlds && i.treeWorld in worlds && i.superTime in worlds[i.treeWorld].index.trees
    && forall k <- worlds[i.treeWorld].index.trees[i.superTime] :: IsTime(k)
  }

  /** The index part of a phased write in a world that has a history, with whatever trees are in hand:
      the time goes into the time tree in hand, and when that is full a new tree in w takes its greater
      half and gets its key into the super tree in hand. */
  function Indexed(worlds: map<int, History>, w: int, t: int, i: InHand): map<int, History>
    requires Holdable(worlds, w, i) && IsTime(t)
  {
    var before := worlds[i.treeWorld].index.trees[i.superTime];
    var tree := Added(before, t);
    var w1 := worlds[i.treeWorld := WithTree(worlds[i.treeWorld], i.superTime, tree, if t in before then 0 else 1)];
    if |tree| != Threshold(|worlds[i.world].index.supers|) then w1
    else Divided(w1, w, i, tree, Walk(tree, BEGINNING_OF_TIME, END_OF_TIME, |tree| / 2))
  }

  /** A tree at its full size gives its greater half away. */
  function Divided(w1: map<int, History>, w: int, i: InHand, tree: seq<int>, right: seq<int>): map<int, History>
    requires w in w1 && i.world in w1 && i.treeWorld in w1
  {
    var median := if right == [] then -1 else right[|right| - 1];
    var w2 := w1[w := WithNewTree(w1[w], median, right)];
    var w3 := w2[i.world := WithSuper(w2[i.world], median)];
    w3[i.treeWorld := WithTree(w3[i.treeWorld], i.superTime, Kept(tree, median), 1)]
  }

  /** putAndMark of a new state: one that is resident already stays as it is. */
  function Landed(worlds: map<int, History>, w: int, t: int, content: int): map<int, History>
    requires w in worlds
  {
    if t in worlds[w].contents then worlds else worlds[w := WithState(worlds[w], t, content)]
  }

  /** With the right trees in hand this is the write of the model. */
  lemma IndexedRight(worlds: map<int, History>, w: int, s: int, t: int, content: int)
    requires Holdable(worlds, w, InHand(w, w, s)) && IsTime(t) && t !in worlds[w].contents
    ensures var i := InHand(w, w, s); var w0 := Landed(worlds, w, t, content);
      Holdable(w0, w, i) && Indexed(w0, w, t, i) == worlds[w := Extended(worlds[w], s, t, content)]
  {
  }

  /** The whole of a phased write: the new state, and its entry into the index. */
  function CodeWrite(tl: Timeline, w: int, t: int, content: int, i: InHand): Timeline
    requires i.world in tl.worlds && tl.order.Keys == tl.worlds.Keys && IsTime(t)
    requires i.treeWorld in tl.worlds && i.superTime in tl.worlds[i.treeWorld].index.trees
    requires forall k <- tl.worlds[i.treeWorld].index.trees[i.superTime] :: IsTime(k)
  {
    if i.world == w || w in tl.order then
      tl.(worlds := Indexed(Landed(tl.worlds, w, t, content), w, t, i))
    else
      tl.(worlds := tl.worlds[w := Started(t, content)], order := tl.order[w := t], orderMagic := tl.orderMagic + 1)
  }

  /** The super tree in hand is that of the resolved world, and the time tree one that some super tree lists. */
  ghost predicate Usable(tl: Timeline, p: Place, i: InHand)
    requires Inv(tl)
  {
    && i.world == p.world && p.world in tl.worlds && i.treeWorld in tl.worlds
    && i.superTime in tl.worlds[i.treeWorld].index.supers
  }

  /** The time tree in hand is that of the resolved place. */
  predicate RightTree(p: Place, i: InHand) {
    i.treeWorld == p.world && i.superTime == p.superTime
  }

  lemma UsableTree(tl: Timeline, w: int, s: int)
    requires Inv(tl) && w in tl.worlds && s in tl.worlds[w].index.supers
    ensures s in tl.worlds[w].index.trees && Keyed(tl.worlds[w].index.trees[s]) && Keyed(tl.worlds[w].index.supers)
    ensures |tl.worlds[w].index.trees[s]| < Threshold(|tl.worlds[w].index.supers|)
    ensures forall x <- tl.worlds[w].index.trees[s] ::
      x in tl.worlds[w].contents && Floor(tl.worlds[w].index.supers, x) == s
  {
    assert Sound(tl.worlds[w], tl.order[w]) && Unfold(Topic.Histories, true);
    assert TreeOk(tl.worlds[w].index, tl.worlds[w].contents.Keys, s);
  }

  /** A write that meets its state in the store, with the right tree in hand, changes nothing. */
  lemma RewriteRight(tl: Timeline, w: int, t: int, content: int, i: InHand)
    requires Inv(tl) && w in tl.forest.depth && IsTime(t) && Resolve(tl, w, t).At?
    requires Usable(tl, Resolve(tl, w, t).place, i)
    requires w in tl.worlds && t in tl.worlds[w].contents && RightTree(Resolve(tl, w, t).place, i)
    ensures i.superTime in tl.worlds[i.treeWorld].index.trees && Keyed(tl.worlds[i.treeWorld].index.trees[i.superTime])
    ensures CodeWrite(tl, w, t, content, i) == tl && t in tl.worlds[i.treeWorld].index.trees[i.superTime]
  {
    UsableTree(tl, i.treeWorld, i.superTime);
    OwnPlace(tl, w, t);
    InItsTree(tl.worlds[w], tl.order[w], t);
    SameTree(tl.worlds, w, i.superTime);
  }

  lemma SameTree(worlds: map<int, History>, w: int, s: int)
    requires w in worlds && s in worlds[w].index.trees
    ensures worlds[w := WithTree(worlds[w], s, worlds[w].index.trees[s], 0)] == worlds
  {
    var ix := worlds[w].index;
    assert ix.trees[s := ix.trees[s]] == ix.trees;
    assert WithTree(worlds[w], s, ix.trees[s], 0) == worlds[w];
  }

  lemma CodeWriteRight(tl: Timeline, w: int, t: int, content: int, i: InHand)
    requires Inv(tl) && w in tl.forest.depth && IsTime(t) && Resolve(tl, w, t).At?
    requires Usable(tl, Resolve(tl, w, t).place, i)
    requires !Early(tl, w, t) && (RightTree(Resolve(tl, w, t).place, i) || w !in tl.order)
    ensures i.superTime in tl.worlds[i.treeWorld].index.trees && Keyed(tl.worlds[i.treeWorld].index.trees[i.superTime])
    ensures CodeWrite(tl, w, t, content, i) ==
      if w in tl.worlds && t in tl.worlds[w].contents then tl else Write(tl, w, t, content)
    ensures Inv(CodeWrite(tl, w, t, content, i))
  {
    UsableTree(tl, i.treeWorld, i.superTime);
    ResolvedPlaced(tl, w, t);
    OwnWorld(tl, w, t);
    WriteKeeps(tl, w, t, content);
    if w in tl.worlds && t in tl.worlds[w].contents {
      RewriteRight(tl, w, t, content, i);
    } else if i.world == w {
      IndexedRight(tl.worlds, w, i.superTime, t, content);
    }
  }

  // ----- writes that break an index -----

  /** A state before its world's own history belongs to no tree. */
  lemma EarlyBreaks(tl: Timeline, w: int, t: int, content: int, i: InHand)
    requires Inv(tl) && w in tl.forest.depth && IsTime(t) && Resolve(tl, w, t).At?
    requires Usable(tl, Resolve(tl, w, t).place, i)
    requires Early(tl, w, t)
    ensures i.superTime in tl.worlds[i.treeWorld].index.trees && Keyed(tl.worlds[i.treeWorld].index.trees[i.superTime])
    ensures !Inv(CodeWrite(tl, w, t, content, i))
  {
    UsableTree(tl, i.treeWorld, i.superTime);
    SoundStart(tl.worlds[w], tl.order[w]);
    var tl' := CodeWrite(tl, w, t, content, i);
    assert t in tl'.worlds[w].contents && tl'.order[w] == tl.order[w];
    if Inv(tl') {
      SoundStart(tl'.worlds[w], tl'.order[w]);
    }
  }

  /** Each time of a history is in the tree of its floor, and that holds no other times. */
  lemma InItsTree(h: History, start: int, x: int)
    requires Sound(h, start)
    ensures Keyed(h.index.supers)
    ensures x in h.contents ==>
      Floor(h.index.supers, x) in h.index.trees && x in h.index.trees[Floor(h.index.supers, x)]
    ensures forall s <- h.index.supers ::
      s in h.index.trees && (x in h.index.trees[s] ==> x in h.contents && Floor(h.index.supers, x) == s)
  {
    assert Unfold(Topic.Histories, true);
    forall s | s in h.index.supers
      ensures s in h.index.trees && (x in h.index.trees[s] ==> x in h.contents && Floor(h.index.supers, x) == s)
    {
      assert TreeOk(h.index, h.contents.Keys, s);
    }
    if x in h.contents {
      assert TreeOk(h.index, h.contents.Keys, Floor(h.index.supers, x));
    }
  }

  lemma HasFloor(h: History, start: int, x: int)
    requires Sound(h, start) && x in h.contents
    ensures Keyed(h.index.supers) && Floor(h.index.supers, x) != NULL_LONG
  {
    assert Unfold(Topic.Histories, true);
  }

  /** A state whose time no tree of its world has got. */
  lemma UnindexedUnsound(h: History, h': History, start: int, t: int)
    requires Sound(h, start) && t !in h.contents && t in h'.contents && h'.index == h.index
    ensures !Sound(h', start)
  {
    InItsTree(h, start, t);
    if Sound(h', start) {
      InItsTree(h', start, t);
      HasFloor(h', start, t);
      assert false;
    }
  }

  /** A tree with a time that is not for it. */
  lemma MisplacedUnsound(h: History, start: int, s: int, t: int)
    requires Keyed(h.index.supers) && s in h.index.supers && s in h.index.trees && t in h.index.trees[s]
    requires !(t in h.contents && Floor(h.index.supers, t) == s)
    ensures !Sound(h, start)
  {
    if Sound(h, start) {
      InItsTree(h, start, t);
    }
  }

  /** A tree that lost a time of its world. */
  lemma LostUnsound(h: History, h': History, start: int, s: int, x: int)
    requires Sound(h, start) && h'.contents == h.contents && h'.index.supers == h.index.supers
    requires s in h.index.supers && s in h.index.trees && x in h.index.trees[s] && s in h'.index.trees
    requires x !in h'.index.trees[s]
    ensures !Sound(h', start)
  {
    InItsTree(h, start, x);
    if Sound(h', start) {
      InItsTree(h', start, x);
    }
  }

  /** The greater half of a full tree has another time than t, and so has the smaller. */
  lemma OtherThan(tree: seq<int>, t: int) returns (x: int, y: int)
    requires Keyed(tree) && |tree| >= 2000
    ensures var right := Walk(tree, BEGINNING_OF_TIME, END_OF_TIME, |tree| / 2);
      && right != [] && x in tree && x != t && right[|right| - 1] <= x
      && y in tree && y != t && y < right[|right| - 1]
  {
    TopHalf(tree);
    var right := Walk(tree, BEGINNING_OF_TIME, END_OF_TIME, |tree| / 2);
    x := if right[0] == t then right[1] else right[0];
    assert x in right;
    if forall z <- tree :: z in right || z == t {
      forall z | z in tree ensures z in right + [t] {
      }
      SubsetSize(tree, right + [t]);
      assert false;
    }
    y :| y in tree && y !in right && y != t;
  }

  /** The key of a split lies in the stretch of the tree that is split, apart from a time that does not. */
  lemma MedianElsewhere(h: History, start: int, s: int, t: int)
    requires Sound(h, start) && IsTime(t) && s in h.index.supers && s in h.index.trees && Keyed(h.index.trees[s])
    requires Keyed(h.index.supers) && Floor(h.index.supers, t) != NULL_LONG && Floor(h.index.supers, t) != s
    requires |Added(h.index.trees[s], t)| >= 2000 && |Added(h.index.trees[s], t)| % 2 == 0
    ensures var tree := Added(h.index.trees[s], t);
      Keyed(tree) && var right := Walk(tree, BEGINNING_OF_TIME, END_OF_TIME, |tree| / 2);
      && right != [] && var m := right[|right| - 1];
      && Keyed(Added(h.index.supers, m)) && Floor(Added(h.index.supers, m), t) == Floor(h.index.supers, t)
      && Floor(h.index.supers, t) != m && (t in Kept(tree, m) || t in right)
  {
    var tree, supers := Added(h.index.trees[s], t), h.index.supers;
    AddedKeyed(h.index.trees[s], t);
    var x, y := OtherThan(tree, t);
    TopHalf(tree);
    var right := Walk(tree, BEGINNING_OF_TIME, END_OF_TIME, |tree| / 2);
    var m, f := right[|right| - 1], Floor(supers, t);
    KeptKeyed(tree, m);
    forall z | z in h.index.trees[s] ensures Floor(supers, z) == s {
      InItsTree(h, start, z);
    }
    assert Floor(supers, x) == s && Floor(supers, y) == s;
    assert m != t;
    assert Floor(supers, m) == s && IsTime(m);
    AddedKeyed(supers, m);
    if m !in supers {
      FloorAdded(supers, m, t);
    }
  }

  /** A history after a write with its tree at s in hand. */
  function Reindexed(h: History, s: int, t: int, content: int): History
    requires s in h.index.trees && (forall k <- h.index.trees[s] :: IsTime(k)) && IsTime(t)
  {
    Indexed(Landed(map[0 := h], 0, t, content), 0, t, InHand(0, 0, s))[0]
  }

  lemma ReindexedIs(worlds: map<int, History>, w: int, s: int, t: int, content: int)
    requires Holdable(worlds, w, InHand(w, w, s)) && IsTime(t)
    ensures Holdable(Landed(worlds, w, t, content), w, InHand(w, w, s))
    ensures Indexed(Landed(worlds, w, t, content), w, t, InHand(w, w, s))[w] == Reindexed(worlds[w], s, t, content)
  {
  }

  lemma ReindexedWhole(h: History, s: int, t: int, content: int)
    requires s in h.index.trees && Keyed(h.index.trees[s]) && IsTime(t)
    requires |Added(h.index.trees[s], t)| != Threshold(|h.index.supers|)
    ensures Reindexed(h, s, t, content).index == Index(h.index.supers, h.index.trees[s := Added(h.index.trees[s], t)])
  {
  }

  lemma ReindexedSplit(h: History, s: int, t: int, content: int, tree: seq<int>, right: seq<int>)
    requires s in h.index.trees && Keyed(h.index.trees[s]) && IsTime(t)
    requires tree == Added(h.index.trees[s], t) && |tree| == Threshold(|h.index.supers|)
    requires right == Walk(tree, BEGINNING_OF_TIME, END_OF_TIME, |tree| / 2) && right != []
    ensures var m := right[|right| - 1];
      Reindexed(h, s, t, content).index ==
        Index(Added(h.index.supers, m), h.index.trees[s := tree][m := right][s := Kept(tree, m)])
  {
  }

  /** With another tree of the right world in hand, that tree gets a time that is not for it. */
  lemma ReindexedUnsound(h: History, start: int, s: int, t: int, content: int)
    requires Sound(h, start) && IsTime(t) && s in h.index.supers && s in h.index.trees && Keyed(h.index.trees[s])
    requires Keyed(h.index.supers) && Floor(h.index.supers, t) != NULL_LONG && Floor(h.index.supers, t) != s
    ensures !Sound(Reindexed(h, s, t, content), start)
  {
    if |Added(h.index.trees[s], t)| != Threshold(|h.index.supers|) {
      ReindexedWhole(h, s, t, content);
      MisplacedUnsound(Reindexed(h, s, t, content), start, s, t);
    } else {
      ReindexedHalves(h, start, s, t, content);
    }
  }

  lemma ReindexedHalves(h: History, start: int, s: int, t: int, content: int)
    requires Sound(h, start) && IsTime(t) && s in h.index.supers && s in h.index.trees && Keyed(h.index.trees[s])
    requires Keyed(h.index.supers) && Floor(h.index.supers, t) != NULL_LONG && Floor(h.index.supers, t) != s
    requires |Added(h.index.trees[s], t)| == Threshold(|h.index.supers|)
    ensures !Sound(Reindexed(h, s, t, content), start)
  {
    var tree := Added(h.index.trees[s], t);
    MedianElsewhere(h, start, s, t);
    var right := Walk(tree, BEGINNING_OF_TIME, END_OF_TIME, |tree| / 2);
    var m := right[|right| - 1];
    SplitOff(h, start, s, t, m);
    ReindexedSplit(h, s, t, content, tree, right);
    MisplacedUnsound(Reindexed(h, s, t, content), start, if t in Kept(tree, m) then s else m, t);
  }

  lemma WrongStretchBreaks(tl: Timeline, w: int, t: int, content: int, i: InHand)
    requires Inv(tl) && w in tl.forest.depth && IsTime(t) && Resolve(tl, w, t).At?
    requires Usable(tl, Resolve(tl, w, t).place, i)
    requires w in tl.order && !Early(tl, w, t) && i.treeWorld == i.world
    requires i.superTime != Resolve(tl, w, t).place.superTime
    ensures i.superTime in tl.worlds[i.treeWorld].index.trees && Keyed(tl.worlds[i.treeWorld].index.trees[i.superTime])
    ensures !Inv(CodeWrite(tl, w, t, content, i))
  {
    UsableTree(tl, i.treeWorld, i.superTime);
    OwnWorld(tl, w, t);
    ResolvedPlaced(tl, w, t);
    ReindexedIs(tl.worlds, w, i.superTime, t, content);
    ReindexedUnsound(tl.worlds[w], tl.order[w], i.superTime, t, content);
  }

  /** The key of a split is not that of the tree that is split. */
  lemma SplitOff(h: History, start: int, s: int, t: int, m: int)
    requires Sound(h, start) && s in h.index.supers && s in h.index.trees && Keyed(h.index.supers)
    requires Keyed(h.index.trees[s])
    requires |Added(h.index.trees[s], t)| >= 2000 && Keyed(Added(h.index.trees[s], t)) && Floor(h.index.supers, t) != s
    requires var tree := Added(h.index.trees[s], t);
      var right := Walk(tree, BEGINNING_OF_TIME, END_OF_TIME, |tree| / 2);
      right != [] && m == right[|right| - 1]
    ensures m != s
  {
    var x, y := OtherThan(Added(h.index.trees[s], t), t);
    InItsTree(h, start, y);
  }

  /** A history whose full tree is cut in two. */
  lemma HalfUnsound(h: History, h': History, start: int, s: int, t: int)
    requires Sound(h, start) && IsTime(t) && s in h.index.supers && s in h.index.trees && Keyed(h.index.trees[s])
    requires |Added(h.index.trees[s], t)| >= 2000 && Keyed(Added(h.index.trees[s], t))
    requires h'.contents == h.contents && h'.index.supers == h.index.supers && s in h'.index.trees
    requires var tree := Added(h.index.trees[s], t);
      var right := Walk(tree, BEGINNING_OF_TIME, END_OF_TIME, |tree| / 2);
      right != [] ==> h'.index.trees[s] == Kept(tree, right[|right| - 1])
    ensures !Sound(h', start)
  {
    var tree := Added(h.index.trees[s], t);
    var x, _ := OtherThan(tree, t);
    var right := Walk(tree, BEGINNING_OF_TIME, END_OF_TIME, |tree| / 2);
    KeptKeyed(tree, right[|right| - 1]);
    LostUnsound(h, h', start, s, x);
  }

  /** With another world's tree in hand and full, that world loses the greater half of it. */
  lemma SplitUnsound(worlds: map<int, History>, w: int, t: int, content: int, v: int, s: int, start: int)
    requires Holdable(worlds, w, InHand(w, v, s)) && v != w && IsTime(t) && Sound(worlds[v], start)
    requires s in worlds[v].index.supers && Keyed(worlds[v].index.trees[s])
    requires |Added(worlds[v].index.trees[s], t)| == Threshold(|worlds[w].index.supers|)
    ensures Holdable(Landed(worlds, w, t, content), w, InHand(w, v, s))
    ensures !Sound(Indexed(Landed(worlds, w, t, content), w, t, InHand(w, v, s))[v], start)
  {
    var tree := Added(worlds[v].index.trees[s], t);
    AddedKeyed(worlds[v].index.trees[s], t);
    SplitLoses(worlds, w, t, content, v, s, tree);
    HalfUnsound(worlds[v], Indexed(Landed(worlds, w, t, content), w, t, InHand(w, v, s))[v], start, s, t);
  }

  lemma SplitLoses(worlds: map<int, History>, w: int, t: int, content: int, v: int, s: int, tree: seq<int>)
    requires Holdable(worlds, w, InHand(w, v, s)) && v != w && IsTime(t)
    requires tree == Added(worlds[v].index.trees[s], t) && |tree| == Threshold(|worlds[w].index.supers|)
    ensures Holdable(Landed(worlds, w, t, content), w, InHand(w, v, s))
    ensures var h := Indexed(Landed(worlds, w, t, content), w, t, InHand(w, v, s))[v];
      var right := Walk(tree, BEGINNING_OF_TIME, END_OF_TIME, |tree| / 2);
      && h.contents == worlds[v].contents && h.index.supers == worlds[v].index.supers && s in h.index.trees
      && (right != [] ==> h.index.trees[s] == Kept(tree, right[|right| - 1]))
  {
  }

  /** With another world's tree in hand a write is harmless exactly when its state and its entry in that
      tree are there already and nothing is split. */
  lemma WrongTreeBreaks(tl: Timeline, w: int, t: int, content: int, i: InHand)
    requires Inv(tl) && w in tl.forest.depth && IsTime(t) && Resolve(tl, w, t).At?
    requires Usable(tl, Resolve(tl, w, t).place, i)
    requires w in tl.order && !Early(tl, w, t) && i.treeWorld != i.world
    ensures i.superTime in tl.worlds[i.treeWorld].index.trees && Keyed(tl.worlds[i.treeWorld].index.trees[i.superTime])
    ensures Inv(CodeWrite(tl, w, t, content, i)) <==> Idle(tl, w, t, i)
    ensures Idle(tl, w, t, i) ==> CodeWrite(tl, w, t, content, i) == tl
  {
    UsableTree(tl, i.treeWorld, i.superTime);
    OwnWorld(tl, w, t);
    var v, s := i.treeWorld, i.superTime;
    assert i == InHand(w, v, s);
    if |Added(tl.worlds[v].index.trees[s], t)| == Threshold(|tl.worlds[w].index.supers|) {
      SplitUnsound(tl.worlds, w, t, content, v, s, tl.order[v]);
    } else {
      WrongWholeBreaks(tl, w, t, content, v, s);
    }
  }

  lemma WrongWholeBreaks(tl: Timeline, w: int, t: int, content: int, v: int, s: int)
    requires Inv(tl) && w in tl.order && w in tl.worlds && v in tl.worlds && v != w && IsTime(t)
    requires s in tl.worlds[v].index.supers
    requires s in tl.worlds[v].index.trees && Keyed(tl.worlds[v].index.trees[s])
    requires |Added(tl.worlds[v].index.trees[s], t)| != Threshold(|tl.worlds[w].index.supers|)
    ensures var i := InHand(w, v, s);
      && (Inv(CodeWrite(tl, w, t, content, i)) <==> Idle(tl, w, t, i))
      && (Idle(tl, w, t, i) ==> CodeWrite(tl, w, t, content, i) == tl)
  {
    var tl' := CodeWrite(tl, w, t, content, InHand(w, v, s));
    if t !in tl.worlds[v].index.trees[s] {
      Misfiled(tl.worlds[v], tl.order[v], s, t);
      MisplacedUnsound(tl'.worlds[v], tl.order[v], s, t);
    } else {
      SameTree(tl.worlds, v, s);
      if t !in tl.worlds[w].contents {
        UnindexedUnsound(tl.worlds[w], tl'.worlds[w], tl.order[w], t);
      }
    }
  }

  lemma Misfiled(h: History, start: int, s: int, t: int)
    requires Sound(h, start) && s in h.index.supers && s in h.index.trees && t !in h.index.trees[s]
    ensures Keyed(h.index.supers) && !(t in h.contents && Floor(h.index.supers, t) == s)
  {
    InItsTree(h, start, t);
  }

  /** A write that has nothing to do: its state is there, the tree in hand has its time and is not full. */
  predicate Idle(tl: Timeline, w: int, t: int, i: InHand)
    requires i.world in tl.worlds && i.treeWorld in tl.worlds && i.superTime in tl.worlds[i.treeWorld].index.trees
  {
    && w in tl.worlds && t in tl.worlds[w].contents && t in tl.worlds[i.treeWorld].index.trees[i.superTime]
    && |tl.worlds[i.treeWorld].index.trees[i.superTime]| != Threshold(|tl.worlds[i.world].index.supers|)
  }

  /** The writes that keep the invariant, by the chunks in hand. */
  ghost predicate Fitting(tl: Timeline, w: int, t: int, i: InHand)
    requires Inv(tl) && w in tl.forest.depth && Resolve(tl, w, t).At? && Usable(tl, Resolve(tl, w, t).place, i)
  {
    UsableTree(tl, i.treeWorld, i.superTime);
    !Early(tl, w, t) && (RightTree(Resolve(tl, w, t).place, i) || w !in tl.order || Idle(tl, w, t, i))
  }

  /** Exactly when a phased write keeps what all reads rely on: it must not lie before the history its
      world already has, and unless it starts one or has nothing to do, its tree must be that of the
      place it resolved to. */
  lemma CodeWriteSound(tl: Timeline, w: int, t: int, content: int, i: InHand)
    requires Inv(tl) && w in tl.forest.depth && IsTime(t) && Resolve(tl, w, t).At?
    requires Usable(tl, Resolve(tl, w, t).place, i)
    ensures i.superTime in tl.worlds[i.treeWorld].index.trees && Keyed(tl.worlds[i.treeWorld].index.trees[i.superTime])
    ensures Inv(CodeWrite(tl, w, t, content, i)) <==> Fitting(tl, w, t, i)
  {
    if Early(tl, w, t) {
      EarlyBreaks(tl, w, t, content, i);
    } else if RightTree(Resolve(tl, w, t).place, i) || w !in tl.order {
      CodeWriteRight(tl, w, t, content, i);
    } else {
      OwnWorld(tl, w, t);
      if i.treeWorld == i.world {
        WrongStretchBreaks(tl, w, t, content, i);
        WrongStretchBusy(tl, w, t, i);
      } else {
        WrongTreeBreaks(tl, w, t, content, i);
      }
    }
  }

  lemma WrongStretchBusy(tl: Timeline, w: int, t: int, i: InHand)
    requires Inv(tl) && w in tl.forest.depth && IsTime(t) && Resolve(tl, w, t).At?
    requires Usable(tl, Resolve(tl, w, t).place, i)
    requires w in tl.order && !Early(tl, w, t) && i.treeWorld == i.world
    requires i.superTime != Resolve(tl, w, t).place.superTime
    ensures i.superTime in tl.worlds[i.treeWorld].index.trees && !Idle(tl, w, t, i)
  {
    UsableTree(tl, i.treeWorld, i.superTime);
    OwnWorld(tl, w, t);
    ResolvedPlaced(tl, w, t);
  }

  lemma OwnPlace(tl: Timeline, w: int, t: int)
    requires Inv(tl) && w in tl.forest.depth && w in tl.worlds && t in tl.worlds[w].contents
    ensures Keyed(tl.worlds[w].index.supers)
    ensures Resolve(tl, w, t) == At(Place(w, Floor(tl.worlds[w].index.supers, t), t))
  {
    OwnState(tl, w, t);
    InItsTree(tl.worlds[w], tl.order[w], t);
  }

  /** A node that stands for its own state is resolved to it. */
  lemma OwnState(tl: Timeline, w: int, t: int)
    requires Inv(tl) && w in tl.forest.depth && w in tl.worlds && t in tl.worlds[w].contents
    ensures Resolve(tl, w, t).At? && Resolve(tl, w, t).place.world == w && Resolve(tl, w, t).place.time == t
  {
    SoundStart(tl.worlds[w], tl.order[w]);
    ResolveSpec(tl, w, t);
    assert Line(tl.forest, w)[0] == w;
  }

  // ----- what resolveState has in hand -----

  /** The state the node stands for is its own. */
  predicate IsPhased(h: Handle) {
    h.place.world == h.world && h.place.time == h.time
  }

  /** The chunks that resolveState works with.  When the world has moved and the super time happens to
      be the old one, the time tree in hand is still the one of the old world. */
  ghost function HandOf(tl: Timeline, h: Handle): InHand
    requires Inv(tl) && h.world in tl.forest.depth && Resolve(tl, h.world, h.time).At?
  {
    var p := Resolve(tl, h.world, h.time).place;
    if Matches(tl, h) then InHand(h.place.world, h.place.world, h.place.superTime)
    else InHand(p.world, if p.superTime != h.place.superTime then p.world else h.place.world, p.superTime)
  }

  /** A handle as lookups, reads and writes leave it behind: the chunks of its place are there, and while
      its order magic is the current one, its world is the one the node resolves to.  A node that has just been
      made stands on its own state, and has NULL_LONG for its magics. */
  ghost predicate Held(tl: Timeline, h: Handle) {
    && Inv(tl) && h.world in tl.forest.depth && IsTime(h.time) && Resolve(tl, h.world, h.time).At?
    && h.place.world in tl.worlds && h.place.superTime in tl.worlds[h.place.world].index.supers
    && h.place.time in tl.worlds[h.place.world].contents
    && (IsPhased(h) || h.orderMagic <= tl.orderMagic)
    && (h.orderMagic == tl.orderMagic ==> Resolve(tl, h.world, h.time).place.world == h.place.world)
  }

  /** The fast path would be taken, and lead astray. */
  ghost predicate Stale(tl: Timeline, h: Handle)
    requires Held(tl, h)
  {
    Matches(tl, h) && Resolve(tl, h.world, h.time) != At(h.place)
  }

  ghost predicate Trusted(tl: Timeline, h: Handle) {
    Held(tl, h) && !Stale(tl, h)
  }

  lemma RecordedHeld(tl: Timeline, h: Handle)
    requires Recorded(tl, h) && IsTime(h.time)
    ensures Trusted(tl, h)
  {
    PlaceListed(tl, h.world, h.time);
  }

  lemma PlaceListed(tl: Timeline, w: int, t: int)
    requires Inv(tl) && w in tl.forest.depth && Resolve(tl, w, t).At?
    ensures var p := Resolve(tl, w, t).place; p.world in tl.worlds && p.superTime in tl.worlds[p.world].index.supers
    ensures var p := Resolve(tl, w, t).place; p.time in tl.worlds[p.world].contents && p.time <= t
  {
    ResolveSpec(tl, w, t);
    var p := Resolve(tl, w, t).place;
    assert Sound(tl.worlds[p.world], tl.order[p.world]) && Unfold(Topic.Histories, true);
  }

  lemma HandUsable(tl: Timeline, h: Handle)
    requires Held(tl, h)
    ensures Usable(tl, Resolve(tl, h.world, h.time).place, HandOf(tl, h))
  {
    PlaceListed(tl, h.world, h.time);
  }

  /** The time that resolveState arrives at. */
  ghost function FoundTime(tl: Timeline, h: Handle): int
    requires Held(tl, h)
  {
    HandUsable(tl, h);
    var i := HandOf(tl, h);
    UsableTree(tl, i.treeWorld, i.superTime);
    if Matches(tl, h) then h.place.time else Floor(tl.worlds[i.treeWorld].index.trees[i.superTime], h.time)
  }

  /** The fast path, or another world's tree in hand, answers with another time. */
  ghost predicate Misled(tl: Timeline, h: Handle)
    requires Held(tl, h)
  {
    && (Stale(tl, h) || HandOf(tl, h).treeWorld != HandOf(tl, h).world)
    && FoundTime(tl, h) != Resolve(tl, h.world, h.time).place.time
  }

  lemma FoundIs(tl: Timeline, h: Handle)
    requires Held(tl, h)
    ensures var p := Resolve(tl, h.world, h.time).place;
      && HandOf(tl, h).world == p.world && (FoundTime(tl, h) != p.time <==> Misled(tl, h))
      && p.world in tl.worlds && p.time in tl.worlds[p.world].contents
  {
    PlaceListed(tl, h.world, h.time);
  }

  lemma NotMisled(tl: Timeline, h: Handle)
    requires Held(tl, h) && IsPhased(h)
    ensures !Misled(tl, h) && Resolve(tl, h.world, h.time).place.world == h.world
    ensures Resolve(tl, h.world, h.time).place.time == h.time
  {
    OwnState(tl, h.world, h.time);
  }

  // ----- what a read leaves behind -----

  /** The handle after a read: a place that has moved is recorded with the magics of the old place's trees. */
  ghost function Refreshed(tl: Timeline, h: Handle): Handle
    requires Held(tl, h)
  {
    FoundIs(tl, h);
    var place := Place(HandOf(tl, h).world, HandOf(tl, h).superTime, FoundTime(tl, h));
    var old_ := tl.worlds[h.place.world];
    if IsPhased(h) || Matches(tl, h) || place == h.place || place.time !in tl.worlds[place.world].contents then h
    else Handle(h.world, h.time, place, tl.orderMagic, old_.superMagic, MagicAt(old_.treeMagics, h.place.superTime))
  }

  lemma RefreshedHeld(tl: Timeline, h: Handle)
    requires Held(tl, h)
    ensures Held(tl, Refreshed(tl, h))
  {
    FoundIs(tl, h);
    PlaceListed(tl, h.world, h.time);
  }

  /** A magic that the chunks of the place have left behind for good. */
  predicate Outgrown(tl: Timeline, h: Handle)
    requires h.place.world in tl.worlds
  {
    || h.orderMagic < tl.orderMagic || h.superMagic < tl.worlds[h.place.world].superMagic
    || h.treeMagic < MagicAt(tl.worlds[h.place.world].treeMagics, h.place.superTime)
  }

  /** The magic of the tree that the place is in. */
  function TreeMagicOf(tl: Timeline, h: Handle): nat
    requires h.place.world in tl.worlds
  {
    MagicAt(tl.worlds[h.place.world].treeMagics, h.place.superTime)
  }

  /** Either the place is right and its tree is as recorded, or the fast path will not be taken again. */
  ghost predicate Sure(tl: Timeline, h: Handle) {
    && Held(tl, h) && h.orderMagic <= tl.orderMagic
    && ((Resolve(tl, h.world, h.time) == At(h.place) && h.treeMagic == TreeMagicOf(tl, h)) || Outgrown(tl, h))
  }

  lemma RecordedSure(tl: Timeline, h: Handle)
    requires Recorded(tl, h) && IsTime(h.time)
    ensures Sure(tl, h)
  {
    RecordedHeld(tl, h);
  }

  /** The reads after which the handle is sure, by the magics of the old place's trees and the new one's: one of
      the magics is the smaller, or those of the time trees are the same and the read was not misled. */
  ghost predicate Orderly(tl: Timeline, h: Handle)
    requires Held(tl, h)
  {
    FoundIs(tl, h);
    var p, q := h.place, Resolve(tl, h.world, h.time).place;
    var m, n := tl.worlds[p.world].superMagic, tl.worlds[q.world].superMagic;
    var k, l := MagicAt(tl.worlds[p.world].treeMagics, p.superTime),
      MagicAt(tl.worlds[q.world].treeMagics, q.superTime);
    m < n || k < l || (k == l && !Misled(tl, h))
  }

  /** Exactly when a handle that a read has moved is sure. */
  lemma RefreshedSure(tl: Timeline, h: Handle)
    requires Held(tl, h) && Refreshed(tl, h) != h
    ensures Sure(tl, Refreshed(tl, h)) <==> Orderly(tl, h)
  {
    FoundIs(tl, h);
    RefreshedHeld(tl, h);
    var q := Resolve(tl, h.world, h.time).place;
    var h' := Refreshed(tl, h);
    assert h'.place == Place(q.world, q.superTime, FoundTime(tl, h));
    assert At(h'.place) == Resolve(tl, h.world, h.time) <==> !Misled(tl, h);
  }

  // ----- handles over whole runs -----

  lemma StepHeld(tl: Timeline, step: Step, h: Handle)
    requires Allowed(tl, step) && Held(tl, h)
    ensures Held(After(tl, step), h)
  {
    var tl' := After(tl, step);
    StepKeeps(tl, step);
    StepFound(tl, step, h.world, h.time);
    StepRose(tl, step, h.place.world, h.place.superTime);
    StepContents(tl, step, h.place.world);
    if IsPhased(h) {
      OwnState(tl', h.world, h.time);
    } else {
      StepWorld(tl, step, h.world, h.time);
    }
  }

  /** While the order stays, a read stays in its world. */
  lemma StepWorld(tl: Timeline, step: Step, w: int, t: int)
    requires Allowed(tl, step) && w in tl.forest.depth && Resolve(tl, w, t).At?
    ensures var tl' := After(tl, step);
      && Inv(tl') && w in tl'.forest.depth && Resolve(tl', w, t).At? && tl.orderMagic <= tl'.orderMagic
      && (tl'.orderMagic == tl.orderMagic ==>
            tl'.order == tl.order && Resolve(tl', w, t).place.world == Resolve(tl, w, t).place.world)
  {
    var tl' := After(tl, step);
    StepKeeps(tl, step);
    StepFound(tl, step, w, t);
    ResolveSpec(tl, w, t);
    ResolveSpec(tl', w, t);
    PlaceListed(tl, w, t);
    var p := Resolve(tl, w, t).place;
    StepRose(tl, step, p.world, p.superTime);
    assert Line(tl'.forest, w) == Line(tl.forest, w);
  }

  lemma StepContents(tl: Timeline, step: Step, w: int)
    requires Allowed(tl, step) && w in tl.worlds
    ensures w in After(tl, step).worlds && tl.worlds[w].contents.Keys <= After(tl, step).worlds[w].contents.Keys
  {
    if step.Phased? {
      WriteParts(tl, step.world, step.time, step.content);
    }
  }

  /** A new key of the super tree that is not in the stretch of s leaves the times of that stretch there. */
  lemma SplitElsewhereFloor(h: History, start: int, s: int, t: int, content: int, s': int, x: int)
    requires Sound(h, start) && Placed(h, s, t) && s' in h.index.supers && s' != s && Keyed(h.index.supers)
    requires Floor(h.index.supers, x) == s'
    ensures var h' := Extended(h, s, t, content);
      && Keyed(h'.index.supers) && Floor(h'.index.supers, x) == s'
      && s' in h.index.trees && s' in h'.index.trees && h'.index.trees[s'] == h.index.trees[s']
  {
    assert Unfold(Topic.Histories, true);
    assert TreeOk(h.index, h.contents.Keys, s) && TreeOk(h.index, h.contents.Keys, s');
    ExtendedParts(h, start, s, t, content);
    if |Added(h.index.trees[s], t)| == Threshold(|h.index.supers|) {
      SplitTrees(h.index, h.contents.Keys, s, t);
      FloorAdded(h.index.supers, Insert(h.index, s, t).supers[|h.index.supers|], x);
    }
  }

  /** A write of a time that is there changes no tree and no magic. */
  lemma ExtendedSame(h: History, start: int, s: int, t: int, content: int)
    requires Sound(h, start) && Placed(h, s, t) && t in h.contents
    ensures var h' := Extended(h, s, t, content);
      h'.index == h.index && h'.superMagic == h.superMagic && h'.treeMagics == h.treeMagics
  {
    assert Unfold(Topic.Histories, true);
    assert TreeOk(h.index, h.contents.Keys, s);
    assert h.index.trees[s := h.index.trees[s]] == h.index.trees;
  }

  /** A new time in a tree, with or without a split, makes its magic rise. */
  lemma ExtendedMagic(h: History, start: int, s: int, t: int, content: int)
    requires Sound(h, start) && Placed(h, s, t) && t !in h.contents
    ensures MagicAt(Extended(h, s, t, content).treeMagics, s) > MagicAt(h.treeMagics, s)
  {
    InItsTree(h, start, t);
    if |Added(h.index.trees[s], t)| == Threshold(|h.index.supers|) {
      SplitElsewhere(h, start, s, t);
    }
  }

  /** A right place stays right while the order and its time tree have the same magics. */
  lemma StepRight(tl: Timeline, step: Step, h: Handle)
    requires Allowed(tl, step) && Held(tl, h) && Resolve(tl, h.world, h.time) == At(h.place)
    requires h.place.world in After(tl, step).worlds && After(tl, step).orderMagic == tl.orderMagic
    requires TreeMagicOf(After(tl, step), h) == TreeMagicOf(tl, h)
    ensures Held(After(tl, step), h) && Resolve(After(tl, step), h.world, h.time) == At(h.place)
  {
    var tl' := After(tl, step);
    StepHeld(tl, step, h);
    StepKeeps(tl, step);
    assert Line(tl'.forest, h.world) == Line(tl.forest, h.world);
    if step.Phased? {
      OwnWorld(tl, step.world, step.time);
      ResolvedPlaced(tl, step.world, step.time);
      WrittenRight(tl, step, h);
    }
  }

  lemma WrittenRight(tl: Timeline, step: Step, h: Handle)
    requires step.Phased? && Allowed(tl, step) && Held(tl, h) && Resolve(tl, h.world, h.time) == At(h.place)
    requires After(tl, step).order == tl.order && Inv(After(tl, step)) && After(tl, step).forest == tl.forest
    requires h.place.world in After(tl, step).worlds && TreeMagicOf(After(tl, step), h) == TreeMagicOf(tl, h)
    ensures Resolve(After(tl, step), h.world, h.time) == At(h.place)
  {
    var w, t, content := step.world, step.time, step.content;
    var p, history := Resolve(tl, w, t).place, tl.worlds[h.place.world];
    ResolvedPlaced(tl, w, t);
    OwnWorld(tl, w, t);
    if w == h.place.world && w in tl.order {
      if t in history.contents {
        ExtendedSame(history, tl.order[w], p.superTime, t, content);
      } else {
        ExtendedMagic(history, tl.order[w], p.superTime, t, content);
      }
      PlaceListed(tl, h.world, h.time);
      InItsTree(history, tl.order[w], h.time);
      if p.superTime != h.place.superTime {
        SplitElsewhereFloor(history, tl.order[w], p.superTime, t, content, h.place.superTime, h.time);
      }
    }
  }

  /** What makes a handle sure stays until a magic is left behind, and that is for good. */
  lemma StepSure(tl: Timeline, step: Step, h: Handle)
    requires Allowed(tl, step) && Sure(tl, h)
    ensures Sure(After(tl, step), h)
  {
    StepHeld(tl, step, h);
    StepRose(tl, step, h.place.world, h.place.superTime);
    if !Outgrown(After(tl, step), h) {
      StepRight(tl, step, h);
    }
  }

  /** A handle that is sure can be relied on in every state of every run. */
  lemma {:induction false} RunSure(states: seq<Timeline>, steps: seq<Step>, n: nat, h: Handle)
    requires Run(states, steps) && n <= |steps| && Sure(states[0], h)
    ensures Sure(states[n], h) && Trusted(states[n], h)
  {
    if n > 0 {
      RunSure(states, steps, n - 1, h);
      StepSure(states[n - 1], steps[n - 1], h);
    }
  }

  /** What lookup records can be relied on over any run, and so can what an orderly read records. */
  lemma RecordedTrusted(states: seq<Timeline>, steps: seq<Step>, n: nat, h: Handle)
    requires Run(states, steps) && Recorded(states[0], h) && n <= |steps| && IsTime(h.time)
    ensures Sure(states[n], h) && Trusted(states[n], h)
  {
    RecordedSure(states[0], h);
    RunSure(states, steps, n, h);
  }

  lemma RefreshedTrusted(states: seq<Timeline>, steps: seq<Step>, n: nat, h: Handle)
    requires Run(states, steps) && n <= |steps| && Held(states[0], h) && Refreshed(states[0], h) != h
    requires Orderly(states[0], h)
    ensures Sure(states[n], Refreshed(states[0], h)) && Trusted(states[n], Refreshed(states[0], h))
  {
    RefreshedSure(states[0], h);
    RunSure(states, steps, n, Refreshed(states[0], h));
  }

  /** A write that splits nothing puts one more time into one tree, whose magic rises by one. */
  lemma OneMore(tl: Timeline, w: int, t: int, content: int)
    requires Allowed(tl, Phased(w, t, content)) && w in tl.worlds && t !in tl.worlds[w].contents
    requires Keyed(tl.worlds[w].index.supers)
    requires var s := Floor(tl.worlds[w].index.supers, t);
      s in tl.worlds[w].index.trees && |tl.worlds[w].index.trees[s]| + 1 < Threshold(|tl.worlds[w].index.supers|)
    ensures var tl' := After(tl, Phased(w, t, content)); var s := Floor(tl.worlds[w].index.supers, t);
      && tl'.orderMagic == tl.orderMagic && w in tl'.worlds && tl'.worlds[w].superMagic == tl.worlds[w].superMagic
      && tl'.worlds[w].index == Index(tl.worlds[w].index.supers,
        tl.worlds[w].index.trees[s := tl.worlds[w].index.trees[s] + [t]])
      && MagicAt(tl'.worlds[w].treeMagics, s) == MagicAt(tl.worlds[w].treeMagics, s) + 1
      && tl'.worlds[w].contents == tl.worlds[w].contents[t := content]
  {
    OwnWorld(tl, w, t);
    ResolvedPlaced(tl, w, t);
    InItsTree(tl.worlds[w], tl.order[w], t);
  }

  // ----- exactly when a handle can be relied on -----

  /** Different times in the stretch of s at which there is no state, and that do not fill the tree. */
  ghost predicate Free(history: History, s: int, ts: seq<int>) {
    forall b {:trigger Unfold(Topic.Histories, b)} :: Unfold(Topic.Histories, b) ==>
      && Distinct(ts) && s in history.index.trees && Keyed(history.index.supers)
      && (forall t <- ts :: IsTime(t) && t !in history.contents && Floor(history.index.supers, t) == s)
      && |history.index.trees[s]| + |ts| < Threshold(|history.index.supers|)
  }

  lemma FreeFirst(history: History, s: int, ts: seq<int>)
    requires Free(history, s, ts) && ts != []
    ensures s in history.index.trees && Keyed(history.index.supers) && IsTime(ts[0]) && ts[0] !in history.contents
    ensures Floor(history.index.supers, ts[0]) == s && |history.index.trees[s]| + 1 < Threshold(|history.index.supers|)
  {
    assert Unfold(Topic.Histories, true) && ts[0] in ts;
  }

  lemma FreeRest(history: History, history': History, s: int, t: int, content: int, ts: seq<int>)
    requires Free(history, s, [t] + ts) && s in history.index.trees
    requires history'.contents == history.contents[t := content]
    requires history'.index == Index(history.index.supers, history.index.trees[s := history.index.trees[s] + [t]])
    ensures Free(history', s, ts)
  {
    assert Unfold(Topic.Histories, true);
    var all := [t] + ts;
    forall x | x in ts ensures x in all && x != t {
      var k :| 0 <= k < |ts| && ts[k] == x;
      assert all[k + 1] == x && all[0] == t && all[0] != all[k + 1];
    }
    forall i, j | 0 <= i < j < |ts| ensures ts[i] != ts[j] {
      assert all[i + 1] == ts[i] && all[j + 1] == ts[j];
    }
  }

  /** The order and the super tree are as recorded, and the time tree will be after that many changes. */
  ghost predicate Ahead(tl: Timeline, h: Handle, d: int) {
    && Held(tl, h) && h.orderMagic == tl.orderMagic && h.superMagic == tl.worlds[h.place.world].superMagic
    && h.treeMagic == TreeMagicOf(tl, h) + d
  }

  /** Writes of these times make all magics match at a place that is wrong, by then if not now. */
  ghost predicate Catches(tl: Timeline, h: Handle, ts: seq<int>) {
    && Ahead(tl, h, |ts|) && Free(tl.worlds[h.place.world], h.place.superTime, ts)
    && (Resolve(tl, h.world, h.time) != At(h.place) || exists t <- ts :: h.place.time < t <= h.time)
  }

  ghost predicate Mistakable(tl: Timeline, h: Handle) {
    exists ts :: Catches(tl, h, ts)
  }

  /** The handle is right whenever its magics match, whatever is born or written from now on. */
  ghost predicate Lasting(tl: Timeline, h: Handle) {
    forall states, steps :: Run(states, steps) && states[0] == tl ==> Trusted(states[|steps|], h)
  }

  lemma SureLasting(tl: Timeline, h: Handle)
    requires Sure(tl, h)
    ensures Lasting(tl, h)
  {
    forall states, steps | Run(states, steps) && states[0] == tl ensures Trusted(states[|steps|], h) {
      RunSure(states, steps, |steps|, h);
    }
  }

  /** A write in the stretch of a tree goes to that tree. */
  lemma InStretch(tl: Timeline, w: int, s: int, t: int, content: int)
    requires Inv(tl) && w in tl.worlds && IsTime(t)
    requires Keyed(tl.worlds[w].index.supers) && s in tl.worlds[w].index.supers
    requires Floor(tl.worlds[w].index.supers, t) == s
    ensures w in tl.order && Allowed(tl, Phased(w, t, content))
  {
    assert Sound(tl.worlds[w], tl.order[w]) && Unfold(Topic.Histories, true);
    assert TreeOk(tl.worlds[w].index, tl.worlds[w].contents.Keys, s);
    assert Line(tl.forest, w)[0] == w && DivergedBy(tl.order, w, t);
    ResolveSpec(tl, w, t);
  }

  /** A place that is wrong stays wrong while the super tree stays, and a later state at or before the node's time
      makes it wrong. */
  lemma WrongStays(tl: Timeline, tl': Timeline, h: Handle, x: int)
    requires Held(tl, h) && Held(tl', h) && h.orderMagic == tl.orderMagic == tl'.orderMagic
    requires tl'.worlds[h.place.world].index.supers == tl.worlds[h.place.world].index.supers
    requires tl.worlds[h.place.world].contents.Keys <= tl'.worlds[h.place.world].contents.Keys
    requires Resolve(tl, h.world, h.time) != At(h.place)
      || (x in tl'.worlds[h.place.world].contents && h.place.time < x <= h.time)
    ensures Resolve(tl', h.world, h.time) != At(h.place)
  {
    ResolveSpec(tl, h.world, h.time);
    ResolveSpec(tl', h.world, h.time);
  }

  /** One of the times that are to be written is written. */
  lemma StepCatches(tl: Timeline, h: Handle, t: int, content: int, ts: seq<int>)
    requires Catches(tl, h, [t] + ts)
    ensures Allowed(tl, Phased(h.place.world, t, content))
    ensures Catches(After(tl, Phased(h.place.world, t, content)), h, ts)
  {
    var w, s, step := h.place.world, h.place.superTime, Phased(h.place.world, t, content);
    FreeFirst(tl.worlds[w], s, [t] + ts);
    InStretch(tl, w, s, t, content);
    var tl' := After(tl, step);
    StepHeld(tl, step, h);
    OneMore(tl, w, t, content);
    FreeRest(tl.worlds[w], tl'.worlds[w], s, t, content, ts);
    if Resolve(tl', h.world, h.time) == At(h.place) {
      StillToCome(tl, tl', h, t, ts);
    }
  }

  lemma StillToCome(tl: Timeline, tl': Timeline, h: Handle, t: int, ts: seq<int>)
    requires Held(tl, h) && Held(tl', h) && h.orderMagic == tl.orderMagic == tl'.orderMagic
    requires Resolve(tl, h.world, h.time) != At(h.place) || exists x <- [t] + ts :: h.place.time < x <= h.time
    requires tl'.worlds[h.place.world].index.supers == tl.worlds[h.place.world].index.supers
    requires t in tl'.worlds[h.place.world].contents
    requires tl.worlds[h.place.world].contents.Keys <= tl'.worlds[h.place.world].contents.Keys
    requires Resolve(tl', h.world, h.time) == At(h.place)
    ensures exists x <- ts :: h.place.time < x <= h.time
  {
    if Resolve(tl, h.world, h.time) != At(h.place) {
      WrongStays(tl, tl', h, t);
      assert false;
    } else {
      var x :| x in [t] + ts && h.place.time < x <= h.time;
      if x == t {
        WrongStays(tl, tl', h, t);
        assert false;
      }
      assert x in ts;
    }
  }

  /** The times are written in the world, one after the other. */
  ghost predicate Writes(steps: seq<Step>, w: int, ts: seq<int>) {
    |steps| == |ts| && forall k :: 0 <= k < |steps| ==>
      steps[k].Phased? && steps[k].world == w && steps[k].time == ts[k]
  }

  /** `Catches` and `Run`, for callers to pass on: their definitions come into play only where `Unfold` is
      mentioned. */
  ghost predicate Catching(tl: Timeline, h: Handle, ts: seq<int>) {
    forall b {:trigger Unfold(Topic.Histories, b)} :: Unfold(Topic.Histories, b) ==> Catches(tl, h, ts)
  }

  ghost predicate Running(states: seq<Timeline>, steps: seq<Step>) {
    |states| == |steps| + 1
    && forall b {:trigger Unfold(Topic.Histories, b)} :: Unfold(Topic.Histories, b) ==> Run(states, steps)
  }

  lemma CatchingStep(tl: Timeline, h: Handle, t: int, content: int, ts: seq<int>)
    requires Catching(tl, h, [t] + ts)
    ensures Allowed(tl, Phased(h.place.world, t, content))
    ensures Catching(After(tl, Phased(h.place.world, t, content)), h, ts)
  {
    assert Unfold(Topic.Histories, true);
    StepCatches(tl, h, t, content, ts);
  }

  lemma RunningStep(states: seq<Timeline>, steps: seq<Step>, n: nat)
    requires Running(states, steps) && n < |steps|
    ensures Allowed(states[n], steps[n]) && states[n + 1] == After(states[n], steps[n])
  {
    assert Unfold(Topic.Histories, true);
  }

  lemma StepCatching(states: seq<Timeline>, steps: seq<Step>, n: nat, h: Handle, ts: seq<int>)
    requires Running(states, steps) && n < |steps| && Writes(steps, h.place.world, ts)
    requires Catching(states[n], h, ts[n..])
    ensures Catching(states[n + 1], h, ts[n + 1..])
  {
    assert ts[n..] == [ts[n]] + ts[n + 1..];
    assert steps[n] == Phased(h.place.world, ts[n], steps[n].content);
    RunningStep(states, steps, n);
    CatchingStep(states[n], h, ts[n], steps[n].content, ts[n + 1..]);
  }

  lemma {:induction false} StaysCatching(states: seq<Timeline>, steps: seq<Step>, n: nat, h: Handle, ts: seq<int>)
    requires Running(states, steps) && n <= |steps| && Writes(steps, h.place.world, ts) && Catching(states[0], h, ts)
    ensures Catching(states[n], h, ts[n..])
  {
    if n == 0 {
      assert ts[0..] == ts;
    } else {
      StaysCatching(states, steps, n - 1, h, ts);
      StepCatching(states, steps, n - 1, h, ts);
    }
  }

  /** Such writes lead a handle astray. */
  lemma WritesMislead(states: seq<Timeline>, steps: seq<Step>, h: Handle, ts: seq<int>)
    requires Run(states, steps) && Writes(steps, h.place.world, ts) && Catches(states[0], h, ts)
    ensures Held(states[|steps|], h) && Stale(states[|steps|], h)
  {
    StaysCatching(states, steps, |ts|, h, ts);
    assert ts[|ts|..] == [] && Unfold(Topic.Histories, true);
  }

  lemma RunFrom(tl: Timeline, step: Step, states: seq<Timeline>, steps: seq<Step>)
    requires Allowed(tl, step) && Run(states, steps) && states[0] == After(tl, step)
    ensures Run([tl] + states, [step] + steps)
  {
    var states', steps' := [tl] + states, [step] + steps;
    forall i | 0 <= i < |steps'| ensures Allowed(states'[i], steps'[i])
      && states'[i + 1] == After(states'[i], steps'[i]) {
      if i > 0 {
        assert states'[i] == states[i - 1] && states'[i + 1] == states[i] && steps'[i] == steps[i - 1];
      }
    }
  }

  /** And they can be made. */
  lemma {:induction false} WritesRun(tl: Timeline, h: Handle, ts: seq<int>, content: int)
    returns (states: seq<Timeline>, steps: seq<Step>)
    requires Catches(tl, h, ts)
    ensures Run(states, steps) && states[0] == tl && Writes(steps, h.place.world, ts)
    decreases |ts|
  {
    if ts == [] {
      states, steps := [tl], [];
    } else {
      var step := Phased(h.place.world, ts[0], content);
      assert ts == [ts[0]] + ts[1..];
      StepCatches(tl, h, ts[0], content, ts[1..]);
      var states', steps' := WritesRun(After(tl, step), h, ts[1..], content);
      RunFrom(tl, step, states', steps');
      states, steps := [tl] + states', [step] + steps';
    }
  }

  /** A tree with some more times behind the ones it had, and its magic with it; no tree has been split. */
  ghost predicate Lengthened(h: History, h': History, s: int) {
    && h'.index.supers == h.index.supers && s in h.index.trees && s in h'.index.trees
    && h.index.trees[s] <= h'.index.trees[s]
    && MagicAt(h'.treeMagics, s) - MagicAt(h.treeMagics, s) == |h'.index.trees[s]| - |h.index.trees[s]|
  }

  lemma ExtendedLengthens(h: History, start: int, s: int, t: int, content: int, s': int)
    requires Sound(h, start) && Placed(h, s, t) && s' in h.index.supers
    requires Extended(h, s, t, content).superMagic == h.superMagic
    ensures Lengthened(h, Extended(h, s, t, content), s')
  {
    assert Unfold(Topic.Histories, true);
    assert TreeOk(h.index, h.contents.Keys, s) && TreeOk(h.index, h.contents.Keys, s');
    if |Added(h.index.trees[s], t)| == Threshold(|h.index.supers|) {
      SplitElsewhere(h, start, s, t);
      assert false;
    }
  }

  lemma StepLengthens(tl: Timeline, step: Step, w: int, s: int)
    requires Allowed(tl, step) && w in tl.worlds && s in tl.worlds[w].index.supers
    requires w in After(tl, step).worlds && After(tl, step).worlds[w].superMagic == tl.worlds[w].superMagic
    ensures Lengthened(tl.worlds[w], After(tl, step).worlds[w], s)
  {
    HistoryRoseSame(tl.worlds[w], tl.order[w], s);
    if step.Phased? {
      OwnWorld(tl, step.world, step.time);
      if w == step.world && !Early(tl, w, step.time) {
        ResolvedPlaced(tl, w, step.time);
        var s' := Resolve(tl, w, step.time).place.superTime;
        ExtendedLengthens(tl.worlds[w], tl.order[w], s', step.time, step.content, s);
      }
    }
  }

  lemma {:induction false} RunLengthens(states: seq<Timeline>, steps: seq<Step>, n: nat, w: int, s: int)
    requires Run(states, steps) && Inv(states[0]) && n <= |steps|
    requires w in states[0].worlds && s in states[0].worlds[w].index.supers
    requires w in states[n].worlds && states[n].worlds[w].superMagic == states[0].worlds[w].superMagic
    ensures Lengthened(states[0].worlds[w], states[n].worlds[w], s)
  {
    if n == 0 {
      HistoryRoseSame(states[0].worlds[w], states[0].order[w], s);
    } else {
      RunRose(states, steps, n - 1, w, s);
      StepRose(states[n - 1], steps[n - 1], w, s);
      RunLengthens(states, steps, n - 1, w, s);
      StepLengthens(states[n - 1], steps[n - 1], w, s);
    }
  }

  /** The times that a tree has got were free. */
  lemma NewTimesFree(h: History, h': History, start: int, start': int, s: int)
    requires Sound(h, start) && Sound(h', start') && Lengthened(h, h', s) && s in h.index.supers
    ensures Free(h, s, h'.index.trees[s][|h.index.trees[s]|..])
  {
    assert Unfold(Topic.Histories, true);
    assert TreeOk(h.index, h.contents.Keys, s) && TreeOk(h'.index, h'.contents.Keys, s);
    var tree, n := h'.index.trees[s], |h.index.trees[s]|;
    var ts := tree[n..];
    forall t | t in ts ensures IsTime(t) && t !in h.contents && Floor(h.index.supers, t) == s {
      var k :| 0 <= k < |ts| && ts[k] == t;
      assert tree[n + k] == t && t in tree;
      assert forall j :: 0 <= j < n ==> h.index.trees[s][j] == tree[j] && tree[j] != t;
    }
  }

  /** A place that was right and is not any more has been passed by a new time of its tree. */
  lemma Passed(tl: Timeline, tl': Timeline, h: Handle)
    requires Held(tl, h) && Held(tl', h) && h.orderMagic == tl.orderMagic == tl'.orderMagic
    requires Lengthened(tl.worlds[h.place.world], tl'.worlds[h.place.world], h.place.superTime)
    requires Resolve(tl, h.world, h.time) == At(h.place) && Resolve(tl', h.world, h.time) != At(h.place)
    ensures var s := h.place.superTime;
      var before, after := tl.worlds[h.place.world].index.trees[s], tl'.worlds[h.place.world].index.trees[s];
      exists t <- after[|before|..] :: h.place.time < t <= h.time
  {
    var w, s := h.place.world, h.place.superTime;
    var before, after := tl.worlds[w].index.trees[s], tl'.worlds[w].index.trees[s];
    ResolveSpec(tl, h.world, h.time);
    ResolveSpec(tl', h.world, h.time);
    InItsTree(tl.worlds[w], tl.order[w], h.time);
    var f := Resolve(tl', h.world, h.time).place.time;
    InItsTree(tl'.worlds[w], tl'.order[w], f);
    InItsTree(tl.worlds[w], tl.order[w], f);
    assert f in after && h.place.time < f <= h.time;
    var k :| 0 <= k < |after| && after[k] == f;
    assert forall j :: 0 <= j < |before| ==> before[j] == after[j] && before[j] in before;
    var ts := after[|before|..];
    assert ts[k - |before|] == f;
    assert f in ts;
  }

  /** What a tree has got when a handle has been led astray are times that catch it. */
  lemma CaughtBy(tl: Timeline, tl': Timeline, h: Handle)
    requires Held(tl, h) && Held(tl', h) && Stale(tl', h) && h.orderMagic == tl.orderMagic
    requires h.superMagic == tl.worlds[h.place.world].superMagic
    requires Lengthened(tl.worlds[h.place.world], tl'.worlds[h.place.world], h.place.superTime)
    ensures Mistakable(tl, h)
  {
    var w, s := h.place.world, h.place.superTime;
    var ts := tl'.worlds[w].index.trees[s][|tl.worlds[w].index.trees[s]|..];
    NewTimesFree(tl.worlds[w], tl'.worlds[w], tl.order[w], tl'.order[w], s);
    if Resolve(tl, h.world, h.time) == At(h.place) {
      Passed(tl, tl', h);
    }
    assert Catches(tl, h, ts);
  }

  /** Whenever a handle is led astray, there were times that catch it. */
  lemma StaleCatches(states: seq<Timeline>, steps: seq<Step>, n: nat, h: Handle)
    requires Run(states, steps) && n <= |steps| && Held(states[0], h) && Held(states[n], h) && Stale(states[n], h)
    requires h.orderMagic <= states[0].orderMagic && h.superMagic <= states[0].worlds[h.place.world].superMagic
    ensures Mistakable(states[0], h)
  {
    RunRose(states, steps, n, h.place.world, h.place.superTime);
    RunLengthens(states, steps, n, h.place.world, h.place.superTime);
    CaughtBy(states[0], states[n], h);
  }

  lemma {:induction false} RunHeld(states: seq<Timeline>, steps: seq<Step>, n: nat, h: Handle)
    requires Run(states, steps) && n <= |steps| && Held(states[0], h)
    ensures Held(states[n], h)
  {
    if n > 0 {
      RunHeld(states, steps, n - 1, h);
      StepHeld(states[n - 1], steps[n - 1], h);
    }
  }

  /** Exactly when a handle that is not ahead of the order and the super tree can be relied on in every state of
      every run. */
  lemma LastingExact(tl: Timeline, h: Handle)
    requires Held(tl, h)
    requires h.orderMagic <= tl.orderMagic && h.superMagic <= tl.worlds[h.place.world].superMagic
    ensures Lasting(tl, h) <==> !Mistakable(tl, h)
  {
    if ts :| Catches(tl, h, ts) {
      var states, steps := WritesRun(tl, h, ts, 0);
      WritesMislead(states, steps, h, ts);
      assert Run(states, steps) && states[0] == tl && !Trusted(states[|steps|], h);
    } else {
      forall states, steps | Run(states, steps) && states[0] == tl ensures Trusted(states[|steps|], h) {
        RunHeld(states, steps, |steps|, h);
        if Stale(states[|steps|], h) {
          StaleCatches(states, steps, |steps|, h);
        }
      }
    }
  }

  /** What a read records: safe after an orderly read, and otherwise, while the super tree is not behind, exactly
      when no times catch it. */
  lemma RefreshedLasting(tl: Timeline, h: Handle)
    requires Held(tl, h) && Refreshed(tl, h) != h
    ensures var h' := Refreshed(tl, h);
      && Held(tl, h') && (Orderly(tl, h) ==> Lasting(tl, h'))
      && (h'.superMagic <= tl.worlds[h'.place.world].superMagic ==> (Lasting(tl, h') <==> !Mistakable(tl, h')))
  {
    var h' := Refreshed(tl, h);
    RefreshedHeld(tl, h);
    RefreshedSure(tl, h);
    if Orderly(tl, h) {
      SureLasting(tl, h');
    }
    if h'.superMagic <= tl.worlds[h'.place.world].superMagic {
      LastingExact(tl, h');
    }
  }

  // ----- what a write leaves behind -----

  datatype StateRef = NoState | StateOf(world: int, time: int) | Stray

  /** The key of the tree that a time is in after it has been entered. */
  function SuperTimeAfter(worlds: map<int, History>, t: int, i: InHand): int
    requires i.world in worlds && i.treeWorld in worlds && i.superTime in worlds[i.treeWorld].index.trees
    requires IsTime(t) && forall k <- worlds[i.treeWorld].index.trees[i.superTime] :: IsTime(k)
  {
    var tree := Added(worlds[i.treeWorld].index.trees[i.superTime], t);
    if |tree| != Threshold(|worlds[i.world].index.supers|) then i.superTime
    else
      var right := Walk(tree, BEGINNING_OF_TIME, END_OF_TIME, |tree| / 2);
      var median := if right == [] then -1 else right[|right| - 1];
      if t >= median then median else i.superTime
  }

  /** The tree in hand is split, and the time goes to the new one. */
  predicate GoesRight(worlds: map<int, History>, t: int, i: InHand)
    requires i.world in worlds && i.treeWorld in worlds && i.superTime in worlds[i.treeWorld].index.trees
    requires IsTime(t) && forall k <- worlds[i.treeWorld].index.trees[i.superTime] :: IsTime(k)
  {
    var tree := Added(worlds[i.treeWorld].index.trees[i.superTime], t);
    && |tree| == Threshold(|worlds[i.world].index.supers|)
    && var right := Walk(tree, BEGINNING_OF_TIME, END_OF_TIME, |tree| / 2);
    t >= if right == [] then -1 else right[|right| - 1]
  }

  lemma LandedSame(worlds: map<int, History>, w: int, t: int, content: int, i: InHand)
    requires Holdable(worlds, w, i) && IsTime(t)
    ensures var w0 := Landed(worlds, w, t, content);
      && Holdable(w0, w, i) && SuperTimeAfter(w0, t, i) == SuperTimeAfter(worlds, t, i)
      && GoesRight(w0, t, i) == GoesRight(worlds, t, i)
      && w0.Keys == worlds.Keys && forall v <- worlds :: w0[v].superMagic == worlds[v].superMagic
  {
  }
}
