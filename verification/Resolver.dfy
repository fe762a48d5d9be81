/** MWGResolver for one node: lookups, and resolveState with its cached place, branch by branch. */
module Resolvers {
  import opened Hiding
  import opened Constants
  import opened TimeLine
  import opened Worlds
  import opened TimeIndex
  import opened Timelines
  import opened Handles

  // ----- writes through a handle -----

  /** After a fitting write the node is resolved to its own state, by the super time it has recorded. */
  lemma PlacedAfter(tl: Timeline, w: int, t: int, content: int, i: InHand)
    requires Inv(tl) && w in tl.forest.depth && IsTime(t) && Resolve(tl, w, t).At?
    requires Usable(tl, Resolve(tl, w, t).place, i)
    requires !Early(tl, w, t) && (RightTree(Resolve(tl, w, t).place, i) || w !in tl.order)
    ensures i.superTime in tl.worlds[i.treeWorld].index.trees && Keyed(tl.worlds[i.treeWorld].index.trees[i.superTime])
    ensures var tl' := CodeWrite(tl, w, t, content, i);
      Inv(tl') && Resolve(tl', w, t) == At(Place(w, if w in tl.order then SuperTimeAfter(tl.worlds, t, i) else t, t))
  {
    CodeWriteRight(tl, w, t, content, i);
    OwnWorld(tl, w, t);
    var tl' := CodeWrite(tl, w, t, content, i);
    if w in tl.worlds && t in tl.worlds[w].contents {
      OwnPlace(tl, w, t);
      UsableTree(tl, i.treeWorld, i.superTime);
      RewriteRight(tl, w, t, content, i);
    } else {
      WriteParts(tl, w, t, content);
      OwnPlace(tl', w, t);
      WrittenHistory(tl, w, t, content, i);
      if w in tl.order {
        ResolvedPlaced(tl, w, t);
        ExtendedFloor(tl.worlds[w], tl.order[w], i.superTime, t, content);
        SuperTimeLocal(tl.worlds, w, t, i.superTime);
      } else {
        assert Floor([t], t) == t;
      }
    }
  }

  lemma SuperTimeLocal(worlds: map<int, History>, w: int, t: int, s: int)
    requires w in worlds && s in worlds[w].index.trees && IsTime(t) && forall k <- worlds[w].index.trees[s] :: IsTime(k)
    ensures SuperTimeAfter(worlds, t, InHand(w, w, s)) == SuperTimeAfter(map[0 := worlds[w]], t, InHand(0, 0, s))
  {
  }

  lemma WrittenHistory(tl: Timeline, w: int, t: int, content: int, i: InHand)
    requires Inv(tl) && w in tl.forest.depth && IsTime(t) && Resolve(tl, w, t).At?
    requires Usable(tl, Resolve(tl, w, t).place, i)
    requires !Early(tl, w, t) && (RightTree(Resolve(tl, w, t).place, i) || w !in tl.order)
    ensures w in Write(tl, w, t, content).worlds
    ensures if w !in tl.order then Write(tl, w, t, content).worlds[w] == Started(t, content)
      else
        i == InHand(w, w, i.superTime) && w in tl.worlds && Placed(tl.worlds[w], i.superTime, t)
        && Write(tl, w, t, content).worlds[w] == Extended(tl.worlds[w], i.superTime, t, content)
  {
    ResolvedPlaced(tl, w, t);
    OwnWorld(tl, w, t);
  }

  lemma ExtendedFloor(h: History, start: int, s: int, t: int, content: int)
    requires Sound(h, start) && Placed(h, s, t)
    ensures Keyed(Extended(h, s, t, content).index.supers)
    ensures Floor(Extended(h, s, t, content).index.supers, t) == SuperTimeAfter(map[0 := h], t, InHand(0, 0, s))
  {
    assert Unfold(Topic.Histories, true);
    assert TreeOk(h.index, h.contents.Keys, s);
    ExtendedParts(h, start, s, t, content);
    if |Added(h.index.trees[s], t)| == Threshold(|h.index.supers|) {
      SplitTrees(h.index, h.contents.Keys, s, t);
      FloorAdded(h.index.supers, Insert(h.index, s, t).supers[|h.index.supers|], t);
    }
  }

  /** The writes that keep the invariant: not before the history that the node's world already has, and
      with the tree of the resolved place in hand, unless the world is given trees of its own or the
      write has nothing to do. */
  ghost predicate Suited(tl: Timeline, h: Handle)
    requires Held(tl, h)
  {
    HandUsable(tl, h);
    Fitting(tl, h.world, h.time, HandOf(tl, h))
  }

  /** What a phased write with the node's chunks in hand comes to. */
  lemma PhaseFacts(tl: Timeline, h: Handle, content: int)
    requires Held(tl, h)
    ensures var i := HandOf(tl, h); var w, t := h.world, h.time;
      && i.world in tl.worlds && i.treeWorld in tl.worlds && i.superTime in tl.worlds[i.treeWorld].index.trees
      && Keyed(tl.worlds[i.treeWorld].index.trees[i.superTime])
      && var tl' := CodeWrite(tl, w, t, content, i);
      && (Inv(tl') <==> Suited(tl, h))
      && (Inv(tl') && w in tl.worlds && t in tl.worlds[w].contents ==> tl' == tl)
      && (Inv(tl') ==>
            var s := if i.world == w || w in tl.order then SuperTimeAfter(tl.worlds, t, i) else t;
            Resolve(tl', w, t) == At(Place(w, s, t)))
  {
    var i, w, t := HandOf(tl, h), h.world, h.time;
    HandUsable(tl, h);
    UsableTree(tl, i.treeWorld, i.superTime);
    CodeWriteSound(tl, w, t, content, i);
    OwnWorld(tl, w, t);
    if Suited(tl, h) {
      if RightTree(Resolve(tl, w, t).place, i) || w !in tl.order {
        CodeWriteRight(tl, w, t, content, i);
        PlacedAfter(tl, w, t, content, i);
      } else {
        if i.treeWorld == i.world {
          WrongStretchBusy(tl, w, t, i);
        }
        WrongTreeBreaks(tl, w, t, content, i);
        OwnPlace(tl, w, t);
      }
    }
  }

  /** The content of a state that was made without one to copy. */
  const BLANK: int := 0

  /** Misled to a time at which the world has no state. */
  ghost predicate Adrift(tl: Timeline, h: Handle)
    requires Held(tl, h)
  {
    FoundIs(tl, h);
    FoundTime(tl, h) !in tl.worlds[HandOf(tl, h).world].contents
  }

  /** A new state that no index gets to know, because the write stops for want of a state to copy. */
  function Dropped(tl: Timeline, w: int, t: int): Timeline {
    if w in tl.worlds then tl.(worlds := Landed(tl.worlds, w, t, BLANK)) else tl
  }

  /** The timeline after a phased write through a node: its new state starts as a copy of the state found. */
  ghost function Forked(tl: Timeline, h: Handle): Timeline
    requires Held(tl, h)
  {
    HandUsable(tl, h);
    var i := HandOf(tl, h);
    UsableTree(tl, i.treeWorld, i.superTime);
    if Adrift(tl, h) then Dropped(tl, h.world, h.time)
    else CodeWrite(tl, h.world, h.time, tl.worlds[i.world].contents[FoundTime(tl, h)], i)
  }

  lemma DroppedSound(tl: Timeline, w: int, t: int)
    requires Inv(tl)
    ensures Inv(Dropped(tl, w, t)) <==> (w in tl.worlds ==> t in tl.worlds[w].contents)
    ensures Inv(Dropped(tl, w, t)) ==> Dropped(tl, w, t) == tl
  {
    if w in tl.worlds && t !in tl.worlds[w].contents {
      UnindexedUnsound(tl.worlds[w], Dropped(tl, w, t).worlds[w], tl.order[w], t);
    }
  }

  /** Exactly the writes that keep the invariant. */
  ghost predicate Proper(tl: Timeline, h: Handle)
    requires Held(tl, h)
  {
    if Adrift(tl, h) then h.world in tl.worlds ==> h.time in tl.worlds[h.world].contents else Suited(tl, h)
  }

  /** For a node that is not misled, a proper write of a new state reads back the content that was read
      before, and is seen by exactly the readers it reaches. */
  lemma ForkReads(tl: Timeline, h: Handle, v: int, u: int)
    requires Held(tl, h) && !Misled(tl, h) && Proper(tl, h) && v in tl.forest.depth
    requires h.world in tl.worlds ==> h.time !in tl.worlds[h.world].contents
    ensures FoundTime(tl, h) in tl.worlds[HandOf(tl, h).world].contents
    ensures var tl' := Forked(tl, h); var before := Read(tl, h.world, h.time);
      && Inv(tl') && before.Found?
      && Read(tl', v, u) ==
         if Reaches(tl, h.world, h.time, v, u) then Found(h.world, h.time, before.content) else Read(tl, v, u)
  {
    FoundIs(tl, h);
    HandUsable(tl, h);
    var content := Read(tl, h.world, h.time).content;
    CodeWriteRight(tl, h.world, h.time, content, HandOf(tl, h));
    WriteReads(tl, h.world, h.time, content, v, u);
  }

  /** A proper write leaves a handle that is held; it is sure when the node's world had no history before,
      or the handle was in it already. */
  lemma WrittenHeld(tl: Timeline, tl': Timeline, h: Handle, h': Handle)
    requires Inv(tl') && h'.world in tl'.forest.depth && IsTime(h'.time)
    requires Resolve(tl', h'.world, h'.time) == At(h'.place)
    requires h'.orderMagic == tl'.orderMagic
    ensures Held(tl', h') && (Matches(tl', h') ==> Sure(tl', h'))
  {
    PlaceListed(tl', h'.world, h'.time);
  }

  /** The magics of a world's trees after a write with the right tree in hand. */
  lemma SplitMagics(h: History, start: int, s: int, t: int, content: int)
    requires Sound(h, start) && Placed(h, s, t)
    ensures Holdable(map[0 := h], 0, InHand(0, 0, s))
    ensures GoesRight(map[0 := h], t, InHand(0, 0, s)) ==>
      var h' := Extended(h, s, t, content); var m := SuperTimeAfter(map[0 := h], t, InHand(0, 0, s));
      MagicAt(h'.treeMagics, m) < h'.superMagic
  {
    if GoesRight(map[0 := h], t, InHand(0, 0, s)) {
      SplitElsewhere(h, start, s, t);
    }
  }

  class Node {
    const world: int
    const time: int
    var place: Place
    var orderMagic: int
    var superMagic: int
    var treeMagic: int

    function Record(): Handle
      reads this
    {
      Handle(world, time, place, orderMagic, superMagic, treeMagic)
    }

    constructor (world: int, time: int, place: Place, orderMagic: int, superMagic: int, treeMagic: int)
      ensures Record() == Handle(world, time, place, orderMagic, superMagic, treeMagic)
    {
      this.world, this.time, this.place := world, time, place;
      this.orderMagic, this.superMagic, this.treeMagic := orderMagic, superMagic, treeMagic;
    }
  }

  class Resolver {
    var forest: Forest
    var order: map<int, int>
    var orderMagic: nat
    var worlds: map<int, History>

    function View(): Timeline
      reads this
    {
      Timeline(forest, order, orderMagic, worlds)
    }

    /** A node's first state. */
    constructor InitNode(forest: Forest, world: int, time: int, content: int)
      requires Grown(forest) && world in forest.depth && IsTime(time)
      ensures View() == First(forest, world, time, content) && Inv(View())
    {
      FirstKeeps(forest, world, time, content);
      this.forest, order, orderMagic, worlds := forest, map[world := time], 1, map[world := Started(time, content)];
    }

    /** newNode: a node on its first state, with NULL_LONG for its magics. */
    static method NewNode(forest: Forest, world: int, time: int, content: int) returns (r: Resolver, node: Node)
      requires Grown(forest) && world in forest.depth && IsTime(time)
      ensures fresh(r) && fresh(node) && r.View() == First(forest, world, time, content)
      ensures Held(r.View(), node.Record()) && IsPhased(node.Record())
      ensures node.Record() == Handle(world, time, Place(world, time, time), NULL_LONG, NULL_LONG, NULL_LONG)
    {
      node := new Node(world, time, Place(world, time, time), NULL_LONG, NULL_LONG, NULL_LONG);
      r := new Resolver.InitNode(forest, world, time, content);
      OwnState(r.View(), world, time);
    }

    method InitWorld(parent: int, child: int)
      requires Inv(View()) && parent in forest.depth && Fresh(forest, child)
      modifies this
      ensures View() == Bear(old(View()), parent, child) && Inv(View())
    {
      BearReads(View(), parent, child);
      forest := Diverge(forest, parent, child);
    }

    /** The node at (world, time), with the magics of the chunks that led there. */
    method Lookup(world: int, time: int) returns (node: Node?)
      requires Inv(View()) && world in forest.depth
      ensures node == null <==> Resolve(View(), world, time) == Nowhere
      ensures node != null ==>
        fresh(node) && Recorded(View(), node.Record()) && (IsTime(time) ==> Sure(View(), node.Record()))
    {
      ResolveSpec(View(), world, time);
      var closestWorld := ResolveWorld(forest, order, time, world);
      NearestUnique(order, Line(forest, world), time, closestWorld, Nearest(order, Line(forest, world), time));
      if closestWorld !in worlds {
        return null;
      }
      var h := worlds[closestWorld];
      assert Sound(h, order[closestWorld]) && Unfold(Topic.Histories, true);
      var closestSuperTime := Floor(h.index.supers, time);
      if closestSuperTime == NULL_LONG {
        return null;
      }
      UsableTree(View(), closestWorld, closestSuperTime);
      if closestSuperTime !in h.index.trees {
        return null;
      }
      var closestTime := Floor(h.index.trees[closestSuperTime], time);
      if closestTime == NULL_LONG || closestTime !in h.contents {
        return null;
      }
      PlaceListed(View(), world, time);
      node := new Node(world, time, Place(closestWorld, closestSuperTime, closestTime), orderMagic, h.superMagic,
        MagicAt(h.treeMagics, closestSuperTime));
    }

    /** The world, the trees and the time that a node resolves to now, by the fast path when its magics match. */
    method TakeInHand(node: Node) returns (i: InHand, resolvedTime: int)
      requires Held(View(), node.Record())
      ensures i == HandOf(View(), node.Record()) && resolvedTime == FoundTime(View(), node.Record())
    {
      var p := node.place;
      ghost var tl, h := View(), node.Record();
      ResolveSpec(tl, node.world, node.time);
      HandUsable(tl, h);
      if Matches(View(), node.Record()) {
        return InHand(p.world, p.world, p.superTime), p.time;
      }
      var resolvedWorld := ResolveWorld(forest, order, node.time, node.world);
      NearestUnique(order, Line(forest, node.world), node.time, resolvedWorld,
        Nearest(order, Line(forest, node.world), node.time));
      UsableTree(tl, resolvedWorld, Resolve(tl, node.world, node.time).place.superTime);
      var resolvedSuperTime := Floor(worlds[resolvedWorld].index.supers, node.time);
      var treeWorld := p.world;
      if p.superTime != resolvedSuperTime {
        treeWorld := resolvedWorld;
      }
      UsableTree(tl, treeWorld, resolvedSuperTime);
      resolvedTime := Floor(worlds[treeWorld].index.trees[resolvedSuperTime], node.time);
      i := InHand(resolvedWorld, treeWorld, resolvedSuperTime);
    }

    /** The size at which the time tree in hand is to be split. */
    static method SplitSize(superTreeSize: nat) returns (threshold: nat)
      ensures threshold == Threshold(superTreeSize)
      ensures threshold == if superTreeSize <= 2000 then 2000 else if superTreeSize <= 20000 then 20000
        else if superTreeSize <= 200000 then 200000 else 2000000
    {
      ThresholdIs(superTreeSize);
      threshold := SCALE_1 * 2;
      if superTreeSize > threshold {
        threshold := SCALE_2 * 2;
      }
      if superTreeSize > threshold {
        threshold := SCALE_3 * 2;
      }
      if superTreeSize > threshold {
        threshold := SCALE_4 * 2;
      }
    }

    /** Enters a new state's time into the chunks in hand: the super time under which it then is, and the
        magic that is recorded for the super tree.  That is the one from before, `superMagic`, when
        nothing is split, and the one of the new time tree when the time has gone there. */
    method EnterTime(w: int, t: int, i: InHand, superMagic: int) returns (superTime: int, superMagic': int)
      requires Holdable(worlds, w, i) && IsTime(t)
      modifies `worlds
      ensures worlds == Indexed(old(worlds), w, t, i)
      ensures superTime == SuperTimeAfter(old(worlds), t, i)
      ensures !GoesRight(old(worlds), t, i) && superMagic == old(worlds)[i.world].superMagic ==>
        superMagic' == worlds[i.world].superMagic
      ensures GoesRight(old(worlds), t, i) ==> superMagic' == MagicAt(worlds[w].treeMagics, superTime)
    {
      superMagic' := superMagic;
      var threshold := SplitSize(|worlds[i.world].index.supers|);
      superTime := i.superTime;
      var before := worlds[i.treeWorld].index.trees[i.superTime];
      var tree := Added(before, t);
      var inserted := worlds[i.treeWorld := WithTree(worlds[i.treeWorld], i.superTime, tree, if t in before then 0
        else 1)];
      if |tree| == threshold {
        superTime, superMagic' := SplitTree(w, t, i, inserted, tree);
      } else {
        worlds := inserted;
      }
    }

    /** The split at the median. */
    method SplitTree(w: int, t: int, i: InHand, inserted: map<int, History>, tree: seq<int>)
      returns (superTime: int, superMagic: int)
      requires w in inserted && i.world in inserted && i.treeWorld in inserted && forall k <- tree :: IsTime(k)
      modifies `worlds
      ensures var right := Walk(tree, BEGINNING_OF_TIME, END_OF_TIME, |tree| / 2); var median := if right == [] then -1
        else right[|right| - 1];
        && worlds == Divided(inserted, w, i, tree, right) && superTime == (if t >= median then median else i.superTime)
        && w in worlds && i.world in worlds
        && superMagic == if t >= median then MagicAt(worlds[w].treeMagics, median) else worlds[i.world].superMagic
    {
      var right := Walk(tree, BEGINNING_OF_TIME, END_OF_TIME, |tree| / 2);
      var medianPoint := if right == [] then -1 else right[|right| - 1];
      var grown := inserted[w := WithNewTree(inserted[w], medianPoint, right)];
      var listed := grown[i.world := WithSuper(grown[i.world], medianPoint)];
      worlds := listed[i.treeWorld := WithTree(listed[i.treeWorld], i.superTime, Kept(tree, medianPoint), 1)];
      if t < medianPoint {
        superTime, superMagic := i.superTime, worlds[i.world].superMagic;
      } else {
        superTime, superMagic := medianPoint, MagicAt(worlds[w].treeMagics, medianPoint);
      }
    }

    /** A state in a world that has a history; one that is resident already stays as it is. */
    method PutState(node: Node, content: int, i: InHand, superMagic: int)
      requires IsTime(node.time) && Holdable(worlds, node.world, i)
      modifies `worlds, node
      ensures Holdable(Landed(old(worlds), node.world, node.time, content), node.world, i)
      ensures worlds == Indexed(Landed(old(worlds), node.world, node.time, content), node.world, node.time, i)
      ensures node.place == Place(node.world, SuperTimeAfter(old(worlds), node.time, i), node.time)
      ensures !GoesRight(old(worlds), node.time, i) && superMagic == old(worlds)[i.world].superMagic ==>
        node.superMagic == worlds[i.world].superMagic
      ensures GoesRight(old(worlds), node.time, i) ==>
        node.superMagic == MagicAt(worlds[node.world].treeMagics, node.place.superTime)
      ensures node.orderMagic == orderMagic && node.treeMagic == MagicAt(worlds[i.treeWorld].treeMagics, i.superTime)
    {
      LandedSame(worlds, node.world, node.time, content, i);
      if node.time !in worlds[node.world].contents {
        worlds := worlds[node.world := WithState(worlds[node.world], node.time, content)];
      }
      var superTime, superMagic' := EnterTime(node.world, node.time, i, superMagic);
      node.place := Place(node.world, superTime, node.time);
      node.orderMagic, node.superMagic := orderMagic, superMagic';
      node.treeMagic := MagicAt(worlds[i.treeWorld].treeMagics, i.superTime);
    }

    /** The first state in a world: trees of its own, and a place in the node's world order. */
    method StartHistory(node: Node, content: int)
      requires node.world !in order && node.world !in worlds
      modifies `order, `orderMagic, `worlds, node
      ensures View() == old(View()).(worlds := old(worlds)[node.world := Started(node.time, content)],
                                     order := old(order)[node.world := node.time], orderMagic := old(orderMagic) + 1)
      ensures node.Record() == Handle(node.world, node.time, Place(node.world, node.time, node.time), orderMagic, 1, 1)
    {
      worlds := worlds[node.world := Started(node.time, content)];
      order := order[node.world := node.time];
      orderMagic := orderMagic + 1;
      node.place := Place(node.world, node.time, node.time);
      node.orderMagic, node.superMagic, node.treeMagic := orderMagic, 1, 1;
    }

    /** The write branch of resolveState: the timeline, and what the node remembers. */
    method Enter(node: Node, i: InHand, content: int)
      requires IsTime(node.time) && node.place.world in worlds && order.Keys == worlds.Keys
      requires i.world in worlds && i.treeWorld in worlds && i.superTime in worlds[i.treeWorld].index.trees
      requires forall k <- worlds[i.treeWorld].index.trees[i.superTime] :: IsTime(k)
      modifies `order, `orderMagic, `worlds, node
      ensures View() == CodeWrite(old(View()), node.world, node.time, content, i)
      ensures node.orderMagic == orderMagic
      ensures if i.world != node.world && node.world !in old(order) then
          node.place == Place(node.world, node.time, node.time) && node.superMagic == 1 && node.treeMagic == 1
        else
          && node.place == Place(node.world, SuperTimeAfter(old(worlds), node.time, i), node.time)
          && i.treeWorld in worlds && node.world in worlds && i.world in worlds
          && node.treeMagic == MagicAt(worlds[i.treeWorld].treeMagics, i.superTime)
          && (old(worlds)[old(node.place.world)].superMagic == old(worlds)[i.world].superMagic ==>
                if GoesRight(old(worlds), node.time, i) then node.superMagic ==
                  MagicAt(worlds[node.world].treeMagics, node.place.superTime)
                else node.superMagic == worlds[i.world].superMagic)
    {
      if i.world == node.world || node.world in order {
        PutState(node, content, i, worlds[node.place.world].superMagic);
      } else {
        StartHistory(node, content);
      }
    }

    /** A phased write with the chunks that the node's handle puts in hand. */
    method Phase(node: Node, i: InHand, content: int)
      requires Held(View(), node.Record()) && i == HandOf(View(), node.Record())
      modifies `order, `orderMagic, `worlds, node
      ensures i.superTime in old(worlds)[i.treeWorld].index.trees
      ensures Keyed(old(worlds)[i.treeWorld].index.trees[i.superTime])
      ensures View() == CodeWrite(old(View()), node.world, node.time, content, i)
      ensures Inv(View()) <==> Suited(old(View()), old(node.Record()))
      ensures Inv(View()) && old(StateAt(node.world, node.time)).StateOf? ==> View() == old(View())
      ensures Inv(View()) ==> Resolve(View(), node.world, node.time) == At(node.place) && Held(View(), node.Record())
      ensures Inv(View()) && (node.world !in old(order) || old(node.place.world) == node.world) ==>
        Sure(View(), node.Record())
    {
      ghost var tl, h := View(), node.Record();
      PhaseFacts(tl, h, content);
      Enter(node, i, content);
      if Inv(View()) {
        WrittenHeld(tl, View(), h, node.Record());
        if node.world in tl.order && h.place.world == node.world {
          StayedSure(tl, h, content, View(), node.Record());
        }
      }
    }

    function StateAt(w: int, t: int): StateRef
      reads this
    {
      if w in worlds && t in worlds[w].contents then StateOf(w, t) else NoState
    }

    /** A read or a write through a node whose chunks are in the cache.  A read answers with the state
        that a fresh lookup would find, unless it is misled.  A write through a handle that does not stand
        on the state at its own world and time, when that state is there, is handed a stray copy that
        no one will read.  Either way the node can be used again. */
    method ResolveState(node: Node, allowDephasing: bool) returns (r: StateRef)
      requires Held(View(), node.Record())
      modifies `order, `orderMagic, `worlds, node
      ensures allowDephasing ==> View() == old(View()) && Held(View(), node.Record())
      ensures allowDephasing ==> node.Record() == Refreshed(old(View()), old(node.Record()))
      ensures allowDephasing ==>
        var p := Resolve(old(View()), node.world, node.time).place;
        r == StateOf(p.world, p.time) <==> !Misled(old(View()), old(node.Record()))
      ensures !allowDephasing && IsPhased(old(node.Record())) ==>
        r == StateOf(node.world, node.time) && View() == old(View()) && node.Record() == old(node.Record())
      ensures !allowDephasing && !IsPhased(old(node.Record())) ==>
        && r == (if old(StateAt(node.world, node.time)).StateOf? then Stray else StateOf(node.world, node.time))
        && View() == Forked(old(View()), old(node.Record()))
        && (Inv(View()) <==> Proper(old(View()), old(node.Record())))
        && (r.Stray? && Inv(View()) ==> View() == old(View()))
        && (Inv(View()) ==> Held(View(), node.Record()))
        && (Inv(View()) && !Adrift(old(View()), old(node.Record())) ==>
          Resolve(View(), node.world, node.time) == At(node.place))
        && (Inv(View()) && !Adrift(old(View()), old(node.Record())) ==>
              node.world !in old(order) || old(node.place.world) == node.world ==> Sure(View(), node.Record()))
    {
      var state := StateAt(node.world, node.time);
      ghost var tl, h := View(), node.Record();
      RefreshedHeld(tl, h);
      if IsPhased(node.Record()) && state.StateOf? {
        NotMisled(tl, h);
        return state;
      }
      FoundIs(tl, h);
      if allowDephasing && Matches(View(), node.Record()) {
        return StateAt(node.place.world, node.place.time);
      }
      var i, resolvedTime := TakeInHand(node);
      HandUsable(tl, h);
      if allowDephasing {
        r := StateAt(i.world, resolvedTime);
        if r.NoState? {
          return;
        }
        Refresh(node, i, resolvedTime);
      } else {
        if resolvedTime !in worlds[i.world].contents {
          Drop(node.world, node.time);
        } else {
          Phase(node, i, worlds[i.world].contents[resolvedTime]);
        }
        r := if state.StateOf? then Stray else StateOf(node.world, node.time);
      }
    }

    /** A write that stops after its new state has been put into the store. */
    method Drop(w: int, t: int)
      requires Inv(View())
      modifies `worlds
      ensures View() == Dropped(old(View()), w, t)
      ensures Inv(View()) <==> (w in old(worlds) ==> t in old(worlds)[w].contents)
      ensures Inv(View()) ==> View() == old(View())
    {
      DroppedSound(View(), w, t);
      if w in worlds && t !in worlds[w].contents {
        worlds := worlds[w := WithState(worlds[w], t, BLANK)];
      }
    }

    /** Records a place that has moved, with the magics of the chunks the node came from.  The handle can be relied
        on from then on after an orderly read, and otherwise, unless its super magic is ahead, exactly when no
        times catch it. */
    method Refresh(node: Node, i: InHand, resolvedTime: int)
      requires Held(View(), node.Record()) && !Matches(View(), node.Record()) && !IsPhased(node.Record())
      requires i == HandOf(View(), node.Record()) && resolvedTime == FoundTime(View(), node.Record())
      requires resolvedTime in worlds[i.world].contents
      modifies node
      ensures node.Record() == Refreshed(View(), old(node.Record())) && Held(View(), node.Record())
      ensures node.Record() != old(node.Record()) ==>
        && (Sure(View(), node.Record()) <==> Orderly(View(), old(node.Record())))
        && (Orderly(View(), old(node.Record())) ==> Lasting(View(), node.Record()))
        && (node.superMagic <= worlds[node.place.world].superMagic ==>
              (Lasting(View(), node.Record()) <==> !Mistakable(View(), node.Record())))
    {
      ghost var h := node.Record();
      RefreshedHeld(View(), h);
      var p := node.place;
      var worldMoved := i.world != p.world;
      var superTimeTreeMoved := i.superTime != p.superTime;
      var timeTreeMoved := resolvedTime != p.time;
      if worldMoved || timeTreeMoved || superTimeTreeMoved {
        node.place := Place(i.world, i.superTime, resolvedTime);
        node.orderMagic := orderMagic;
        node.superMagic := worlds[p.world].superMagic;
        node.treeMagic := MagicAt(worlds[p.world].treeMagics, p.superTime);
        RefreshedSure(View(), h);
        RefreshedLasting(View(), h);
      }
    }
  }

  /** The magics that a write records through a handle that is in the node's world already. */
  lemma StayedSure(tl: Timeline, h: Handle, content: int, tl': Timeline, h': Handle)
    requires Held(tl, h) && Suited(tl, h) && h.place.world == h.world && h.world in tl.order
    requires h'.world == h.world && h'.time == h.time && h'.orderMagic == tl'.orderMagic
    ensures var i := HandOf(tl, h);
      && i.world in tl.worlds && i.treeWorld in tl.worlds && i.superTime in tl.worlds[i.treeWorld].index.trees
      && Keyed(tl.worlds[i.treeWorld].index.trees[i.superTime])
      && (tl' == CodeWrite(tl, h.world, h.time, content, i) ==>
            h'.place == Place(h.world, SuperTimeAfter(tl.worlds, h.time, i), h.time) ==>
            h'.treeMagic == MagicAt(tl'.worlds[i.treeWorld].treeMagics, i.superTime) ==>
            (if GoesRight(tl.worlds, h.time, i)
             then h'.superMagic == MagicAt(tl'.worlds[h.world].treeMagics, h'.place.superTime)
             else h'.superMagic == tl'.worlds[i.world].superMagic) ==>
            Sure(tl', h'))
  {
    var i, w, t := HandOf(tl, h), h.world, h.time;
    PhaseFacts(tl, h, content);
    HandUsable(tl, h);
    OwnWorld(tl, w, t);
    if !RightTree(Resolve(tl, w, t).place, i) {
      WrongStretchBusy(tl, w, t, i);
    }
    CodeWriteRight(tl, w, t, content, i);
    var after := CodeWrite(tl, w, t, content, i);
    if tl' == after && h'.place == Place(w, SuperTimeAfter(tl.worlds, t, i), t) {
      WrittenHeld(tl, tl', h, h');
      if GoesRight(tl.worlds, t, i) {
        WentRight(tl, w, t, content, i);
      }
    }
  }

  /** A time that goes to a new tree is recorded with a magic that is below that of the super tree. */
  lemma WentRight(tl: Timeline, w: int, t: int, content: int, i: InHand)
    requires Inv(tl) && w in tl.forest.depth && IsTime(t) && Resolve(tl, w, t).At?
    requires Usable(tl, Resolve(tl, w, t).place, i)
    requires !Early(tl, w, t) && RightTree(Resolve(tl, w, t).place, i) && w in tl.order
    ensures i.superTime in tl.worlds[i.treeWorld].index.trees && Keyed(tl.worlds[i.treeWorld].index.trees[i.superTime])
    ensures GoesRight(tl.worlds, t, i) ==>
      var h := CodeWrite(tl, w, t, content, i).worlds[w];
      MagicAt(h.treeMagics, SuperTimeAfter(tl.worlds, t, i)) < h.superMagic
  {
    UsableTree(tl, i.treeWorld, i.superTime);
    OwnWorld(tl, w, t);
    CodeWriteRight(tl, w, t, content, i);
    if t in tl.worlds[w].contents {
      RewriteRight(tl, w, t, content, i);
    } else {
      WrittenHistory(tl, w, t, content, i);
      SplitMagics(tl.worlds[w], tl.order[w], i.superTime, t, content);
      SuperTimeLocal(tl.worlds, w, t, i.superTime);
    }
  }
}
