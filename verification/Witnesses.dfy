/** Runs that lead a node's handles into the cases that the conditions of Handles.dfy leave out. */
module Witnesses {
  import opened Constants
  import opened TimeLine
  import opened Worlds
  import opened TimeIndex
  import opened Timelines
  import opened Handles
  import T = Timepoints

  /** World 0 alone, with states at 0 and 5, and then world 1 born of it. */
  const ROOT: Forest := Forest(map[], map[0 := 0])
  const BOTH: Forest := Diverge(ROOT, 0, 1)

  function Root(content: int): History {
    History(Index([0], map[0 := [0, 5]]), 1, map[0 := 2], map[0 := content, 5 := content])
  }

  function Setup(content: int): seq<Step> {
    [Phased(0, 5, content), Born(0, 1)]
  }

  function Parted(content: int): Timeline {
    Timeline(BOTH, map[0 := 0], 1, map[0 := Root(content)])
  }

  function SetupStates(content: int): seq<Timeline> {
    [First(ROOT, 0, 0, content), Timeline(ROOT, map[0 := 0], 1, map[0 := Root(content)]), Parted(content)]
  }

  lemma Lines()
    ensures Grown(ROOT) && Grown(BOTH) && Line(ROOT, 0) == [0] && Line(BOTH, 0) == [0] && Line(BOTH, 1) == [1, 0]
  {
  }

  lemma FloorOne(a: int, t: int)
    requires IsTime(a)
    ensures Floor([a], t) == if a <= t then a else NULL_LONG
  {
    assert a in [a];
    var f := Floor([a], t);
  }

  lemma FloorTwo(a: int, b: int, t: int)
    requires IsTime(a) && IsTime(b) && a < b
    ensures Floor([a], t) == if a <= t then a else NULL_LONG
    ensures Floor([a, b], t) == if b <= t then b else if a <= t then a else NULL_LONG
  {
    assert a in [a] && a in [a, b] && b in [a, b];
    var f, g := Floor([a], t), Floor([a, b], t);
  }

  /** A read of a timeline with one history in the line, or in a world that has just that. */
  lemma ResolveIn(tl: Timeline, w: int, t: int, r: int, s: int, f: int)
    requires Inv(tl) && w in tl.forest.depth && r in tl.worlds && IsNearest(tl.order, Line(tl.forest, w), t, r)
    requires DivergedBy(tl.order, r, t)
    requires Keyed(tl.worlds[r].index.supers) && s == Floor(tl.worlds[r].index.supers, t) && s != NULL_LONG
    requires s in tl.worlds[r].index.trees
    requires Keyed(tl.worlds[r].index.trees[s]) && f == Floor(tl.worlds[r].index.trees[s], t)
    ensures Resolve(tl, w, t) == At(Place(r, s, f))
  {
    NearestUnique(tl.order, Line(tl.forest, w), t, r, Nearest(tl.order, Line(tl.forest, w), t));
  }

  lemma RunOn(states: seq<Timeline>, steps: seq<Step>, step: Step) returns (states': seq<Timeline>, steps': seq<Step>)
    requires Run(states, steps) && Allowed(states[|steps|], step)
    ensures Run(states', steps') && states' == states + [After(states[|steps|], step)] && steps' == steps + [step]
    ensures forall i :: 0 <= i < |states| ==> states'[i] == states[i]
    ensures states'[|states|] == After(states[|steps|], step)
  {
    states', steps' := states + [After(states[|steps|], step)], steps + [step];
    forall i | 0 <= i < |steps'| ensures Allowed(states'[i], steps'[i])
      && states'[i + 1] == After(states'[i], steps'[i]) {
      if i < |steps| {
        assert states'[i] == states[i] && states'[i + 1] == states[i + 1] && steps'[i] == steps[i];
      }
    }
  }

  lemma SecondState(content: int)
    ensures Inv(First(ROOT, 0, 0, content)) && Allowed(First(ROOT, 0, 0, content), Phased(0, 5, content))
    ensures After(First(ROOT, 0, 0, content), Phased(0, 5, content)) ==
      Timeline(ROOT, map[0 := 0], 1, map[0 := Root(content)])
  {
    Lines();
    var first := First(ROOT, 0, 0, content);
    FirstKeeps(ROOT, 0, 0, content);
    FloorOne(0, 5);
    assert Met(first.order, Line(ROOT, 0), 5, 0) by { assert Line(ROOT, 0)[0] == 0; }
    ResolveIn(first, 0, 5, 0, 0, 0);
    assert Added([0], 5) == [0, 5];
    assert Extended(Started(0, content), 0, 5, content) == Root(content);
  }

  lemma SetupRun(content: int)
    ensures Run(SetupStates(content), Setup(content)) && Inv(Parted(content))
  {
    var states := SetupStates(content);
    SecondState(content);
    StepKeeps(states[0], Phased(0, 5, content));
    Lines();
    StepKeeps(states[1], Born(0, 1));
  }

  /** World 1 with a history of its own from t on. */
  function Branched(content: int, t: int): Timeline {
    Timeline(BOTH, map[0 := 0, 1 := t], 2, map[0 := Root(content), 1 := Started(t, content)])
  }

  lemma PartedReads(content: int, t: int)
    requires 0 <= t && IsTime(t)
    ensures Inv(Parted(content)) && Resolve(Parted(content), 1, t) == At(Place(0, 0, if 5 <= t then 5 else 0))
  {
    Lines();
    SetupRun(content);
    FloorTwo(0, 5, t);
    assert Met(Parted(content).order, Line(BOTH, 1), t, 0) by { assert Line(BOTH, 1)[1] == 0; }
    assert DivergedBy(Parted(content).order, 0, t) && 0 in Line(BOTH, 1);
    assert IsNearest(Parted(content).order, Line(BOTH, 1), t, 0);
    ResolveIn(Parted(content), 1, t, 0, 0, if 5 <= t then 5 else 0);
  }

  lemma BranchStep(content: int, t: int)
    requires 0 <= t && IsTime(t)
    ensures Allowed(Parted(content), Phased(1, t, content)) && Inv(Branched(content, t))
    ensures After(Parted(content), Phased(1, t, content)) == Branched(content, t)
  {
    Lines();
    PartedReads(content, t);
    assert Allowed(Parted(content), Phased(1, t, content));
    StepKeeps(Parted(content), Phased(1, t, content));
    assert map[0 := 0][1 := t] == map[0 := 0, 1 := t];
    assert map[0 := Root(content)][1 := Started(t, content)] == map[0 := Root(content), 1 := Started(t, content)];
  }

  lemma BranchedReads(content: int, t: int, u: int)
    requires 0 <= t && IsTime(t) && 0 <= u && IsTime(u)
    ensures Inv(Branched(content, t))
    ensures Resolve(Branched(content, t), 1, u) ==
      At(if t <= u then Place(1, t, t) else Place(0, 0, if 5 <= u then 5 else 0))
  {
    Lines();
    BranchStep(content, t);
    if t <= u {
      OwnRead(content, t, u);
    } else {
      ParentRead(content, t, u);
    }
  }

  lemma OwnRead(content: int, t: int, u: int)
    requires 0 <= t <= u && IsTime(t) && Inv(Branched(content, t))
    ensures Resolve(Branched(content, t), 1, u) == At(Place(1, t, t))
  {
    Lines();
    FloorOne(t, u);
    assert Met(Branched(content, t).order, Line(BOTH, 1), u, 1) by { assert Line(BOTH, 1)[0] == 1; }
    ResolveIn(Branched(content, t), 1, u, 1, t, t);
  }

  lemma ParentRead(content: int, t: int, u: int)
    requires 0 <= u < t && IsTime(t) && Inv(Branched(content, t))
    ensures Resolve(Branched(content, t), 1, u) == At(Place(0, 0, if 5 <= u then 5 else 0))
  {
    Lines();
    FloorTwo(0, 5, u);
    assert Met(Branched(content, t).order, Line(BOTH, 1), u, 0) by { assert Line(BOTH, 1)[1] == 0; }
    ResolveIn(Branched(content, t), 1, u, 0, 0, if 5 <= u then 5 else 0);
  }

  /** What a lookup of (1, t) records before world 1 has a history. */
  function Looked(t: int): Handle {
    Handle(1, t, Place(0, 0, if 5 <= t then 5 else 0), 1, 1, 2)
  }

  lemma LookedRecorded(content: int, t: int)
    requires 0 <= t && IsTime(t)
    ensures Recorded(Parted(content), Looked(t))
  {
    PartedReads(content, t);
  }

  lemma BranchRun(content: int, t: int) returns (states: seq<Timeline>, steps: seq<Step>)
    requires 0 <= t && IsTime(t)
    ensures steps == [Phased(0, 5, content), Born(0, 1), Phased(1, t, content)] && Run(states, steps)
    ensures states[0] == First(ROOT, 0, 0, content) && states[2] == Parted(content) && states[3] == Branched(content, t)
  {
    SetupRun(content);
    BranchStep(content, t);
    states, steps := RunOn(SetupStates(content), Setup(content), Phased(1, t, content));
  }

  lemma LookedHeld(content: int, t: int, u: int)
    requires 0 <= t && IsTime(t) && 0 <= u && IsTime(u)
    ensures Held(Branched(content, t), Looked(u)) && !Matches(Branched(content, t), Looked(u))
  {
    LookedRecorded(content, u);
    RecordedHeld(Parted(content), Looked(u));
    BranchStep(content, t);
    StepHeld(Parted(content), Phased(1, t, content), Looked(u));
  }

  /** Looked(100) after a read that follows the first write in world 1. */
  const MOVED: Handle := Handle(1, 100, Place(1, 10, 10), 2, 1, 2)

  lemma ReadMoves(content: int)
    ensures Held(Branched(content, 10), Looked(100)) && Refreshed(Branched(content, 10), Looked(100)) == MOVED
    ensures Held(Branched(content, 10), MOVED) && Ahead(Branched(content, 10), MOVED, 1)
  {
    LookedHeld(content, 10, 100);
    BranchedReads(content, 10, 100);
    FoundIs(Branched(content, 10), Looked(100));
    FloorOne(10, 100);
    RefreshedHeld(Branched(content, 10), Looked(100));
  }

  lemma LateWrite(content: int)
    ensures Allowed(Branched(content, 10), Phased(1, 50, content)) && Catches(Branched(content, 10), MOVED, [50])
  {
    BranchedReads(content, 10, 50);
    FloorOne(10, 50);
    ReadMoves(content);
    FreeTime(Branched(content, 10), MOVED, 50);
    assert 50 in [50];
  }

  /** After one more write the moved handle is stale. */
  lemma LateWriteMisleads(content: int)
    ensures Allowed(Branched(content, 10), Phased(1, 50, content))
    ensures var tl := After(Branched(content, 10), Phased(1, 50, content)); Held(tl, MOVED) && Stale(tl, MOVED)
    ensures !Sure(Branched(content, 10), MOVED)
  {
    LateWrite(content);
    ReadMoves(content);
    var tl, last := Branched(content, 10), Phased(1, 50, content);
    var states, steps := [tl, After(tl, last)], [last];
    WritesMislead(states, steps, MOVED, [50]);
    if Sure(tl, MOVED) {
      StepSure(tl, last, MOVED);
    }
  }

  /** A handle as lookup records it, moved by one read, is stale after one more write through another. */
  lemma FastPathFails(content: int) returns (states: seq<Timeline>, steps: seq<Step>, h: Handle)
    ensures Run(states, steps) && |steps| == 4 && states[0] == First(ROOT, 0, 0, content)
    ensures Recorded(states[2], h) && Held(states[3], h) && Refreshed(states[3], h) != h && !Orderly(states[3], h)
    ensures Held(states[4], Refreshed(states[3], h)) && Stale(states[4], Refreshed(states[3], h))
  {
    h := Looked(100);
    var states', steps' := BranchRun(content, 10);
    LookedRecorded(content, 100);
    ReadMoves(content);
    LateWriteMisleads(content);
    RefreshedSure(Branched(content, 10), h);
    states, steps := RunOn(states', steps', Phased(1, 50, content));
  }

  lemma FreeTime(tl: Timeline, h: Handle, t: int)
    requires h.place.world in tl.worlds && IsTime(t) && t !in tl.worlds[h.place.world].contents
    requires Keyed(tl.worlds[h.place.world].index.supers)
    requires Floor(tl.worlds[h.place.world].index.supers, t) == h.place.superTime
    requires h.place.superTime in tl.worlds[h.place.world].index.trees
    requires |tl.worlds[h.place.world].index.trees[h.place.superTime]| < 1000
    ensures Free(tl.worlds[h.place.world], h.place.superTime, [t])
  {
  }

  lemma WrongHand(content: int)
    ensures var tl, h := Branched(content, 0), Looked(100);
      && Held(tl, h) && !Stale(tl, h) && HandOf(tl, h) == InHand(1, 0, 0) && Misled(tl, h)
      && Resolve(tl, 1, 100) == At(Place(1, 0, 0))
  {
    LookedHeld(content, 0, 100);
    BranchedReads(content, 0, 100);
    FloorTwo(0, 5, 100);
    FoundIs(Branched(content, 0), Looked(100));
  }

  /** A read that is misled, and a write that breaks an index, by the tree of a world that the handle has left. */
  lemma WrongTreeReached(content: int) returns (states: seq<Timeline>, steps: seq<Step>, h: Handle)
    ensures Run(states, steps) && |steps| == 3 && states[0] == First(ROOT, 0, 0, content)
    ensures Recorded(states[2], h) && Held(states[3], h) && !Stale(states[3], h) && Misled(states[3], h)
    ensures Usable(states[3], Resolve(states[3], h.world, h.time).place, HandOf(states[3], h))
    ensures !Fitting(states[3], h.world, h.time, HandOf(states[3], h)) && !Early(states[3], h.world, h.time)
  {
    h := Looked(100);
    states, steps := BranchRun(content, 0);
    LookedRecorded(content, 100);
    WrongHand(content);
    HandUsable(states[3], h);
  }

  /** A write that would come before the history of its world. */
  lemma EarlyReached(content: int) returns (states: seq<Timeline>, steps: seq<Step>, h: Handle)
    ensures Run(states, steps) && |steps| == 3 && states[0] == First(ROOT, 0, 0, content)
    ensures Recorded(states[2], h) && Held(states[3], h) && Early(states[3], h.world, h.time)
  {
    h := Looked(3);
    states, steps := BranchRun(content, 10);
    LookedRecorded(content, 3);
    LookedHeld(content, 10, 3);
  }

  /** A second handle at a place where a first one has written: its own write will be a stray one. */
  lemma SecondHandleReached(content: int) returns (states: seq<Timeline>, steps: seq<Step>, h: Handle)
    ensures Run(states, steps) && |steps| == 3 && states[0] == First(ROOT, 0, 0, content)
    ensures Recorded(states[2], h) && Held(states[3], h) && !IsPhased(h)
    ensures h.world in states[3].worlds && h.time in states[3].worlds[h.world].contents
  {
    h := Looked(10);
    states, steps := BranchRun(content, 10);
    LookedRecorded(content, 10);
    LookedHeld(content, 10, 10);
  }

  // ----- a query that delivers a hidden time -----

  /** Worlds 1, 2 and 3, each born of the one before it. */
  const THREE: Forest := Diverge(BOTH, 1, 2)
  const FOUR: Forest := Diverge(THREE, 2, 3)

  lemma FourLines()
    ensures Grown(THREE) && Grown(FOUR) && FOUR.depth.Keys == {0, 1, 2, 3}
    ensures Line(FOUR, 1) == [1, 0] && Line(FOUR, 2) == [2, 1, 0] && Line(FOUR, 3) == [3, 2, 1, 0]
  {
    Lines();
    DivergeKeeps(BOTH, 1, 2);
    DivergeKeeps(THREE, 2, 3);
  }

  /** The node with its history in world 0, and with first states in some of the other worlds. */
  ghost predicate Spread(tl: Timeline, content: int) {
    && Inv(tl) && tl.forest == FOUR && 0 in tl.order && tl.order[0] == 0 && 0 in tl.worlds
    && tl.worlds[0] == Root(content)
    && T.Counted(tl)
  }

  lemma SpreadMore(tl: Timeline, content: int, w: int, t: int)
    requires Spread(tl, content) && 1 <= w <= 3 && w !in tl.order && 0 <= t && IsTime(t)
    ensures Allowed(tl, Phased(w, t, content)) && Spread(After(tl, Phased(w, t, content)), content)
    ensures var tl' := After(tl, Phased(w, t, content));
      && tl'.order == tl.order[w := t] && w in tl'.worlds && tl'.worlds[w].contents == map[t := content]
      && forall v <- tl.worlds :: v != w ==> v in tl'.worlds && tl'.worlds[v] == tl.worlds[v]
  {
    FourLines();
    var line := Line(FOUR, w);
    assert line[|line| - 1] == 0 && DivergedBy(tl.order, 0, t);
    ResolveSpec(tl, w, t);
    StepKeeps(tl, Phased(w, t, content));
    WriteParts(tl, w, t, content);
  }

  lemma FourBorn(content: int) returns (states: seq<Timeline>, steps: seq<Step>)
    ensures Run(states, steps) && |steps| == 4 && states[0] == First(ROOT, 0, 0, content)
    ensures Spread(states[4], content) && states[4].order == map[0 := 0]
  {
    SetupRun(content);
    FourLines();
    states, steps := RunOn(SetupStates(content), Setup(content), Born(1, 2));
    StepKeeps(states[2], Born(1, 2));
    states, steps := RunOn(states, steps, Born(2, 3));
    StepKeeps(states[3], Born(2, 3));
  }

  lemma SpreadOn(states: seq<Timeline>, steps: seq<Step>, content: int, w: int, t: int)
    returns (states': seq<Timeline>, steps': seq<Step>)
    requires Run(states, steps) && Spread(states[|steps|], content) && 1 <= w <= 3 && w !in states[|steps|].order
    requires 0 <= t && IsTime(t)
    ensures Run(states', steps') && |steps'| == |steps| + 1 && states'[0] == states[0]
    ensures Spread(states'[|steps'|], content)
    ensures var tl, tl' := states[|steps|], states'[|steps'|];
      && tl'.order == tl.order[w := t] && w in tl'.worlds && tl'.worlds[w].contents == map[t := content]
      && forall v <- tl.worlds :: v != w ==> v in tl'.worlds && tl'.worlds[v] == tl.worlds[v]
  {
    SpreadMore(states[|steps|], content, w, t);
    states', steps' := RunOn(states, steps, Phased(w, t, content));
  }

  /** World 3 begins at 3, world 2 at 8 and world 1 at 6; world 0 has a state at 5. */
  lemma SkewedReached(content: int) returns (states: seq<Timeline>, steps: seq<Step>)
    ensures Run(states, steps) && |steps| == 7 && states[0] == First(ROOT, 0, 0, content)
    ensures Spread(states[7], content) && states[7].order == map[0 := 0, 3 := 3, 2 := 8, 1 := 6]
    ensures 3 in states[7].worlds && states[7].worlds[3].contents == map[3 := content]
  {
    states, steps := FourBorn(content);
    states, steps := SpreadOn(states, steps, content, 3, 3);
    states, steps := SpreadOn(states, steps, content, 2, 8);
    states, steps := SpreadOn(states, steps, content, 1, 6);
  }

  /** There the query for [1, 20) in world 3 delivers time 5 of world 0, although a read of (3, 5) finds the state
      at 3 in world 3 itself. */
  lemma HiddenTimeReached(content: int) returns (states: seq<Timeline>, steps: seq<Step>)
    ensures Run(states, steps) && |steps| == 7 && states[0] == First(ROOT, 0, 0, content)
    ensures var tl := states[7];
      && Inv(tl) && T.Counted(tl) && 3 in tl.forest.depth && !T.Visible(tl, 3, 5)
      && T.Hidden(tl, T.Shown(tl, 3, 1, 20), 1, 20, 5)
  {
    states, steps := SkewedReached(content);
    SkewedHides(states[7], content);
  }

  lemma SkewedShown(order: map<int, int>)
    requires order == map[0 := 0, 3 := 3, 2 := 8, 1 := 6]
    ensures T.Showing(order, [3, 2, 1, 0], 1, 20) == [3, 2, 1, 0] && T.Bound(order, [3, 2, 1, 0], 1, 20, 3) == 6
  {
    assert [3, 2, 1, 0][1..] == [2, 1, 0] && [2, 1, 0][1..] == [1, 0] && [1, 0][1..] == [0];
    assert T.Showing(order, [1, 0], 1, 20) == [1, 0];
    assert T.Showing(order, [2, 1, 0], 1, 20) == [2, 1, 0];
    assert T.Opens(order, [3, 2, 1, 0], 1, 20, 2);
  }

  lemma SkewedHides(tl: Timeline, content: int)
    requires Spread(tl, content) && tl.order == map[0 := 0, 3 := 3, 2 := 8, 1 := 6]
    requires 3 in tl.worlds && tl.worlds[3].contents == map[3 := content]
    ensures 3 in tl.forest.depth && !T.Visible(tl, 3, 5) && T.Hidden(tl, T.Shown(tl, 3, 1, 20), 1, 20, 5)
  {
    FourLines();
    SkewedShown(tl.order);
    assert T.Taken(tl, [3, 2, 1, 0], 1, 20, 3, 5) && DivergedBy(tl.order, [3, 2, 1, 0][0], 5);
    assert Line(FOUR, 3)[0] == 3;
    assert Met(tl.order, Line(FOUR, 3), 5, 3);
    ResolveSpec(tl, 3, 5);
    NearestUnique(tl.order, Line(FOUR, 3), 5, 3, Nearest(tl.order, Line(FOUR, 3), 5));
  }
}
