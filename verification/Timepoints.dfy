/** resolveTimepoints and its two continuations: the times that a node shows in an interval. */
module Timepoints {
  import opened Hiding
  import opened Constants
  import opened TimeLine
  import opened Worlds
  import opened TimeIndex
  import opened Timelines

  /** A read of (w, t) is answered with a state written at t itself. */
  ghost predicate Visible(tl: Timeline, w: int, t: int)
    requires Inv(tl) && w in tl.forest.depth
  {
    Resolve(tl, w, t).At? && Resolve(tl, w, t).place.time == t
  }

  // ----- the worlds -----

  /** The worlds of a line whose histories can show in [begin, end]. */
  function Showing(order: map<int, int>, line: seq<int>, begin: int, end: int): seq<int> {
    if line == [] then []
    else
      var d := Get(order, line[0]);
      if d == NULL_LONG then Showing(order, line[1..], begin, end)
      else if d <= begin then [line[0]]
      else if d > end then Showing(order, line[1..], begin, end)
      else [line[0]] + Showing(order, line[1..], begin, end)
  }

  /** The worlds that a query of (w, begin, end) collects. */
  ghost function Shown(tl: Timeline, w: int, begin: int, end: int): seq<int>
    requires Grown(tl.forest) && w in tl.forest.depth
  {
    Showing(tl.order, Line(tl.forest, w), begin, end)
  }

  method CollectWorlds(f: Forest, objectWorldOrder: map<int, int>, world: int, begin: int, end: int)
    returns (collected: seq<int>)
    requires Grown(f) && world in f.depth && NULL_LONG !in objectWorldOrder
    ensures collected == Showing(objectWorldOrder, Line(f, world), begin, end)
  {
    ghost var line := Line(f, world);
    ghost var k := 0;
    collected := [];
    var currentWorld := world;
    while currentWorld != NULL_LONG
      invariant k <= |line| && currentWorld == if k < |line| then line[k] else NULL_LONG
      invariant collected + Showing(objectWorldOrder, line[k..], begin, end) ==
        Showing(objectWorldOrder, line, begin, end)
      decreases |line| - k
    {
      LineNext(f, world, k);
      assert line[k..][1..] == line[k + 1..];
      var divergenceTimepoint := Get(objectWorldOrder, currentWorld);
      if divergenceTimepoint != NULL_LONG {
        if divergenceTimepoint <= begin {
          collected := collected + [currentWorld];
          return;
        } else if divergenceTimepoint > end {
          currentWorld := Get(f.parent, currentWorld);
        } else {
          collected := collected + [currentWorld];
          currentWorld := Get(f.parent, currentWorld);
        }
      } else {
        currentWorld := Get(f.parent, currentWorld);
      }
      k := k + 1;
    }
  }

  /** The interval of times that world k of the collected ones shows. */
  function Low(order: map<int, int>, ws: seq<int>, begin: int, k: nat): int
    requires k < |ws|
  {
    if Get(order, ws[k]) < begin then begin else Get(order, ws[k])
  }

  function High(order: map<int, int>, ws: seq<int>, begin: int, end: int, k: nat): int
    requires k < |ws|
  {
    if k == 0 then end else Low(order, ws, begin, k - 1)
  }

  ghost predicate Listed(order: map<int, int>, ws: seq<int>, begin: int, end: int) {
    && (forall k :: 0 <= k < |ws| ==> ws[k] in order && order[ws[k]] != NULL_LONG)
    && (forall k :: 0 <= k < |ws| - 1 ==> begin < order[ws[k]] <= end)
    && (ws != [] ==> order[ws[0]] <= begin || order[ws[0]] <= end)
  }

  /** World k begins before the collected world next to it. */
  predicate Opens(order: map<int, int>, ws: seq<int>, begin: int, end: int, k: nat)
    requires k < |ws|
  {
    Get(order, ws[k]) < High(order, ws, begin, end, k)
  }

  /** The end of the interval from which times of world k are taken: the beginning of the last world before it
      that lists any. */
  function Bound(order: map<int, int>, ws: seq<int>, begin: int, end: int, k: nat): int
    requires k < |ws|
  {
    if k == 0 then end
    else if Opens(order, ws, begin, end, k - 1) then Low(order, ws, begin, k - 1)
    else Bound(order, ws, begin, end, k - 1)
  }

  /** World j is the last before k that lists times. */
  ghost predicate LastOpen(order: map<int, int>, ws: seq<int>, begin: int, end: int, j: int, k: int) {
    && 0 <= j < k <= |ws| && Opens(order, ws, begin, end, j)
    && forall i :: j < i < k ==> !Opens(order, ws, begin, end, i)
  }

  /** A collected world lists times when it begins before the one next to it, and the first one when it begins
      before the end of the interval. */
  lemma OpensIs(order: map<int, int>, ws: seq<int>, begin: int, end: int, k: nat)
    requires Listed(order, ws, begin, end) && k < |ws|
    ensures Opens(order, ws, begin, end, k) <==> order[ws[k]] < if k == 0 then end else order[ws[k - 1]]
  {
  }

  /** The times of a world are cut off where the last one before it that lists any begins, and at the end of the
      interval when there is none. */
  lemma {:induction false} BoundIs(order: map<int, int>, ws: seq<int>, begin: int, end: int, k: nat, j: int)
    requires Listed(order, ws, begin, end) && k < |ws|
    ensures LastOpen(order, ws, begin, end, j, k) ==>
      Bound(order, ws, begin, end, k) == if order[ws[j]] < begin then begin else order[ws[j]]
    ensures (forall i :: 0 <= i < k ==> !Opens(order, ws, begin, end, i)) ==> Bound(order, ws, begin, end, k) == end
  {
    if k > 0 {
      BoundIs(order, ws, begin, end, k - 1, j);
    }
  }

  lemma {:induction false} BoundBelowHigh(order: map<int, int>, ws: seq<int>, begin: int, end: int, k: nat)
    requires Listed(order, ws, begin, end) && k < |ws|
    ensures Bound(order, ws, begin, end, k) <= High(order, ws, begin, end, k)
    ensures Bound(order, ws, begin, end, k) <= end
  {
    if k > 0 {
      BoundBelowHigh(order, ws, begin, end, k - 1);
    }
  }

  /** Going up the line, no history begins later than one below it. */
  ghost predicate Tapering(order: map<int, int>, line: seq<int>) {
    forall i, j :: 0 <= i < j < |line| && line[i] in order && line[j] in order ==> order[line[j]] <= order[line[i]]
  }

  /** Each world's interval ends at or before the beginning of every nearer one, or is empty. */
  ghost predicate Steady(order: map<int, int>, ws: seq<int>, begin: int, end: int) {
    forall j, k :: 0 <= j < k < |ws| ==>
      var bound := Bound(order, ws, begin, end, k); bound <= Get(order, ws[j]) || bound <= Low(order, ws, begin, k)
  }

  /** A time in the interval of a collected world, by which a nearer one has a history. */
  ghost predicate Hideable(order: map<int, int>, ws: seq<int>, begin: int, end: int, t: int) {
    exists j, k :: 0 <= j < k < |ws| && DivergedBy(order, ws[j], t)
      && Low(order, ws, begin, k) <= t < Bound(order, ws, begin, end, k)
  }

  /** The order is steady exactly when there are no such times, whatever states the histories may have. */
  lemma SteadyExact(order: map<int, int>, ws: seq<int>, begin: int, end: int)
    requires Listed(order, ws, begin, end)
    ensures Steady(order, ws, begin, end) <==> forall t :: !Hideable(order, ws, begin, end, t)
  {
    if !Steady(order, ws, begin, end) {
      var j, k :| 0 <= j < k < |ws| && Bound(order, ws, begin, end, k) > Get(order, ws[j])
        && Bound(order, ws, begin, end, k) > Low(order, ws, begin, k);
      var d, low := Get(order, ws[j]), Low(order, ws, begin, k);
      var t := if d < low then low else d;
      assert DivergedBy(order, ws[j], t);
      assert Hideable(order, ws, begin, end, t);
    }
  }

  lemma {:induction false} BoundIsLeast(order: map<int, int>, ws: seq<int>, begin: int, end: int, k: nat)
    requires Listed(order, ws, begin, end) && Tapering(order, ws) && k < |ws|
    ensures forall j :: 0 <= j < k ==> Bound(order, ws, begin, end, k) <= order[ws[j]]
  {
    if k > 0 {
      BoundIsLeast(order, ws, begin, end, k - 1);
      BoundBelowHigh(order, ws, begin, end, k - 1);
    }
  }

  /** The collected worlds are the ones that the climbs for times in the interval can end in. */
  lemma {:induction false} ShowingNearest(order: map<int, int>, line: seq<int>, begin: int, end: int, t: int)
    requires begin <= t < end
    ensures var ws := Showing(order, line, begin, end);
      var k, c := Climbed(order, ws, t), Climbed(order, line, t);
      (k < |ws| <==> c < |line|) && (k < |ws| ==> ws[k] == line[c])
  {
    if line != [] {
      var rest, ws := line[1..], Showing(order, line, begin, end);
      ShowingNearest(order, rest, begin, end, t);
      var d := Get(order, line[0]);
      if d != NULL_LONG && begin < d <= end {
        assert ws[1..] == Showing(order, rest, begin, end);
      }
    }
  }

  lemma {:induction false} ShowingIn(order: map<int, int>, line: seq<int>, begin: int, end: int)
    ensures forall w <- Showing(order, line, begin, end) ::
      w in line && Get(order, w) != NULL_LONG && (Get(order, w) <= begin || Get(order, w) <= end)
  {
    if line != [] {
      ShowingIn(order, line[1..], begin, end);
    }
  }

  lemma {:induction false} ShowingListed(order: map<int, int>, line: seq<int>, begin: int, end: int)
    ensures Listed(order, Showing(order, line, begin, end), begin, end)
  {
    if line != [] {
      var rest := line[1..];
      ShowingListed(order, rest, begin, end);
      ShowingIn(order, rest, begin, end);
      var ws' := Showing(order, rest, begin, end);
      assert forall k :: 0 <= k < |ws'| ==> ws'[k] in ws';
    }
  }

  /** The climb for t ends in a collected world whose interval has t. */
  lemma {:induction false} InBound(order: map<int, int>, ws: seq<int>, begin: int, end: int, k: nat, t: int)
    requires Listed(order, ws, begin, end) && k < |ws| && begin <= t < end
    requires forall j :: 0 <= j < k ==> !DivergedBy(order, ws[j], t)
    ensures t < Bound(order, ws, begin, end, k)
  {
    if k > 0 {
      InBound(order, ws, begin, end, k - 1, t);
    }
  }

  /** Time t is one of world k of the collected ones, and in its interval. */
  ghost predicate Taken(tl: Timeline, ws: seq<int>, begin: int, end: int, k: nat, t: int)
    requires k < |ws|
  {
    ws[k] in tl.worlds && t in tl.worlds[ws[k]].contents
      && Low(tl.order, ws, begin, k) <= t < Bound(tl.order, ws, begin, end, k)
  }

  /** A time in the interval of a collected world, at which a read is answered by a nearer one. */
  ghost predicate Hidden(tl: Timeline, ws: seq<int>, begin: int, end: int, t: int) {
    exists j, k :: 0 <= j < k < |ws| && DivergedBy(tl.order, ws[j], t) && Taken(tl, ws, begin, end, k, t)
  }

  /** What is visible at (w, t), by the collected worlds. */
  lemma VisibleBy(tl: Timeline, w: int, begin: int, end: int, t: int)
    requires Inv(tl) && w in tl.forest.depth && begin <= t < end
    ensures var ws := Showing(tl.order, Line(tl.forest, w), begin, end);
      && Listed(tl.order, ws, begin, end)
      && ((Visible(tl, w, t) || Hidden(tl, ws, begin, end, t)) <==>
        exists k :: 0 <= k < |ws| && Taken(tl, ws, begin, end, k, t))
  {
    var line := Line(tl.forest, w);
    var ws := Showing(tl.order, line, begin, end);
    ShowingListed(tl.order, line, begin, end);
    ShowingIn(tl.order, line, begin, end);
    ShowingNearest(tl.order, line, begin, end, t);
    ResolveSpec(tl, w, t);
    var c := Climbed(tl.order, ws, t);
    if c < |ws| {
      assert ws[c] in ws;
      InBound(tl.order, ws, begin, end, c, t);
      assert Visible(tl, w, t) <==> t in tl.worlds[ws[c]].contents;
      assert Visible(tl, w, t) <==> Taken(tl, ws, begin, end, c, t);
    }
    forall k | 0 <= k < |ws| && Taken(tl, ws, begin, end, k, t) ensures k == c || Hidden(tl, ws, begin, end, t) {
      if k != c {
        assert DivergedBy(tl.order, ws[k], t);
        assert c < k && DivergedBy(tl.order, ws[c], t);
      }
    }
  }

  /** Where the collected histories begin in a steady order, no time is taken that is not visible. */
  lemma NoneHidden(tl: Timeline, ws: seq<int>, begin: int, end: int, t: int)
    requires Listed(tl.order, ws, begin, end) && Steady(tl.order, ws, begin, end)
    ensures !Hidden(tl, ws, begin, end, t)
  {
    SteadyExact(tl.order, ws, begin, end);
    if Hidden(tl, ws, begin, end, t) {
      assert Hideable(tl.order, ws, begin, end, t);
    }
  }

  // ----- the super times -----

  /** A walk that may be as long as the tree is misses nothing. */
  lemma WalkAll(ks: seq<int>, start: int, end: int, max: nat)
    requires Keyed(ks) && |ks| <= max
    ensures forall x :: x in Walk(ks, start, end, max) <==> x in ks && start <= x <= end
  {
    var walked := Walk(ks, start, end, max);
    forall x | x in ks && start <= x <= end ensures x in walked {
      if x !in walked {
        SubsetSize(walked + [x], ks);
      }
    }
  }

  /** What the callback of a range keeps. */
  method KeepBut(walked: seq<int>, bound: int) returns (kept: seq<int>)
    requires Descending(walked)
    ensures Descending(kept) && forall x :: x in kept <==> x in walked && x != bound
  {
    kept := [];
    for i := 0 to |walked|
      invariant Descending(kept) && forall x :: x in kept <==> x in walked[..i] && x != bound
    {
      assert walked[..i + 1] == walked[..i] + [walked[i]];
      forall j | 0 <= j < |kept| ensures walked[i] < kept[j] {
        assert kept[j] in kept;
      }
      if walked[i] != bound {
        kept := kept + [walked[i]];
      }
    }
    assert walked[..|walked|] == walked;
  }

  ghost predicate Counted(tl: Timeline) {
    forall w <- tl.worlds :: |tl.worlds[w].index.supers| <= END_OF_TIME
  }

  /** The super times of the first n worlds that lie in reach of their intervals: nearer worlds first,
      and in each world the later ones first.  `idx` numbers the worlds. */
  ghost predicate SupersListed(tl: Timeline, ws: seq<int>, begin: int, end: int, n: nat, worlds: seq<int>,
                               supers: seq<int>, idx: seq<nat>) {
    && n <= |ws| && |worlds| == |supers| == |idx| && (forall k :: 0 <= k < |ws| ==> ws[k] in tl.worlds)
    && (forall j :: 0 <= j < |idx| ==>
          idx[j] < n && worlds[j] == ws[idx[j]] && supers[j] in tl.worlds[worlds[j]].index.supers
          && supers[j] < High(tl.order, ws, begin, end, idx[j]))
    && (forall j, k :: 0 <= j < k < |idx| ==> idx[j] <= idx[k] && (idx[j] == idx[k] ==> supers[k] < supers[j]))
    && (forall k, x :: 0 <= k < n && x in tl.worlds[ws[k]].index.supers && x < High(tl.order, ws, begin, end, k) ==>
          Has(idx, supers, k, x))
  }

  /** `SupersListed`, for callers to pass on: its definition comes into play only where `Unfold` is mentioned. */
  ghost predicate SupersOf(tl: Timeline, ws: seq<int>, begin: int, end: int, n: nat, worlds: seq<int>,
                           supers: seq<int>, idx: seq<nat>) {
    forall b {:trigger Unfold(Topic.Supers, b)} :: Unfold(Topic.Supers, b) ==>
      SupersListed(tl, ws, begin, end, n, worlds, supers, idx)
  }

  ghost predicate Has(idx: seq<nat>, supers: seq<int>, k: nat, x: int) {
    |idx| == |supers| && exists j :: 0 <= j < |idx| && idx[j] == k && supers[j] == x
  }

  function Repeated(x: int, n: nat): (r: seq<int>)
    ensures |r| == n && forall j :: 0 <= j < n ==> r[j] == x
  {
    seq(n, _ => x)
  }

  ghost function Numbered(k: nat, n: nat): (r: seq<nat>)
    ensures |r| == n && forall j :: 0 <= j < n ==> r[j] == k
  {
    seq(n, _ => k)
  }

  lemma OneMoreWorld(tl: Timeline, ws: seq<int>, begin: int, end: int, n: nat, worlds: seq<int>, supers: seq<int>,
                     idx: seq<nat>, kept: seq<int>)
    requires SupersOf(tl, ws, begin, end, n, worlds, supers, idx) && n < |ws| && Descending(kept) && ws[n] in tl.worlds
    requires forall x :: x in kept <==> x in tl.worlds[ws[n]].index.supers && x < High(tl.order, ws, begin, end, n)
    ensures SupersOf(tl, ws, begin, end, n + 1, worlds + Repeated(ws[n], |kept|), supers + kept,
      idx + Numbered(n, |kept|))
  {
    assert Unfold(Topic.Supers, true);
    var worlds', supers', idx' := worlds + Repeated(ws[n], |kept|), supers + kept, idx + Numbered(n, |kept|);
    forall j | 0 <= j < |idx'|
      ensures idx'[j] < n + 1 && worlds'[j] == ws[idx'[j]] && supers'[j] in tl.worlds[worlds'[j]].index.supers
        && supers'[j] < High(tl.order, ws, begin, end, idx'[j])
    {
      if j >= |idx| {
        assert supers'[j] == kept[j - |idx|] && kept[j - |idx|] in kept;
      }
    }
    forall k, x | 0 <= k < n + 1 && x in tl.worlds[ws[k]].index.supers && x < High(tl.order, ws, begin, end, k)
      ensures Has(idx', supers', k, x)
    {
      if k < n {
        assert Has(idx, supers, k, x);
      } else {
        assert x in kept;
      }
      HasMore(idx, supers, n, kept, k, x);
    }
  }

  lemma HasMore(idx: seq<nat>, supers: seq<int>, n: nat, kept: seq<int>, k: nat, x: int)
    requires |idx| == |supers| && (Has(idx, supers, k, x) || (k == n && x in kept))
    ensures Has(idx + Numbered(n, |kept|), supers + kept, k, x)
  {
    var idx', supers' := idx + Numbered(n, |kept|), supers + kept;
    if Has(idx, supers, k, x) {
      var j :| 0 <= j < |idx| && idx[j] == k && supers[j] == x;
      assert idx'[j] == k && supers'[j] == x;
    } else {
      var j :| 0 <= j < |kept| && kept[j] == x;
      assert idx'[|idx| + j] == k && supers'[|idx| + j] == x;
    }
  }

  ghost predicate Askable(tl: Timeline, ws: seq<int>, begin: int, end: int) {
    && Inv(tl) && Counted(tl) && Listed(tl.order, ws, begin, end)
    && forall k :: 0 <= k < |ws| ==> ws[k] in tl.worlds
  }

  /** What the range over a world's super tree is to deliver. */
  lemma SuperRange(h: History, start: int, bound: int)
    requires Sound(h, start) && Keyed(h.index.supers) && |h.index.supers| <= END_OF_TIME
    ensures var walked := Walk(h.index.supers, start, bound, END_OF_TIME);
      && Descending(walked) && forall x :: x in walked && x != bound <==> x in h.index.supers && x < bound
  {
    SupersStart(h, start);
    WalkAll(h.index.supers, start, bound, END_OF_TIME);
  }

  lemma SoundAt(tl: Timeline, w: int)
    requires Inv(tl) && w in tl.worlds
    ensures w in tl.order && Sound(tl.worlds[w], tl.order[w])
  {
  }

  lemma SupersStart(h: History, start: int)
    requires Sound(h, start)
    ensures Keyed(h.index.supers) && start in h.index.supers
    ensures forall s <- h.index.supers :: s in h.contents && start <= s
  {
    assert Unfold(Topic.Histories, true);
    forall s | s in h.index.supers ensures s in h.contents && start <= s {
      assert TreeOk(h.index, h.contents.Keys, s);
    }
    assert Floor(h.index.supers, start) in h.index.supers;
  }

  method SuperTimesBefore(h: History, start: int, bound: int) returns (kept: seq<int>)
    requires Sound(h, start) && |h.index.supers| <= END_OF_TIME
    ensures Descending(kept) && forall x :: x in kept <==> x in h.index.supers && x < bound
  {
    SupersStart(h, start);
    var walked := Walk(h.index.supers, start, bound, END_OF_TIME);
    SuperRange(h, start, bound);
    kept := KeepBut(walked, bound);
  }

  lemma NoWorldYet(tl: Timeline, ws: seq<int>, begin: int, end: int)
    requires forall k :: 0 <= k < |ws| ==> ws[k] in tl.worlds
    ensures SupersOf(tl, ws, begin, end, 0, [], [], [])
  {
  }

  method CollectSuperTimes(tl: Timeline, collectedWorlds: seq<int>, begin: int, end: int)
    returns (worlds: seq<int>, supers: seq<int>, ghost idx: seq<nat>)
    requires Askable(tl, collectedWorlds, begin, end)
    ensures SupersOf(tl, collectedWorlds, begin, end, |collectedWorlds|, worlds, supers, idx)
  {
    worlds, supers, idx := [], [], [];
    NoWorldYet(tl, collectedWorlds, begin, end);
    var previousDivergenceTime := end;
    for i := 0 to |collectedWorlds|
      invariant SupersOf(tl, collectedWorlds, begin, end, i, worlds, supers, idx)
      invariant i < |collectedWorlds| ==> previousDivergenceTime == High(tl.order, collectedWorlds, begin, end, i)
    {
      var w := collectedWorlds[i];
      SoundAt(tl, w);
      var currentDivergenceTime := Get(tl.order, w);
      var kept := SuperTimesBefore(tl.worlds[w], currentDivergenceTime, previousDivergenceTime);
      OneMoreWorld(tl, collectedWorlds, begin, end, i, worlds, supers, idx, kept);
      worlds := worlds + Repeated(w, |kept|);
      supers := supers + kept;
      idx := idx + Numbered(i, |kept|);
      previousDivergenceTime := currentDivergenceTime;
    }
  }

  // ----- the times -----

  lemma GapStep(order: map<int, int>, ws: seq<int>, begin: int, end: int, supers: seq<int>, idx: seq<nat>, k: nat)
    requires Listed(order, ws, begin, end) && k + 1 < |ws|
    requires order[ws[k]] < High(order, ws, begin, end, k) ==> Has(idx, supers, k, order[ws[k]])
    requires forall j :: 0 <= j < |idx| ==> idx[j] != k
    ensures Bound(order, ws, begin, end, k + 1) == Bound(order, ws, begin, end, k)
  {
  }

  lemma StartListed(tl: Timeline, ws: seq<int>, begin: int, end: int, worlds: seq<int>, supers: seq<int>,
                    idx: seq<nat>, k: nat)
    requires Askable(tl, ws, begin, end) && SupersOf(tl, ws, begin, end, |ws|, worlds, supers, idx) && k < |ws|
    ensures tl.order[ws[k]] < High(tl.order, ws, begin, end, k) ==> Has(idx, supers, k, tl.order[ws[k]])
  {
    assert Unfold(Topic.Supers, true);
    SoundAt(tl, ws[k]);
    SupersStart(tl.worlds[ws[k]], tl.order[ws[k]]);
  }

  /** Worlds that list nothing begin where the one before them does. */
  lemma {:induction false} GapEqual(tl: Timeline, ws: seq<int>, begin: int, end: int, worlds: seq<int>,
                                    supers: seq<int>, idx: seq<nat>, a: nat, b: nat)
    requires Askable(tl, ws, begin, end) && SupersOf(tl, ws, begin, end, |ws|, worlds, supers, idx) && a <= b < |ws|
    requires forall j :: 0 <= j < |idx| ==> !(a <= idx[j] < b)
    ensures Bound(tl.order, ws, begin, end, b) == Bound(tl.order, ws, begin, end, a)
    decreases b
  {
    if a < b {
      GapEqual(tl, ws, begin, end, worlds, supers, idx, a, b - 1);
      StartListed(tl, ws, begin, end, worlds, supers, idx, b - 1);
      GapStep(tl.order, ws, begin, end, supers, idx, b - 1);
    }
  }

  /** Time t is in the tree of entry j and in the interval of its world. */
  ghost predicate InPart(tl: Timeline, ws: seq<int>, begin: int, end: int, worlds: seq<int>, supers: seq<int>,
                         idx: seq<nat>, j: nat, t: int)
    requires j < |worlds| == |supers| == |idx| && idx[j] < |ws|
    requires worlds[j] in tl.worlds && supers[j] in tl.worlds[worlds[j]].index.trees
  {
    t in tl.worlds[worlds[j]].index.trees[supers[j]]
      && Low(tl.order, ws, begin, idx[j]) <= t < Bound(tl.order, ws, begin, end, idx[j])
  }

  /** The entries are usable: their trees are there. */
  ghost predicate Entries(tl: Timeline, ws: seq<int>, worlds: seq<int>, supers: seq<int>, idx: seq<nat>) {
    && |worlds| == |supers| == |idx|
    && forall j :: 0 <= j < |idx| ==>
         idx[j] < |ws| && worlds[j] in tl.worlds && supers[j] in tl.worlds[worlds[j]].index.trees
  }

  /** A tree holds the times of its world from its key up to the next one. */
  lemma TreeTimes(h: History, start: int, s: int)
    requires Sound(h, start) && s in h.index.supers
    ensures s in h.index.trees && Keyed(h.index.trees[s]) && |h.index.trees[s]| <= END_OF_TIME && Keyed(h.index.supers)
    ensures forall x :: x in h.index.trees[s] <==> x in h.contents && Floor(h.index.supers, x) == s
  {
    assert Unfold(Topic.Histories, true);
    assert TreeOk(h.index, h.contents.Keys, s);
  }

  lemma EntriesThere(tl: Timeline, ws: seq<int>, begin: int, end: int, worlds: seq<int>, supers: seq<int>,
                     idx: seq<nat>)
    requires Askable(tl, ws, begin, end) && SupersOf(tl, ws, begin, end, |ws|, worlds, supers, idx)
    ensures Entries(tl, ws, worlds, supers, idx)
  {
    assert Unfold(Topic.Supers, true);
    forall j | 0 <= j < |idx| ensures worlds[j] in tl.worlds && supers[j] in tl.worlds[worlds[j]].index.trees {
      SoundAt(tl, worlds[j]);
      TreeTimes(tl.worlds[worlds[j]], tl.order[worlds[j]], supers[j]);
    }
  }

  /** A later entry of the same world has earlier times. */
  lemma PartsDescend(tl: Timeline, ws: seq<int>, begin: int, end: int, worlds: seq<int>, supers: seq<int>,
                     idx: seq<nat>, j: nat, i: nat, t': int, t: int)
    requires Askable(tl, ws, begin, end) && SupersOf(tl, ws, begin, end, |ws|, worlds, supers, idx)
    requires Entries(tl, ws, worlds, supers, idx) && j < i < |idx|
    requires InPart(tl, ws, begin, end, worlds, supers, idx, j, t')
    requires InPart(tl, ws, begin, end, worlds, supers, idx, i, t)
    ensures idx[j] <= idx[i] && (idx[j] == idx[i] ==> t < t')
  {
    assert Unfold(Topic.Supers, true);
    if idx[j] == idx[i] {
      var h := tl.worlds[worlds[i]];
      SoundAt(tl, worlds[i]);
      TreeTimes(h, tl.order[worlds[i]], supers[i]);
      TreeTimes(h, tl.order[worlds[i]], supers[j]);
      assert Floor(h.index.supers, t) == supers[i] && Floor(h.index.supers, t') == supers[j];
    }
  }

  /** The times of one entry. */
  method PartOf(h: History, start: int, s: int, low: int, high: int) returns (kept: seq<int>)
    requires Sound(h, start) && s in h.index.supers && s in h.index.trees
    ensures Descending(kept) && forall t :: t in kept <==> t in h.index.trees[s] && low <= t < high
  {
    TreeTimes(h, start, s);
    var walked := Walk(h.index.trees[s], low, high, END_OF_TIME);
    WalkAll(h.index.trees[s], low, high, END_OF_TIME);
    kept := KeepBut(walked, high);
  }

  /** The bound for the next entry. */
  lemma NextBound(tl: Timeline, ws: seq<int>, begin: int, end: int, worlds: seq<int>, supers: seq<int>, idx: seq<nat>,
                  i: nat)
    requires Askable(tl, ws, begin, end) && SupersOf(tl, ws, begin, end, |ws|, worlds, supers, idx) && Distinct(ws)
    requires i + 1 < |idx|
    requires Entries(tl, ws, worlds, supers, idx)
    ensures Bound(tl.order, ws, begin, end, idx[i + 1]) ==
      if worlds[i + 1] != worlds[i] then Low(tl.order, ws, begin, idx[i]) else Bound(tl.order, ws, begin, end, idx[i])
  {
    assert Unfold(Topic.Supers, true);
    SoundAt(tl, worlds[i]);
    SupersStart(tl.worlds[worlds[i]], tl.order[worlds[i]]);
    if idx[i + 1] != idx[i] {
      assert idx[i] < idx[i + 1] && ws[idx[i]] != ws[idx[i + 1]];
      GapEqual(tl, ws, begin, end, worlds, supers, idx, idx[i] + 1, idx[i + 1]);
    }
  }

  lemma FirstBound(tl: Timeline, ws: seq<int>, begin: int, end: int, worlds: seq<int>, supers: seq<int>, idx: seq<nat>)
    requires Askable(tl, ws, begin, end) && SupersOf(tl, ws, begin, end, |ws|, worlds, supers, idx) && idx != []
    requires Entries(tl, ws, worlds, supers, idx)
    ensures Bound(tl.order, ws, begin, end, idx[0]) == end
  {
    assert Unfold(Topic.Supers, true);
    GapEqual(tl, ws, begin, end, worlds, supers, idx, 0, idx[0]);
  }

  /** Times with the numbers of their worlds: nearer worlds first, and in each world the later times first. */
  ghost predicate Ordered(times: seq<int>, from: seq<nat>) {
    && |times| == |from|
    && forall i, j :: 0 <= i < j < |times| ==> from[i] <= from[j] && (from[i] == from[j] ==> times[j] < times[i])
  }

  /** Time t is delivered as one of world k. */
  ghost predicate Delivered(times: seq<int>, from: seq<nat>, k: nat, t: int) {
    exists i :: 0 <= i < |times| && i < |from| && from[i] == k && times[i] == t
  }

  /** The times of the first n entries. */
  ghost predicate Gathered(tl: Timeline, ws: seq<int>, begin: int, end: int, worlds: seq<int>, supers: seq<int>,
                           idx: seq<nat>, n: nat, times: seq<int>, from: seq<nat>) {
    && Entries(tl, ws, worlds, supers, idx) && n <= |idx| && Ordered(times, from)
    && forall k, t :: Delivered(times, from, k, t) <==>
         exists j :: 0 <= j < n && idx[j] == k && InPart(tl, ws, begin, end, worlds, supers, idx, j, t)
  }

  lemma DeliveredMore(times: seq<int>, from: seq<nat>, kept: seq<int>, n: nat, k: nat, t: int)
    requires |times| == |from|
    ensures Delivered(times + kept, from + Numbered(n, |kept|), k, t) <==>
      Delivered(times, from, k, t) || (k == n && t in kept)
  {
    var all, marks := times + kept, from + Numbered(n, |kept|);
    if i :| 0 <= i < |times| && from[i] == k && times[i] == t {
      assert marks[i] == k && all[i] == t;
    }
    if k == n && t in kept {
      var i :| 0 <= i < |kept| && kept[i] == t;
      assert marks[|times| + i] == k && all[|times| + i] == t;
    }
  }

  lemma GatherOne(tl: Timeline, ws: seq<int>, begin: int, end: int, worlds: seq<int>, supers: seq<int>, idx: seq<nat>,
                  n: nat, times: seq<int>, from: seq<nat>, kept: seq<int>)
    requires Askable(tl, ws, begin, end) && SupersOf(tl, ws, begin, end, |ws|, worlds, supers, idx)
    requires Gathered(tl, ws, begin, end, worlds, supers, idx, n, times, from) && n < |idx| && Descending(kept)
    requires forall t :: t in kept <==> InPart(tl, ws, begin, end, worlds, supers, idx, n, t)
    ensures Gathered(tl, ws, begin, end, worlds, supers, idx, n + 1, times + kept, from + Numbered(idx[n], |kept|))
  {
    var all, marks := times + kept, from + Numbered(idx[n], |kept|);
    forall a, b | 0 <= a < b < |all| ensures marks[a] <= marks[b] && (marks[a] == marks[b] ==> all[b] < all[a]) {
      if a < |times| <= b {
        assert Delivered(times, from, from[a], times[a]) && kept[b - |times|] in kept;
        var j :| 0 <= j < n && idx[j] == from[a] && InPart(tl, ws, begin, end, worlds, supers, idx, j, times[a]);
        PartsDescend(tl, ws, begin, end, worlds, supers, idx, j, n, times[a], kept[b - |times|]);
      }
    }
    forall k, t
      ensures Delivered(all, marks, k, t) <==>
        exists j :: 0 <= j < n + 1 && idx[j] == k && InPart(tl, ws, begin, end, worlds, supers, idx, j, t)
    {
      DeliveredMore(times, from, kept, idx[n], k, t);
    }
  }

  method CollectTimes(tl: Timeline, ghost ws: seq<int>, collectedWorlds: seq<int>, collectedSuperTimes: seq<int>,
                      ghost idx: seq<nat>, begin: int, end: int)
    returns (times: seq<int>, ghost from: seq<nat>)
    requires Askable(tl, ws, begin, end) && Distinct(ws)
    requires SupersOf(tl, ws, begin, end, |ws|, collectedWorlds, collectedSuperTimes, idx)
    requires Entries(tl, ws, collectedWorlds, collectedSuperTimes, idx)
    ensures Gathered(tl, ws, begin, end, collectedWorlds, collectedSuperTimes, idx, |idx|, times, from)
  {
    times, from := [], [];
    var previousDivergenceTime := end;
    var collectedSize := |collectedSuperTimes|;
    if collectedSize > 0 {
      FirstBound(tl, ws, begin, end, collectedWorlds, collectedSuperTimes, idx);
    }
    for i := 0 to collectedSize
      invariant Gathered(tl, ws, begin, end, collectedWorlds, collectedSuperTimes, idx, i, times, from)
      invariant i < collectedSize ==> previousDivergenceTime == Bound(tl.order, ws, begin, end, idx[i])
    {
      var w := collectedWorlds[i];
      EntryAt(tl, ws, begin, end, collectedWorlds, collectedSuperTimes, idx, i);
      var currentDivergenceTime := Get(tl.order, w);
      if currentDivergenceTime < begin {
        currentDivergenceTime := begin;
      }
      var kept := PartOf(tl.worlds[w], tl.order[w], collectedSuperTimes[i], currentDivergenceTime,
        previousDivergenceTime);
      GatherOne(tl, ws, begin, end, collectedWorlds, collectedSuperTimes, idx, i, times, from, kept);
      times, from := times + kept, from + Numbered(idx[i], |kept|);
      if i < collectedSize - 1 {
        NextBound(tl, ws, begin, end, collectedWorlds, collectedSuperTimes, idx, i);
        if collectedWorlds[i + 1] != collectedWorlds[i] {
          previousDivergenceTime := currentDivergenceTime;
        }
      }
    }
  }

  lemma EntryAt(tl: Timeline, ws: seq<int>, begin: int, end: int, worlds: seq<int>, supers: seq<int>, idx: seq<nat>,
                i: nat)
    requires Askable(tl, ws, begin, end) && SupersOf(tl, ws, begin, end, |ws|, worlds, supers, idx)
    requires Entries(tl, ws, worlds, supers, idx)
    requires i < |idx|
    ensures worlds[i] == ws[idx[i]] && worlds[i] in tl.order && Sound(tl.worlds[worlds[i]], tl.order[worlds[i]])
    ensures supers[i] in tl.worlds[worlds[i]].index.supers
  {
    assert Unfold(Topic.Supers, true);
    SoundAt(tl, worlds[i]);
  }

  /** The entries' parts are all the times in the intervals of the collected worlds. */
  lemma PartsAreAll(tl: Timeline, ws: seq<int>, begin: int, end: int, worlds: seq<int>, supers: seq<int>,
                    idx: seq<nat>, k: nat, t: int)
    requires Askable(tl, ws, begin, end) && SupersOf(tl, ws, begin, end, |ws|, worlds, supers, idx)
    requires Entries(tl, ws, worlds, supers, idx)
    ensures (exists j :: 0 <= j < |idx| && idx[j] == k && InPart(tl, ws, begin, end, worlds, supers, idx, j, t)) <==>
      k < |ws| && Taken(tl, ws, begin, end, k, t)
  {
    if j :| 0 <= j < |idx| && idx[j] == k && InPart(tl, ws, begin, end, worlds, supers, idx, j, t) {
      EntryAt(tl, ws, begin, end, worlds, supers, idx, j);
      TreeTimes(tl.worlds[worlds[j]], tl.order[worlds[j]], supers[j]);
      assert Taken(tl, ws, begin, end, k, t);
    }
    if k < |ws| && Taken(tl, ws, begin, end, k, t) {
      var j := PartFor(tl, ws, begin, end, worlds, supers, idx, t, k);
    }
  }

  lemma PartFor(tl: Timeline, ws: seq<int>, begin: int, end: int, worlds: seq<int>, supers: seq<int>, idx: seq<nat>,
                t: int, k: nat) returns (j: nat)
    requires Askable(tl, ws, begin, end) && SupersOf(tl, ws, begin, end, |ws|, worlds, supers, idx)
    requires Entries(tl, ws, worlds, supers, idx)
    requires k < |ws| && Taken(tl, ws, begin, end, k, t)
    ensures j < |idx| && idx[j] == k && InPart(tl, ws, begin, end, worlds, supers, idx, j, t)
  {
    assert Unfold(Topic.Supers, true);
    var h := tl.worlds[ws[k]];
    SoundAt(tl, ws[k]);
    BoundBelowHigh(tl.order, ws, begin, end, k);
    var s := SuperOf(h, tl.order[ws[k]], t);
    assert Has(idx, supers, k, s);
    j :| 0 <= j < |idx| && idx[j] == k && supers[j] == s;
  }

  lemma SuperOf(h: History, start: int, t: int) returns (s: int)
    requires Sound(h, start) && t in h.contents
    ensures s in h.index.supers && s <= t && s in h.index.trees && t in h.index.trees[s]
  {
    assert Unfold(Topic.Histories, true);
    s := Floor(h.index.supers, t);
    assert TreeOk(h.index, h.contents.Keys, s);
  }

  // ----- the query -----

  lemma {:induction false} LineDistinct(f: Forest, w: int)
    requires Grown(f) && w in f.depth
    ensures Distinct(Line(f, w))
  {
    var line := Line(f, w);
    forall j, k | 0 <= j < k < |line| ensures line[j] != line[k] {
      LineDescends(f, w, j, k);
    }
  }

  lemma {:induction false} ShowingDistinct(order: map<int, int>, line: seq<int>, begin: int, end: int)
    requires Distinct(line)
    ensures Distinct(Showing(order, line, begin, end))
  {
    if line != [] {
      var rest, ws := line[1..], Showing(order, line, begin, end);
      ShowingDistinct(order, rest, begin, end);
      ShowingIn(order, rest, begin, end);
      assert line[0] !in rest;
      var d := Get(order, line[0]);
      if d != NULL_LONG && begin < d <= end {
        var ws' := Showing(order, rest, begin, end);
        forall i, j | 0 <= i < j < |ws| ensures ws[i] != ws[j] {
          assert ws[j] == ws'[j - 1] && ws'[j - 1] in ws';
        }
      }
    }
  }

  lemma ShowingAskable(tl: Timeline, w: int, begin: int, end: int)
    requires Inv(tl) && Counted(tl) && w in tl.forest.depth
    ensures Askable(tl, Showing(tl.order, Line(tl.forest, w), begin, end), begin, end)
  {
    var line := Line(tl.forest, w);
    var ws := Showing(tl.order, line, begin, end);
    ShowingListed(tl.order, line, begin, end);
  }

  /** The answer: world after world, nearer ones first, exactly the times taken of each, the later ones first.  These
      are every time in [begin, end) at which a read is answered with a state written at that very time, and besides
      only hidden times.  When the collected histories begin in a steady order, there are none of these, and the
      answer descends without repetitions. */
  method ResolveTimepoints(tl: Timeline, world: int, begin: int, end: int)
    returns (times: seq<int>, ghost from: seq<nat>)
    requires Inv(tl) && Counted(tl) && world in tl.forest.depth
    ensures Ordered(times, from)
    ensures forall k: nat, t :: Delivered(times, from, k, t) <==> TakenFrom(tl, world, begin, end, k, t)
    ensures forall t :: t in times <==>
      begin <= t < end && (Visible(tl, world, t) || Hidden(tl, Shown(tl, world, begin, end), begin, end, t))
    ensures Steady(tl.order, Shown(tl, world, begin, end), begin, end) ==>
      Descending(times) && forall t :: t in times <==> begin <= t < end && Visible(tl, world, t)
  {
    ghost var line := Line(tl.forest, world);
    var ws := CollectWorlds(tl.forest, tl.order, world, begin, end);
    LineDistinct(tl.forest, world);
    ShowingDistinct(tl.order, line, begin, end);
    ShowingAskable(tl, world, begin, end);
    var worlds, supers;
    ghost var idx;
    worlds, supers, idx := CollectSuperTimes(tl, ws, begin, end);
    EntriesThere(tl, ws, begin, end, worlds, supers, idx);
    times, from := CollectTimes(tl, ws, worlds, supers, idx, begin, end);
    forall k: nat, t ensures Delivered(times, from, k, t) <==> TakenFrom(tl, world, begin, end, k, t) {
      PartsAreAll(tl, ws, begin, end, worlds, supers, idx, k, t);
    }
    forall t ensures t in times <==> begin <= t < end && (Visible(tl, world, t) || Hidden(tl, ws, begin, end, t)) {
      AnswerAt(tl, world, begin, end, times, from, t);
    }
    if Steady(tl.order, ws, begin, end) {
      SteadyAnswer(tl, world, begin, end, times, from);
      forall t ensures t in times <==> begin <= t < end && Visible(tl, world, t) {
        NoneHidden(tl, ws, begin, end, t);
      }
    }
  }

  /** Time t is one of the k-th collected world, and in its interval. */
  ghost predicate TakenFrom(tl: Timeline, world: int, begin: int, end: int, k: nat, t: int)
    requires Grown(tl.forest) && world in tl.forest.depth
  {
    k < |Shown(tl, world, begin, end)| && Taken(tl, Shown(tl, world, begin, end), begin, end, k, t)
  }

  lemma AnswerAt(tl: Timeline, world: int, begin: int, end: int, times: seq<int>, from: seq<nat>, t: int)
    requires Inv(tl) && world in tl.forest.depth && |times| == |from|
    requires forall k: nat, x :: Delivered(times, from, k, x) <==> TakenFrom(tl, world, begin, end, k, x)
    ensures t in times <==>
      begin <= t < end && (Visible(tl, world, t) || Hidden(tl, Shown(tl, world, begin, end), begin, end, t))
  {
    var ws := Shown(tl, world, begin, end);
    ShowingListed(tl.order, Line(tl.forest, world), begin, end);
    if t in times {
      var i :| 0 <= i < |times| && times[i] == t;
      assert Delivered(times, from, from[i], t);
      BoundBelowHigh(tl.order, ws, begin, end, from[i]);
    }
    if begin <= t < end {
      VisibleBy(tl, world, begin, end, t);
      if k :| 0 <= k < |ws| && Taken(tl, ws, begin, end, k, t) {
        assert Delivered(times, from, k, t);
      }
    }
  }

  lemma SteadyAnswer(tl: Timeline, world: int, begin: int, end: int, times: seq<int>, from: seq<nat>)
    requires Inv(tl) && world in tl.forest.depth && Ordered(times, from)
    requires forall k: nat, x :: Delivered(times, from, k, x) <==> TakenFrom(tl, world, begin, end, k, x)
    requires Steady(tl.order, Shown(tl, world, begin, end), begin, end)
    ensures Descending(times)
  {
    var ws := Shown(tl, world, begin, end);
    forall i, j | 0 <= i < j < |times| ensures times[j] < times[i] {
      assert Delivered(times, from, from[i], times[i]) && Delivered(times, from, from[j], times[j]);
      assert from[i] < from[j] ==> Bound(tl.order, ws, begin, end, from[j]) <= Low(tl.order, ws, begin, from[i]);
    }
  }

  // ----- when the order is steady -----

  lemma {:induction false} ShowingTapers(order: map<int, int>, line: seq<int>, begin: int, end: int)
    requires Tapering(order, line)
    ensures Tapering(order, Showing(order, line, begin, end))
  {
    if line != [] {
      var rest := line[1..];
      ShowingTapers(order, rest, begin, end);
      ShowingIn(order, rest, begin, end);
      var ws' := Showing(order, rest, begin, end);
      forall w | w in ws' && w in order && line[0] in order ensures order[w] <= order[line[0]] {
        assert w in rest;
        var j :| 0 <= j < |rest| && rest[j] == w;
        assert line[j + 1] == w;
      }
    }
  }

  /** In a tapering line every query is answered exactly. */
  lemma TaperingSteady(order: map<int, int>, line: seq<int>, begin: int, end: int)
    requires Tapering(order, line)
    ensures Steady(order, Showing(order, line, begin, end), begin, end)
  {
    var ws := Showing(order, line, begin, end);
    ShowingTapers(order, line, begin, end);
    ShowingListed(order, line, begin, end);
    forall j, k | 0 <= j < k < |ws| ensures Bound(order, ws, begin, end, k) <= order[ws[j]] {
      BoundIsLeast(order, ws, begin, end, k);
    }
  }

  ghost predicate AllTaper(tl: Timeline)
    requires Grown(tl.forest)
  {
    forall v <- tl.forest.depth :: Tapering(tl.order, Line(tl.forest, v))
  }

  /** In the line, a history of u from t on begins no later than the nearer ones and no earlier than the farther. */
  ghost predicate Between(order: map<int, int>, line: seq<int>, u: int, t: int) {
    && (forall i, j :: 0 <= i < j < |line| && line[j] == u && line[i] in order ==> t <= order[line[i]])
    && (forall i, j :: 0 <= i < j < |line| && line[i] == u && line[j] in order ==> order[line[j]] <= t)
  }

  lemma BetweenTapers(order: map<int, int>, line: seq<int>, u: int, t: int)
    requires Tapering(order, line) && u !in order && Distinct(line)
    ensures Tapering(order[u := t], line) <==> Between(order, line, u, t)
  {
    if Tapering(order[u := t], line) {
      forall i, j | 0 <= i < j < |line| && line[j] == u && line[i] in order ensures t <= order[line[i]] {
        assert order[u := t][line[j]] <= order[u := t][line[i]];
      }
      forall i, j | 0 <= i < j < |line| && line[i] == u && line[j] in order ensures order[line[j]] <= t {
        assert order[u := t][line[j]] <= order[u := t][line[i]];
      }
    }
  }

  /** What a first write is to keep to, in every line. */
  ghost predicate BeginsBetween(tl: Timeline, step: Step) {
    step.Phased? && step.world !in tl.order && Grown(tl.forest) ==>
      forall v <- tl.forest.depth :: Between(tl.order, Line(tl.forest, v), step.world, step.time)
  }

  /** Births and writes into a history keep all lines tapering; the first write in a world keeps them exactly
      when it lies between the beginnings of the nearer and the farther histories in every line. */
  lemma StepTapers(tl: Timeline, step: Step)
    requires Allowed(tl, step) && AllTaper(tl)
    ensures Inv(After(tl, step))
    ensures AllTaper(After(tl, step)) <==> BeginsBetween(tl, step)
  {
    StepKeeps(tl, step);
    match step
    case Born(parent, child) => BirthTapers(tl, parent, child);
    case Phased(w, t, content) =>
      WriteParts(tl, w, t, content);
      if w !in tl.order {
        forall v | v in tl.forest.depth
          ensures Tapering(tl.order[w := t], Line(tl.forest, v)) <==> Between(tl.order, Line(tl.forest, v), w, t)
        {
          LineDistinct(tl.forest, v);
          BetweenTapers(tl.order, Line(tl.forest, v), w, t);
        }
      }
  }

  lemma BirthTapers(tl: Timeline, parent: int, child: int)
    requires Inv(tl) && parent in tl.forest.depth && Fresh(tl.forest, child) && AllTaper(tl)
    ensures Inv(Bear(tl, parent, child)) && AllTaper(Bear(tl, parent, child))
  {
    BearReads(tl, parent, child);
    DivergeKeeps(tl.forest, parent, child);
  }

  /** In every state of a run whose first writes lie so, every query is answered exactly. */
  lemma {:induction false} RunTapers(states: seq<Timeline>, steps: seq<Step>, n: nat)
    requires Run(states, steps) && Inv(states[0]) && AllTaper(states[0]) && n <= |steps|
    requires forall i :: 0 <= i < n ==> BeginsBetween(states[i], steps[i])
    ensures Inv(states[n]) && AllTaper(states[n])
    ensures forall w, begin, end :: w in states[n].forest.depth ==>
      Steady(states[n].order, Shown(states[n], w, begin, end), begin, end)
  {
    if n > 0 {
      RunTapers(states, steps, n - 1);
      StepTapers(states[n - 1], steps[n - 1]);
    }
    forall w, begin, end | w in states[n].forest.depth
      ensures Steady(states[n].order, Shown(states[n], w, begin, end), begin, end) {
      TaperingSteady(states[n].order, Line(states[n].forest, w), begin, end);
    }
  }
}
