/** The forest of worlds and the nearest world in which a node has diverged. */
module Worlds {
  import opened Constants

  /** `parent` is the global world order; `depth` knows every world there is, the roots included, and
      bounds the length of each climb. */
  datatype Forest = Forest(parent: map<int, int>, depth: map<int, nat>)

  ghost predicate Grown(f: Forest) {
    && NULL_LONG !in f.depth
    && forall w <- f.parent :: w in f.depth && f.parent[w] in f.depth && f.depth[f.parent[w]] < f.depth[w]
  }

  /** The get() of a world order chunk. */
  function Get(m: map<int, int>, w: int): int {
    if w in m then m[w] else NULL_LONG
  }

  /** A world and its ancestors, nearest first. */
  ghost function Line(f: Forest, w: int): (l: seq<int>)
    requires Grown(f) && w in f.depth
    ensures l != [] && l[0] == w && forall x <- l :: x in f.depth
    decreases f.depth[w]
  {
    if w in f.parent then [w] + Line(f, f.parent[w]) else [w]
  }

  /** initWorld. */
  function Diverge(f: Forest, parent: int, child: int): Forest
    requires parent in f.depth
  {
    Forest(f.parent[child := parent], f.depth[child := f.depth[parent] + 1])
  }

  ghost predicate Fresh(f: Forest, child: int) {
    child !in f.depth && child != NULL_LONG
  }

  lemma {:induction false} SameLine(f: Forest, parent: int, child: int, w: int)
    requires Grown(f) && parent in f.depth && Fresh(f, child) && w in f.depth && Grown(Diverge(f, parent, child))
    ensures Line(Diverge(f, parent, child), w) == Line(f, w)
    decreases f.depth[w]
  {
    if w in f.parent {
      SameLine(f, parent, child, f.parent[w]);
    }
  }

  /** Only fresh worlds are born, so no ancestry ever changes and every climb stays finite. */
  lemma DivergeKeeps(f: Forest, parent: int, child: int)
    requires Grown(f) && parent in f.depth && Fresh(f, child)
    ensures var g := Diverge(f, parent, child);
      && Grown(g) && Line(g, child) == [child] + Line(f, parent)
      && forall w <- f.depth :: w in g.depth && Line(g, w) == Line(f, w)
  {
    var g := Diverge(f, parent, child);
    forall w | w in f.depth ensures Line(g, w) == Line(f, w) {
      SameLine(f, parent, child, w);
    }
  }

  /** How a world in the line continues it. */
  lemma {:induction false} LineNext(f: Forest, w: int, k: nat)
    requires Grown(f) && w in f.depth && k < |Line(f, w)|
    ensures Get(f.parent, Line(f, w)[k]) == if k + 1 < |Line(f, w)| then Line(f, w)[k + 1] else NULL_LONG
    decreases k
  {
    if k > 0 {
      LineNext(f, f.parent[w], k - 1);
    }
  }

  /** An acyclic line: no world is its own ancestor. */
  lemma {:induction false} LineDescends(f: Forest, w: int, j: nat, k: nat)
    requires Grown(f) && w in f.depth && j < k < |Line(f, w)|
    ensures f.depth[Line(f, w)[k]] < f.depth[Line(f, w)[j]]
    decreases k - j
  {
    LineNext(f, w, j);
    if j + 1 < k {
      LineDescends(f, w, j + 1, k);
    }
  }

  /** The node has an own history in world w that starts at or before t. */
  predicate DivergedBy(order: map<int, int>, w: int, t: int) {
    Get(order, w) != NULL_LONG && Get(order, w) <= t
  }

  /** World `w` is met on the climb before any other world with a history by t. */
  ghost predicate Met(order: map<int, int>, line: seq<int>, t: int, w: int) {
    exists k :: 0 <= k < |line| && line[k] == w && forall j :: 0 <= j < k ==> !DivergedBy(order, line[j], t)
  }

  /** `r` is the nearest world in the line with a history by t, or the first world when there is none. */
  ghost predicate IsNearest(order: map<int, int>, line: seq<int>, t: int, r: int) {
    if exists w <- line :: DivergedBy(order, w, t) then DivergedBy(order, r, t) && Met(order, line, t, r)
    else line != [] && r == line[0]
  }

  /** How many worlds of the line come before the first one with a history by t. */
  ghost function Climbed(order: map<int, int>, line: seq<int>, t: int): (k: nat)
    ensures k <= |line| && (k < |line| ==> DivergedBy(order, line[k], t))
    ensures forall j :: 0 <= j < k ==> !DivergedBy(order, line[j], t)
  {
    if line == [] || DivergedBy(order, line[0], t) then 0 else 1 + Climbed(order, line[1..], t)
  }

  ghost function Nearest(order: map<int, int>, line: seq<int>, t: int): (r: int)
    requires line != []
    ensures IsNearest(order, line, t, r) && r in line
  {
    var k := Climbed(order, line, t);
    if k < |line| then
      assert Met(order, line, t, line[k]);
      line[k]
    else line[0]
  }

  lemma NearestUnique(order: map<int, int>, line: seq<int>, t: int, r: int, s: int)
    requires IsNearest(order, line, t, r) && IsNearest(order, line, t, s)
    ensures r == s
  {
  }

  /** resolve_world: the climb ends on every forest grown by divergence. */
  method ResolveWorld(f: Forest, nodeWorldOrder: map<int, int>, timeToResolve: int, originWorld: int) returns (r: int)
    requires Grown(f) && originWorld in f.depth && NULL_LONG !in nodeWorldOrder
    ensures IsNearest(nodeWorldOrder, Line(f, originWorld), timeToResolve, r)
  {
    ghost var line := Line(f, originWorld);
    ghost var k := 0;
    var currentUniverse := originWorld;
    var previousUniverse := NULL_LONG;
    var divergenceTime := Get(nodeWorldOrder, currentUniverse);
    while currentUniverse != previousUniverse
      invariant k <= |line| + 1 && divergenceTime == Get(nodeWorldOrder, currentUniverse)
      invariant currentUniverse == if k < |line| then line[k] else NULL_LONG
      invariant k <= |line| ==> previousUniverse == if k == 0 then NULL_LONG else line[k - 1]
      invariant k > |line| ==> previousUniverse == NULL_LONG
      invariant forall j :: 0 <= j < k && j < |line| ==> !DivergedBy(nodeWorldOrder, line[j], timeToResolve)
      decreases |line| + 1 - k
    {
      if divergenceTime != NULL_LONG && divergenceTime <= timeToResolve {
        assert k < |line| && line[k] in line;
        assert Met(nodeWorldOrder, line, timeToResolve, currentUniverse);
        return currentUniverse;
      }
      if k < |line| {
        LineNext(f, originWorld, k);
      }
      previousUniverse := currentUniverse;
      currentUniverse := Get(f.parent, currentUniverse);
      divergenceTime := Get(nodeWorldOrder, currentUniverse);
      k := k + 1;
    }
    LineStops(f, originWorld, k, currentUniverse, previousUniverse);
    return originWorld;
  }

  /** The climb stops at two equal worlds in a row only past the end of the line. */
  lemma LineStops(f: Forest, w: int, k: nat, current: int, previous: int)
    requires Grown(f) && w in f.depth && k <= |Line(f, w)| + 1 && current == previous
    requires current == if k < |Line(f, w)| then Line(f, w)[k] else NULL_LONG
    requires k <= |Line(f, w)| ==> previous == if k == 0 then NULL_LONG else Line(f, w)[k - 1]
    ensures k > |Line(f, w)|
  {
    if 0 < k < |Line(f, w)| {
      LineDescends(f, w, k - 1, k);
    }
  }
}
