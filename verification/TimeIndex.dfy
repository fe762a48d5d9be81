/** The two-level time index of a node in one world: a super tree of times, each the key of a time tree.
    The trees stand for their keys in the order of insertion; TimeTree.dfy proves what their operations
    do to those. */
module TimeIndex {
  import opened Constants
  import opened TimeLine

  predicate IsTime(t: int) {
    BEGINNING_OF_TIME <= t <= END_OF_TIME
  }

  /** The keys of a time tree. */
  ghost predicate Keyed(ks: seq<int>) {
    Distinct(ks) && forall k <- ks :: IsTime(k)
  }

  function Added(ks: seq<int>, k: int): seq<int> {
    if k in ks then ks else ks + [k]
  }

  lemma AddedKeyed(ks: seq<int>, k: int)
    requires Keyed(ks) && IsTime(k)
    ensures Keyed(Added(ks, k)) && forall x :: x in Added(ks, k) <==> x in ks || x == k
  {
  }

  /** previousOrEqual of a time tree with these keys. */
  function Floor(ks: seq<int>, t: int): (f: int)
    requires forall k <- ks :: IsTime(k)
    ensures if f == NULL_LONG then forall k <- ks :: t < k else IsFloor(ks, t, f)
  {
    if ks == [] then NULL_LONG
    else
      var rest, k := ks[..|ks| - 1], ks[|ks| - 1];
      LastIn(ks);
      var f := Floor(rest, t);
      FloorStep(ks, t, f);
      if k <= t && (f == NULL_LONG || f < k) then k else f
  }

  lemma FloorStep(ks: seq<int>, t: int, f: int)
    requires ks != [] && forall k <- ks :: IsTime(k)
    requires var rest := ks[..|ks| - 1]; if f == NULL_LONG then forall k <- rest :: t < k else IsFloor(rest, t, f)
    ensures var k := ks[|ks| - 1]; var r := if k <= t && (f == NULL_LONG || f < k) then k else f;
      if r == NULL_LONG then forall x <- ks :: t < x else IsFloor(ks, t, r)
  {
    LastIn(ks);
    assert ks[|ks| - 1] in ks;
  }

  lemma LastIn(ks: seq<int>)
    requires ks != []
    ensures forall x :: x in ks <==> x in ks[..|ks| - 1] || x == ks[|ks| - 1]
  {
    assert ks == ks[..|ks| - 1] + [ks[|ks| - 1]];
  }

  /** The keys a range walk from `end` downward meets. */
  function Walk(ks: seq<int>, start: int, end: int, max: nat): (walked: seq<int>)
    requires forall k <- ks :: IsTime(k)
    ensures IsRange(walked, ks, start, end, max)
    decreases max
  {
    if max == 0 then []
    else
      var f := Floor(ks, end);
      if f == NULL_LONG || f < start then []
      else
        var rest := Walk(ks, start, f - 1, max - 1);
        WalkStep(ks, start, end, max, f, rest);
        [f] + rest
  }

  lemma WalkStep(ks: seq<int>, start: int, end: int, max: nat, f: int, rest: seq<int>)
    requires max > 0 && IsFloor(ks, end, f) && start <= f && IsRange(rest, ks, start, f - 1, max - 1)
    ensures IsRange([f] + rest, ks, start, end, max)
  {
    var walked := [f] + rest;
    forall i, j | 0 <= i < j < |walked| ensures walked[j] < walked[i] {
      assert walked[j] == rest[j - 1] && rest[j - 1] in rest;
      if i > 0 {
        assert walked[i] == rest[i - 1];
      }
    }
    assert forall x :: x in walked <==> x == f || x in rest;
  }

  /** A range has one answer, so `Walk` is what the time tree's range delivers. */
  lemma RangeUnique(a: seq<int>, b: seq<int>, ks: seq<int>, start: int, end: int, max: nat)
    requires IsRange(a, ks, start, end, max) && IsRange(b, ks, start, end, max)
    ensures a == b
  {
    if a != b {
      var i := FirstDifference(a, b);
      NotAhead(a, b, ks, start, end, max, i);
      NotAhead(b, a, ks, start, end, max, i);
    }
  }

  lemma FirstDifference(a: seq<int>, b: seq<int>) returns (i: nat)
    requires a != b
    ensures i <= |a| && i <= |b| && a[..i] == b[..i] && (i < |a| || i < |b|) && (i < |a| && i < |b| ==> a[i] != b[i])
  {
    i := 0;
    while i < |a| && i < |b| && a[i] == b[i]
      invariant i <= |a| && i <= |b| && a[..i] == b[..i]
      decreases |a| - i
    {
      i := i + 1;
    }
  }

  /** After a common beginning, `a` cannot go on with a greater key than `b`. */
  lemma NotAhead(a: seq<int>, b: seq<int>, ks: seq<int>, start: int, end: int, max: nat, i: nat)
    requires IsRange(a, ks, start, end, max) && IsRange(b, ks, start, end, max)
    requires i <= |a| && i <= |b| && a[..i] == b[..i]
    ensures !(i < |a| && (i < |b| ==> b[i] < a[i]))
  {
    if i < |a| && (i < |b| ==> b[i] < a[i]) {
      assert a[i] in a && (i < |b| ==> b[i] in b);
      forall j | 0 <= j < |b| ensures b[j] != a[i] {
        if j < i {
          assert b[j] == a[..i][j] == a[j];
        }
      }
    }
  }

  const SCALE_1: nat := 1000
  const SCALE_2: nat := 10000
  const SCALE_3: nat := 100000
  const SCALE_4: nat := 1000000

  /** The size at which a time tree is split. */
  function Threshold(superTreeSize: nat): (threshold: nat)
    ensures threshold >= 2000 && threshold % 2 == 0
  {
    var t1 := SCALE_1 * 2;
    var t2 := if superTreeSize > t1 then SCALE_2 * 2 else t1;
    var t3 := if superTreeSize > t2 then SCALE_3 * 2 else t2;
    if superTreeSize > t3 then SCALE_4 * 2 else t3
  }

  /** The sizes at which time trees are split: 2000 keys under a super tree of up to 2000, and ten times as many
      from there on, from 20000 on and from 200000 on. */
  lemma ThresholdIs(superTreeSize: nat)
    ensures superTreeSize <= 2000 ==> Threshold(superTreeSize) == 2000
    ensures 2000 < superTreeSize <= 20000 ==> Threshold(superTreeSize) == 20000
    ensures 20000 < superTreeSize <= 200000 ==> Threshold(superTreeSize) == 200000
    ensures superTreeSize > 200000 ==> Threshold(superTreeSize) == 2000000
  {
  }

  lemma ThresholdGrows(a: nat, b: nat)
    requires a <= b
    ensures Threshold(a) <= Threshold(b)
  {
  }

  datatype Index = Index(supers: seq<int>, trees: map<int, seq<int>>)

  /** The time tree at `s` holds exactly the times from `s` up to the next key of the super tree. */
  ghost predicate TreeOk(ix: Index, flat: set<int>, s: int)
    requires Keyed(ix.supers)
  {
    && s in ix.trees && Keyed(ix.trees[s]) && s in ix.trees[s] && |ix.trees[s]| < Threshold(|ix.supers|)
    && forall x :: x in ix.trees[s] <==> x in flat && Floor(ix.supers, x) == s
  }

  /** The index stands for one flat set of times. */
  ghost predicate Refines(ix: Index, flat: set<int>) {
    && Keyed(ix.supers)
    && (forall s <- ix.supers :: TreeOk(ix, flat, s))
    && (forall x <- flat :: IsTime(x) && Floor(ix.supers, x) != NULL_LONG)
  }

  ghost predicate IsFloorOf(flat: set<int>, t: int, f: int) {
    f in flat && f <= t && forall x <- flat :: x <= t ==> x <= f
  }

  /** A time whose tree is not the one for t lies below that tree. */
  lemma EarlierTree(supers: seq<int>, x: int, t: int)
    requires Keyed(supers) && x <= t && Floor(supers, x) != NULL_LONG
    ensures var s := Floor(supers, t); s != NULL_LONG && s in supers && (Floor(supers, x) != s ==> x < s)
  {
  }

  /** Two floors in a row are the floor in the flat set, for every t. */
  lemma FloorOfFloor(ix: Index, flat: set<int>, t: int)
    requires Refines(ix, flat)
    ensures var s := Floor(ix.supers, t);
      if s == NULL_LONG then forall x <- flat :: t < x
      else s in ix.supers && TreeOk(ix, flat, s) && IsFloorOf(flat, t, Floor(ix.trees[s], t))
  {
    var s := Floor(ix.supers, t);
    if s == NULL_LONG {
      forall x | x in flat ensures t < x {
        if x <= t {
          EarlierTree(ix.supers, x, t);
        }
      }
    } else {
      assert TreeOk(ix, flat, s);
      var f := Floor(ix.trees[s], t);
      assert IsFloor(ix.trees[s], t, f);
      forall x | x in flat && x <= t ensures x <= f {
        EarlierTree(ix.supers, x, t);
        if Floor(ix.supers, x) == s {
          assert x in ix.trees[s];
        }
      }
    }
  }

  // ----- insertion and the median split -----

  /** One more time in the tree at `s`; a full tree gives its greater half to a new one. */
  function Insert(ix: Index, s: int, t: int): Index
    requires s in ix.trees && forall k <- ix.trees[s] :: IsTime(k)
    requires IsTime(t)
  {
    var tree := Added(ix.trees[s], t);
    if |tree| != Threshold(|ix.supers|) then Index(ix.supers, ix.trees[s := tree])
    else
      var right := Walk(tree, BEGINNING_OF_TIME, END_OF_TIME, |tree| / 2);
      var median := if right == [] then -1 else right[|right| - 1];
      Index(Added(ix.supers, median), ix.trees[s := Kept(tree, median)][median := right])
  }

  /** The greater half of a full tree, and its least key. */
  lemma TopHalf(tree: seq<int>)
    requires Keyed(tree) && |tree| >= 2
    ensures var right := Walk(tree, BEGINNING_OF_TIME, END_OF_TIME, |tree| / 2);
      && |right| == |tree| / 2 && Keyed(right) && right[|right| - 1] in tree
      && forall x :: x in right <==> x in tree && x >= right[|right| - 1]
  {
    var right := Walk(tree, BEGINNING_OF_TIME, END_OF_TIME, |tree| / 2);
    if |right| < |tree| / 2 {
      AllWalked(tree, right);
      SubsetSize(tree, right);
      assert false;
    }
    var m := right[|right| - 1];
    assert m in right;
    forall x | x in right ensures x >= m {
      var i :| 0 <= i < |right| && right[i] == x;
    }
  }

  lemma AllWalked(tree: seq<int>, right: seq<int>)
    requires Keyed(tree) && IsRange(right, tree, BEGINNING_OF_TIME, END_OF_TIME, |tree| / 2) && |right| < |tree| / 2
    ensures forall x <- tree :: x in right
  {
  }

  /** A list without repetitions is no longer than one that has all its elements. */
  lemma {:induction false} SubsetSize(a: seq<int>, b: seq<int>)
    requires Distinct(a) && forall x <- a :: x in b
    ensures |a| <= |b|
  {
    if a != [] {
      var x := a[0];
      assert x in a && x in b;
      var k :| 0 <= k < |b| && b[k] == x;
      var c := b[..k] + b[k + 1..];
      forall y | y in a[1..] ensures y in c {
        assert y in a && y != x;
        var j :| 0 <= j < |b| && b[j] == y;
        assert c[if j < k then j else j - 1] == y;
      }
      SubsetSize(a[1..], c);
    }
  }

  lemma {:induction false} KeptKeyed(ks: seq<int>, max: int)
    requires Keyed(ks)
    ensures Keyed(Kept(ks, max)) && forall x :: x in Kept(ks, max) <==> x in ks && x < max
  {
    KeptFrom(ks, max);
    if ks != [] {
      var rest := ks[..|ks| - 1];
      KeptKeyed(rest, max);
      LastIn(ks);
      assert ks[|ks| - 1] !in rest;
    }
  }

  /** The halves of a tree are its keys, half of them in the greater half. */
  lemma HalvesSize(tree: seq<int>)
    requires Keyed(tree) && |tree| >= 2
    ensures var right := Walk(tree, BEGINNING_OF_TIME, END_OF_TIME, |tree| / 2);
      && |right| == |tree| / 2
      && var left := Kept(tree, right[|right| - 1]);
      |left| == |tree| - |tree| / 2 && forall x <- right, y <- left :: y < x
  {
    TopHalf(tree);
    var right := Walk(tree, BEGINNING_OF_TIME, END_OF_TIME, |tree| / 2);
    var left := Kept(tree, right[|right| - 1]);
    KeptKeyed(tree, right[|right| - 1]);
    DisjointSizes(left, right, tree);
  }

  lemma DisjointSizes(a: seq<int>, b: seq<int>, c: seq<int>)
    requires Distinct(a) && Distinct(b) && Distinct(c) && (forall x <- a :: x !in b)
    requires forall x :: x in c <==> x in a || x in b
    ensures |c| == |a| + |b|
  {
    var both := a + b;
    forall i, j | 0 <= i < j < |both| ensures both[i] != both[j] {
      assert i < |a| ==> both[i] in a;
      assert j >= |a| ==> both[j] in b;
    }
    SubsetSize(both, c);
    SubsetSize(c, both);
  }

  /** A full tree is cut in two at a key that is not its first. */
  lemma Halves(tree: seq<int>, s: int)
    requires Keyed(tree) && |tree| >= 2 && s in tree && forall x <- tree :: s <= x
    ensures var right := Walk(tree, BEGINNING_OF_TIME, END_OF_TIME, |tree| / 2);
      && |right| == |tree| / 2
      && var m, left := right[|right| - 1], Kept(tree, right[|right| - 1]);
      && s < m && m in tree && Keyed(right) && Keyed(left) && |left| < |tree|
      && (forall x :: x in right <==> x in tree && m <= x) && (forall x :: x in left <==> x in tree && x < m)
  {
    TopHalf(tree);
    var right := Walk(tree, BEGINNING_OF_TIME, END_OF_TIME, |tree| / 2);
    var m := right[|right| - 1];
    KeptKeyed(tree, m);
    var left := Kept(tree, m);
    if s == m {
      SubsetSize(tree, right);
    }
    SubsetSize(left + [m], tree);
  }

  lemma FloorAdded(supers: seq<int>, m: int, x: int)
    requires Keyed(supers) && IsTime(m) && m !in supers
    requires Keyed(supers + [m])
    ensures var s := Floor(supers, m); var f := Floor(supers, x);
      Floor(supers + [m], x) == if m <= x && f == s then m else f
  {
    var g := Floor(supers + [m], x);
    assert forall y :: y in supers + [m] <==> y in supers || y == m;
  }

  lemma InsertNoSplit(ix: Index, flat: set<int>, s: int, t: int)
    requires Refines(ix, flat) && IsTime(t) && s == Floor(ix.supers, t) && s != NULL_LONG && s in ix.trees
    requires |Added(ix.trees[s], t)| != Threshold(|ix.supers|)
    ensures Refines(Insert(ix, s, t), flat + {t})
  {
    assert TreeOk(ix, flat, s);
    AddedKeyed(ix.trees[s], t);
    var ix' := Insert(ix, s, t);
    forall s' | s' in ix'.supers ensures TreeOk(ix', flat + {t}, s') {
      assert TreeOk(ix, flat, s');
    }
  }

  /** What the two trees of a split hold. */
  lemma SplitTrees(ix: Index, flat: set<int>, s: int, t: int)
    requires Refines(ix, flat) && IsTime(t) && s == Floor(ix.supers, t) && s in ix.supers && TreeOk(ix, flat, s)
    requires |Added(ix.trees[s], t)| == Threshold(|ix.supers|)
    ensures var ix' := Insert(ix, s, t);
      && |ix'.supers| == |ix.supers| + 1
      && var m := ix'.supers[|ix.supers|];
      && ix'.supers == ix.supers + [m] && m !in ix.supers && Keyed(ix'.supers) && s < m && Floor(ix.supers, m) == s
      && s in ix'.trees && m in ix'.trees && Keyed(ix'.trees[s]) && Keyed(ix'.trees[m])
      && |ix'.trees[s]| == |ix'.trees[m]| == Threshold(|ix.supers|) / 2
      && (forall x :: x in ix'.trees[s] <==> x in flat + {t} && Floor(ix.supers, x) == s && x < m)
      && (forall x :: x in ix'.trees[m] <==> x in flat + {t} && Floor(ix.supers, x) == s && m <= x)
      && m in ix'.trees[m] && s in ix'.trees[s]
      && forall s' <- ix.supers :: s' != s ==> s' in ix.trees && s' in ix'.trees && ix'.trees[s'] == ix.trees[s']
  {
    var tree := Added(ix.trees[s], t);
    AddedKeyed(ix.trees[s], t);
    forall x | x in tree ensures s <= x {
    }
    Halves(tree, s);
    HalvesSize(tree);
    var right := Walk(tree, BEGINNING_OF_TIME, END_OF_TIME, |tree| / 2);
    var m := right[|right| - 1];
    assert Floor(ix.supers, m) == s;
    AddedKeyed(ix.supers, m);
    forall s' | s' in ix.supers ensures s' in ix.trees {
      assert TreeOk(ix, flat, s');
    }
  }

  lemma SplitTreeOk(ix: Index, flat: set<int>, s: int, t: int, s': int)
    requires Refines(ix, flat) && IsTime(t) && s == Floor(ix.supers, t) && s in ix.supers && TreeOk(ix, flat, s)
    requires |Added(ix.trees[s], t)| == Threshold(|ix.supers|)
    requires Keyed(Insert(ix, s, t).supers) && s' in Insert(ix, s, t).supers
    ensures TreeOk(Insert(ix, s, t), flat + {t}, s')
  {
    SplitTrees(ix, flat, s, t);
    var ix' := Insert(ix, s, t);
    var m := ix'.supers[|ix.supers|];
    ThresholdGrows(|ix.supers|, |ix'.supers|);
    forall x ensures Floor(ix'.supers, x) == if m <= x && Floor(ix.supers, x) == s then m else Floor(ix.supers, x) {
      FloorAdded(ix.supers, m, x);
    }
    if s' in ix.supers {
      assert TreeOk(ix, flat, s');
    }
  }

  /** Whatever the insertion does to the trees, the index then stands for one more time. */
  lemma InsertRefines(ix: Index, flat: set<int>, s: int, t: int)
    requires Refines(ix, flat) && IsTime(t) && s == Floor(ix.supers, t) && s != NULL_LONG && s in ix.trees
    ensures Refines(Insert(ix, s, t), flat + {t})
  {
    if |Added(ix.trees[s], t)| != Threshold(|ix.supers|) {
      InsertNoSplit(ix, flat, s, t);
    } else {
      assert TreeOk(ix, flat, s);
      SplitTrees(ix, flat, s, t);
      var ix' := Insert(ix, s, t);
      var m := ix'.supers[|ix.supers|];
      forall s' | s' in ix'.supers ensures TreeOk(ix', flat + {t}, s') {
        SplitTreeOk(ix, flat, s, t, s');
      }
      forall x | x in flat + {t} ensures IsTime(x) && Floor(ix'.supers, x) != NULL_LONG {
        FloorAdded(ix.supers, m, x);
      }
    }
  }
}
