/** A phased write's work on the time tree chunks themselves, as the two-level index describes it. */
module TimeTreeSplits {
  import opened Constants
  import opened TimeLine
  import opened TimeTrees
  import opened TimeIndex

  lemma FloorIs(ks: seq<int>, t: int, r: int)
    requires Keyed(ks)
    requires (forall k <- ks :: t < k) ==> r == NULL_LONG
    requires (exists k <- ks :: k <= t) ==> IsFloor(ks, t, r)
    ensures r == Floor(ks, t)
  {
  }

  /** previousOrEqual on the arrays is the floor of the keys. */
  method PreviousOrEqual(tree: TimeTree, t: int) returns (r: int)
    requires tree.Valid() && Keyed(tree.Keys())
    ensures r == Floor(tree.Keys(), t)
  {
    r := tree.PreviousOrEqual(t);
    FloorIs(tree.Keys(), t, r);
  }

  /** The range over a whole tree, as the sequence its callback sees. */
  method Range(tree: TimeTree, max: nat) returns (walked: seq<int>)
    requires tree.Valid() && Keyed(tree.Keys())
    ensures walked == Walk(tree.Keys(), BEGINNING_OF_TIME, END_OF_TIME, max)
  {
    walked := tree.Range(BEGINNING_OF_TIME, END_OF_TIME, max);
    RangeUnique(walked, Walk(tree.Keys(), BEGINNING_OF_TIME, END_OF_TIME, max), tree.Keys(), BEGINNING_OF_TIME,
      END_OF_TIME, max);
  }

  /** A new tree filled by unsafe_insert. */
  method NewTree(keys: seq<int>) returns (tree: TimeTree)
    requires Distinct(keys)
    ensures fresh(tree) && fresh(tree.Arrays()) && tree.Valid() && tree.Keys() == keys && tree.magic == 0
  {
    tree := new TimeTree();
    for i := 0 to |keys|
      invariant fresh(tree) && fresh(tree.Arrays()) && tree.Valid() && tree.Keys() == keys[..i] && tree.magic == 0
    {
      assert keys[..i + 1] == keys[..i] + [keys[i]];
      tree.UnsafeInsert(keys[i]);
    }
    assert keys[..|keys|] == keys;
  }

  /** Two trees that share no array. */
  ghost predicate Apart(a: TimeTree, b: TimeTree)
    reads a, b
  {
    a != b && a.backMeta !in {b.backMeta, b.backK} && a.backK !in {b.backMeta, b.backK} && a.backColors != b.backColors
  }

  /** insert on one tree, while another is in hand. */
  method InsertBeside(tree: TimeTree, key: int, other: TimeTree)
    requires tree.Valid() && other.Valid() && Apart(tree, other)
    modifies tree, tree.backMeta, tree.backK, tree.backColors
    ensures tree.Valid() && other.Valid() && Apart(other, tree) && fresh(tree.Arrays() - old(tree.Arrays()))
    ensures tree.Keys() == Added(old(tree.Keys()), key) && other.Keys() == old(other.Keys())
    ensures tree.magic == old(tree.magic) + if key in old(tree.Keys()) then 0 else 1
    ensures other.magic == old(other.magic)
  {
    tree.Insert(key);
    assert tree.backMeta in tree.Arrays() && tree.backK in tree.Arrays() && tree.backColors in tree.Arrays();
  }

  method ClearBeside(tree: TimeTree, max: int, other: TimeTree)
    requires tree.Valid() && other.Valid() && Apart(tree, other) && tree.Keys() != []
    modifies tree, tree.backMeta, tree.backK, tree.backColors
    ensures tree.Valid() && other.Valid()
    ensures tree.Keys() == Kept(old(tree.Keys()), max) && other.Keys() == old(other.Keys())
    ensures tree.magic == old(tree.magic) + 1 && other.magic == old(other.magic)
  {
    tree.ClearAt(max);
  }

  /** Gives the greater half of a full time tree to a new one, whose key goes into the super tree. */
  method Split(superTree: TimeTree, timeTree: TimeTree) returns (rightTree: TimeTree)
    requires superTree.Valid() && timeTree.Valid() && Apart(superTree, timeTree)
    requires Keyed(timeTree.Keys()) && |timeTree.Keys()| >= 2
    modifies superTree, superTree.backMeta, superTree.backK, superTree.backColors, timeTree, timeTree.backMeta,
      timeTree.backK, timeTree.backColors
    ensures superTree.Valid() && timeTree.Valid() && fresh(rightTree) && rightTree.Valid()
    ensures var tree := old(timeTree.Keys());
      && rightTree.Keys() == Walk(tree, BEGINNING_OF_TIME, END_OF_TIME, |tree| / 2) && rightTree.Keys() != []
      && var median := rightTree.Keys()[|rightTree.Keys()| - 1];
      && timeTree.Keys() == Kept(tree, median) && superTree.Keys() == Added(old(superTree.Keys()), median)
      && superTree.magic == old(superTree.magic) + if median in old(superTree.Keys()) then 0 else 1
    ensures timeTree.magic == old(timeTree.magic) + 1 && rightTree.magic == 0
  {
    ghost var tree := timeTree.Keys();
    var walked := TopOf(timeTree);
    var median := walked[|walked| - 1];
    InsertBeside(superTree, median, timeTree);
    ClearBeside(timeTree, median, superTree);
    rightTree := NewTree(walked);
  }

  /** The greater half of a tree. */
  method TopOf(timeTree: TimeTree) returns (walked: seq<int>)
    requires timeTree.Valid() && Keyed(timeTree.Keys()) && |timeTree.Keys()| >= 2
    ensures walked == Walk(timeTree.Keys(), BEGINNING_OF_TIME, END_OF_TIME, |timeTree.Keys()| / 2)
    ensures walked != [] && Distinct(walked)
  {
    TopHalf(timeTree.Keys());
    walked := Range(timeTree, timeTree.size / 2);
  }

  /** The two trees of a split. */
  ghost predicate Parted(full: seq<int>, left: seq<int>, right: seq<int>)
    requires Keyed(full)
  {
    && right == Walk(full, BEGINNING_OF_TIME, END_OF_TIME, |full| / 2) && right != []
    && left == Kept(full, right[|right| - 1])
  }

  /** Half of the times each, and the greater ones in the right tree. */
  lemma PartedHalves(full: seq<int>, left: seq<int>, right: seq<int>)
    requires Keyed(full) && |full| >= 2 && Parted(full, left, right)
    ensures |right| == |full| / 2 && |left| == |full| - |full| / 2 && forall x <- right, y <- left :: y < x
  {
    HalvesSize(full);
  }

  /** Inserts a time, and splits a full tree at the median. */
  method WriteTime(superTree: TimeTree, timeTree: TimeTree, time: int) returns (rightTree: TimeTree?)
    requires superTree.Valid() && timeTree.Valid() && Apart(superTree, timeTree)
    requires Keyed(timeTree.Keys()) && IsTime(time)
    modifies superTree, superTree.backMeta, superTree.backK, superTree.backColors, timeTree, timeTree.backMeta,
      timeTree.backK, timeTree.backColors
    ensures superTree.Valid() && timeTree.Valid() && (rightTree != null ==> fresh(rightTree) && rightTree.Valid())
    ensures var tree := Added(old(timeTree.Keys()), time);
      && Keyed(tree)
      && if |tree| != Threshold(|old(superTree.Keys())|) then
           rightTree == null && timeTree.Keys() == tree && superTree.Keys() == old(superTree.Keys())
         else
           && rightTree != null && Parted(tree, timeTree.Keys(), rightTree.Keys())
           && superTree.Keys() == Added(old(superTree.Keys()), rightTree.Keys()[|rightTree.Keys()| - 1])
    ensures var added := if time in old(timeTree.Keys()) then 0 else 1;
      if rightTree == null then timeTree.magic == old(timeTree.magic) + added && superTree.magic == old(superTree.magic)
      else
        && timeTree.magic == old(timeTree.magic) + added + 1 && rightTree.magic == 0 && rightTree.Keys() != []
        && superTree.magic == old(superTree.magic)
             + if rightTree.Keys()[|rightTree.Keys()| - 1] in old(superTree.Keys()) then 0 else 1
    ensures var supers, size := |old(superTree.Keys())|, |Added(old(timeTree.Keys()), time)|;
      rightTree != null <==> size == if supers <= 2000 then 2000 else if supers <= 20000 then 20000
        else if supers <= 200000 then 200000 else 2000000
    ensures rightTree != null ==>
      var size := |Added(old(timeTree.Keys()), time)|;
      && |rightTree.Keys()| == size / 2 && |timeTree.Keys()| == size - size / 2
      && forall x <- rightTree.Keys(), y <- timeTree.Keys() :: y < x
  {
    ghost var supers, full := superTree.Keys(), Added(timeTree.Keys(), time);
    AddedKeyed(timeTree.Keys(), time);
    ThresholdIs(|supers|);
    rightTree := InsertTime(superTree, timeTree, time);
    if rightTree != null {
      PartedHalves(full, timeTree.Keys(), rightTree.Keys());
    }
  }

  method InsertTime(superTree: TimeTree, timeTree: TimeTree, time: int) returns (rightTree: TimeTree?)
    requires superTree.Valid() && timeTree.Valid() && Apart(superTree, timeTree)
    requires Keyed(Added(timeTree.Keys(), time))
    modifies superTree, superTree.backMeta, superTree.backK, superTree.backColors, timeTree, timeTree.backMeta,
      timeTree.backK, timeTree.backColors
    ensures superTree.Valid() && timeTree.Valid() && (rightTree != null ==> fresh(rightTree) && rightTree.Valid())
    ensures var tree := Added(old(timeTree.Keys()), time);
      if |tree| != Threshold(|old(superTree.Keys())|) then
        rightTree == null && timeTree.Keys() == tree && superTree.Keys() == old(superTree.Keys())
      else
        && rightTree != null && Parted(tree, timeTree.Keys(), rightTree.Keys())
        && superTree.Keys() == Added(old(superTree.Keys()), rightTree.Keys()[|rightTree.Keys()| - 1])
    ensures var added := if time in old(timeTree.Keys()) then 0 else 1;
      if rightTree == null then timeTree.magic == old(timeTree.magic) + added && superTree.magic == old(superTree.magic)
      else
        && timeTree.magic == old(timeTree.magic) + added + 1 && rightTree.magic == 0 && rightTree.Keys() != []
        && superTree.magic == old(superTree.magic)
             + if rightTree.Keys()[|rightTree.Keys()| - 1] in old(superTree.Keys()) then 0 else 1
  {
    var threshold := Threshold(superTree.size);
    InsertBeside(timeTree, time, superTree);
    rightTree := SplitAt(superTree, timeTree, threshold);
  }

  /** Splits a time tree of just the size. */
  method SplitAt(superTree: TimeTree, timeTree: TimeTree, threshold: nat) returns (rightTree: TimeTree?)
    requires superTree.Valid() && timeTree.Valid() && Apart(superTree, timeTree)
    requires Keyed(timeTree.Keys()) && threshold >= 2
    modifies superTree, superTree.backMeta, superTree.backK, superTree.backColors, timeTree, timeTree.backMeta,
      timeTree.backK, timeTree.backColors
    ensures superTree.Valid() && timeTree.Valid() && (rightTree != null ==> fresh(rightTree) && rightTree.Valid())
    ensures if |old(timeTree.Keys())| != threshold then
        && rightTree == null && timeTree.Keys() == old(timeTree.Keys()) && superTree.Keys() == old(superTree.Keys())
        && timeTree.magic == old(timeTree.magic) && superTree.magic == old(superTree.magic)
      else
        && rightTree != null && Parted(old(timeTree.Keys()), timeTree.Keys(), rightTree.Keys())
        && var median := rightTree.Keys()[|rightTree.Keys()| - 1];
        && superTree.Keys() == Added(old(superTree.Keys()), median)
        && timeTree.magic == old(timeTree.magic) + 1 && rightTree.magic == 0
        && superTree.magic == old(superTree.magic) + if median in old(superTree.Keys()) then 0 else 1
  {
    rightTree := null;
    if timeTree.size == threshold {
      rightTree := Split(superTree, timeTree);
    }
  }
}
