/** ArrayLongLongArrayMap: for each key a set of values, in bucket chains and a free list that share
    the cells of four arrays. */
module LongLongArrayMaps {
  import opened Hiding
  import opened Constants
  import opened Buckets
  import opened FixedStacks

  /** All that matters of longHash. */
  ghost predicate InRange(hash: (int, int) -> int, n: int) {
    forall k: int :: 0 <= hash(k, n) < n
  }

  /** Slot m holds a pair when its value is not null. */
  function BucketsOf(ks: seq<int>, vs: seq<int>, hash: (int, int) -> int, n: nat): (b: seq<int>)
    requires |ks| == |vs|
    ensures |b| == |vs| && forall m :: 0 <= m < |vs| ==> b[m] == if vs[m] != NULL_LONG then hash(ks[m], n) else -1
  {
    seq(|vs|, m requires 0 <= m < |vs| => if vs[m] != NULL_LONG then hash(ks[m], n) else -1)
  }

  /** The slots after `head` that hold nothing, down to a cell of -1. */
  ghost predicate FreeList(free: seq<int>, ns: seq<int>, head: int) {
    && DistinctBelow(free, |ns|)
    && head == (if free == [] then -1 else free[0])
    && (forall j {:trigger ns[free[j]]} :: 0 <= j < |free| ==> ns[free[j]] == if j + 1 < |free| then free[j + 1]
      else -1)
  }

  ghost predicate Holds(ks: seq<int>, vs: seq<int>, m: int, key: int, value: int) {
    0 <= m < |ks| && |ks| == |vs| && vs[m] != NULL_LONG && ks[m] == key && vs[m] == value
  }

  /** No pair is held twice. */
  ghost predicate OnePerPair(ks: seq<int>, vs: seq<int>) {
    forall i, j, key, value :: Holds(ks, vs, i, key, value) && Holds(ks, vs, j, key, value) ==> i == j
  }

  /** How many slots hold a pair. */
  function Used(vs: seq<int>): (n: nat)
    ensures n <= |vs|
  {
    if vs == [] then 0 else Used(vs[..|vs| - 1]) + if vs[|vs| - 1] != NULL_LONG then 1 else 0
  }

  lemma {:induction false} UsedUpdate(vs: seq<int>, m: nat, v: int)
    requires m < |vs|
    ensures Used(vs[m := v]) == Used(vs) + (if v != NULL_LONG then 1 else 0) - (if vs[m] != NULL_LONG then 1 else 0)
  {
    var n := |vs| - 1;
    if m < n {
      UsedUpdate(vs[..n], m, v);
      assert vs[m := v][..n] == vs[..n][m := v];
    } else {
      assert vs[m := v][..n] == vs[..n];
    }
  }

  lemma {:induction false} UsedRoom(vs: seq<int>)
    requires Used(vs) < |vs|
    ensures exists m :: 0 <= m < |vs| && vs[m] == NULL_LONG
  {
    var n := |vs| - 1;
    if vs[n] != NULL_LONG {
      UsedRoom(vs[..n]);
      var m :| 0 <= m < n && vs[..n][m] == NULL_LONG;
      assert vs[m] == NULL_LONG;
    }
  }

  lemma {:induction false} UsedPadding(vs: seq<int>, ws: seq<int>)
    requires |vs| <= |ws| && ws[..|vs|] == vs && forall m :: |vs| <= m < |ws| ==> ws[m] == NULL_LONG
    ensures Used(ws) == Used(vs)
    decreases |ws|
  {
    if |ws| > |vs| {
      UsedPadding(vs, ws[..|ws| - 1]);
    } else {
      assert ws == vs;
    }
  }

  /** Bucket chains and free list together use each slot once. */
  ghost predicate Partition(ks: seq<int>, vs: seq<int>, ns: seq<int>, hs: seq<int>, hash: (int, int) -> int,
                            chains: seq<seq<int>>, free: seq<int>, head: int, count: nat) {
    && |ks| == |vs| == |ns| == |hs| && OnePerPair(ks, vs)
    && InRange(hash, |hs|)
    && Chained(BucketsOf(ks, vs, hash, |hs|), ns, hs, chains)
    && FreeList(free, ns, head)
    && (forall m :: 0 <= m < |vs| ==> (m in free <==> vs[m] == NULL_LONG))
    && count == Used(vs)
  }

  ghost function Pairs(ks: seq<int>, vs: seq<int>): set<(int, int)>
    requires |ks| == |vs|
  {
    set m | 0 <= m < |vs| && vs[m] != NULL_LONG :: (ks[m], vs[m])
  }

  lemma PairsIn(ks: seq<int>, vs: seq<int>, key: int, value: int)
    requires |ks| == |vs|
    ensures (key, value) in Pairs(ks, vs) <==> exists m :: Holds(ks, vs, m, key, value)
  {
    if (key, value) in Pairs(ks, vs) {
      var m :| 0 <= m < |vs| && vs[m] != NULL_LONG && (ks[m], vs[m]) == (key, value);
      assert Holds(ks, vs, m, key, value);
    }
  }

  /** A pair goes into the first free slot. */
  lemma FilledSlot(ks: seq<int>, vs: seq<int>, ns: seq<int>, hs: seq<int>, hash: (int, int) -> int,
                   chains: seq<seq<int>>, free: seq<int>, head: int, count: nat, key: int, value: int)
    requires Partition(ks, vs, ns, hs, hash, chains, free, head, count) && free != [] && value != NULL_LONG
    requires forall m :: !Holds(ks, vs, m, key, value)
    ensures var h := hash(key, |hs|);
      && 0 <= h < |hs| && h < |chains| && 0 <= head < |ns| && ns[head] >= -1
      && var end := if hs[h] != -1 then hs[h] else -2;
      && Partition(ks[head := key], vs[head := value], ns[head := end], hs[h := head], hash,
        chains[h := [head] + chains[h]], free[1..],
                   ns[head], count + 1)
      && Pairs(ks[head := key], vs[head := value]) == Pairs(ks, vs) + {(key, value)}
  {
    assert free[0] in free && ns[free[0]] == if 1 < |free| then free[1] else -1;
    FilledPairs(ks, vs, head, key, value);
    FilledChains(ks, vs, ns, hs, hash, chains, head, key, value);
    FreePopped(free, ns, head, if hs[hash(key, |hs|)] != -1 then hs[hash(key, |hs|)] else -2);
    UsedUpdate(vs, head, value);
  }

  /** The pair of a key and NULL_LONG would take a slot that still counts as free: whatever the links, the count
      is then one more than the pairs there are. */
  lemma FilledNull(ks: seq<int>, vs: seq<int>, ns: seq<int>, hs: seq<int>, hash: (int, int) -> int,
                   chains: seq<seq<int>>, free: seq<int>, head: int, count: nat, key: int, ns': seq<int>,
                   hs': seq<int>, chains': seq<seq<int>>, free': seq<int>, head': int)
    requires Partition(ks, vs, ns, hs, hash, chains, free, head, count) && free != []
    ensures 0 <= head < |vs| && Pairs(ks[head := key], vs[head := NULL_LONG]) == Pairs(ks, vs)
    ensures !Partition(ks[head := key], vs[head := NULL_LONG], ns', hs', hash, chains', free', head', count + 1)
  {
    assert free[0] in free;
    UsedUpdate(vs, head, NULL_LONG);
    forall p ensures p in Pairs(ks[head := key], vs[head := NULL_LONG]) <==> p in Pairs(ks, vs) {
      PairsIn(ks, vs, p.0, p.1);
      PairsIn(ks[head := key], vs[head := NULL_LONG], p.0, p.1);
      assert forall m :: Holds(ks[head := key], vs[head := NULL_LONG], m, p.0, p.1) <==> Holds(ks, vs, m, p.0, p.1);
    }
  }

  lemma FilledChains(ks: seq<int>, vs: seq<int>, ns: seq<int>, hs: seq<int>, hash: (int, int) -> int,
                     chains: seq<seq<int>>, m: nat, key: int, value: int)
    requires |ks| == |vs| && m < |vs| && vs[m] == NULL_LONG && value != NULL_LONG && 0 <= hash(key, |hs|) < |hs|
    requires Chained(BucketsOf(ks, vs, hash, |hs|), ns, hs, chains)
    ensures var h := hash(key, |hs|);
      && h < |chains|
      && Chained(BucketsOf(ks[m := key], vs[m := value], hash, |hs|), ns[m := if hs[h] != -1 then hs[h] else -2],
        hs[h := m],
                 chains[h := [m] + chains[h]])
  {
    var h := hash(key, |hs|);
    var b := BucketsOf(ks, vs, hash, |hs|);
    Enchained(b, ns, hs, chains, m, h, if hs[h] != -1 then hs[h] else -2);
    assert BucketsOf(ks[m := key], vs[m := value], hash, |hs|) == b[m := h];
  }

  lemma FreePopped(free: seq<int>, ns: seq<int>, head: int, v: int)
    requires FreeList(free, ns, head) && free != []
    ensures 0 <= head < |ns| && FreeList(free[1..], ns[head := v], ns[head])
    ensures forall m :: m in free[1..] <==> m in free && m != head
  {
    var ns', free' := ns[head := v], free[1..];
    assert ns[free[0]] == if 1 < |free| then free[1] else -1;
    forall j {:trigger ns'[free'[j]]} | 0 <= j < |free'| ensures ns'[free'[j]] == if j + 1 < |free'| then free'[j + 1]
      else -1 {
      assert free[0] != free[j + 1] && ns[free[j + 1]] == if j + 2 < |free| then free[j + 2] else -1;
    }
    assert free == [free[0]] + free';
    forall j | 0 <= j < |free'| ensures free'[j] != head {
      assert free'[j] == free[j + 1];
    }
  }

  lemma FilledPairs(ks: seq<int>, vs: seq<int>, m: nat, key: int, value: int)
    requires |ks| == |vs| && m < |vs| && vs[m] == NULL_LONG && value != NULL_LONG && OnePerPair(ks, vs)
    requires forall i :: !Holds(ks, vs, i, key, value)
    ensures Pairs(ks[m := key], vs[m := value]) == Pairs(ks, vs) + {(key, value)}
    ensures OnePerPair(ks[m := key], vs[m := value])
  {
    var ks', vs' := ks[m := key], vs[m := value];
    forall i, k, v | i != m ensures Holds(ks', vs', i, k, v) == Holds(ks, vs, i, k, v) {
    }
    forall k, v ensures (k, v) in Pairs(ks', vs') <==> (k, v) in Pairs(ks, vs) + {(key, value)} {
      PairsIn(ks, vs, k, v);
      PairsIn(ks', vs', k, v);
      assert Holds(ks', vs', m, key, value);
      assert forall i :: Holds(ks, vs, i, k, v) ==> Holds(ks', vs', i, k, v);
    }
  }

  lemma FreePushed(free: seq<int>, ns: seq<int>, head: int, m: nat)
    requires FreeList(free, ns, head) && m < |ns| && m !in free
    ensures FreeList([m] + free, ns[m := head], m)
  {
    var ns', free' := ns[m := head], [m] + free;
    assert forall j :: 0 <= j < |free| ==> free[j] in free;
    forall j {:trigger ns'[free'[j]]} | 0 <= j < |free'| ensures ns'[free'[j]] == if j + 1 < |free'| then free'[j + 1]
      else -1 {
      if j > 0 {
        assert free'[j] == free[j - 1] && ns[free[j - 1]] == if j < |free| then free[j] else -1;
      }
    }
  }

  /** Cells that the free list does not use do not matter to it. */
  lemma FreeFrame(free: seq<int>, ns: seq<int>, head: int, ns': seq<int>)
    requires FreeList(free, ns, head) && |ns'| == |ns| && forall m <- free :: 0 <= m < |ns| ==> ns'[m] == ns[m]
    ensures FreeList(free, ns', head)
  {
    assert forall j :: 0 <= j < |free| ==> free[j] in free;
    forall j {:trigger ns'[free[j]]} | 0 <= j < |free| ensures ns'[free[j]] == if j + 1 < |free| then free[j + 1]
      else -1 {
      assert ns[free[j]] == if j + 1 < |free| then free[j + 1] else -1;
    }
  }

  lemma EmptiedPairs(ks: seq<int>, vs: seq<int>, m: nat, k': int)
    requires |ks| == |vs| && m < |vs| && vs[m] != NULL_LONG && OnePerPair(ks, vs)
    ensures Pairs(ks[m := k'], vs[m := NULL_LONG]) == Pairs(ks, vs) - {(ks[m], vs[m])}
    ensures OnePerPair(ks[m := k'], vs[m := NULL_LONG])
  {
    var ks', vs' := ks[m := k'], vs[m := NULL_LONG];
    assert Holds(ks, vs, m, ks[m], vs[m]);
    forall i, k, v ensures Holds(ks', vs', i, k, v) <==> Holds(ks, vs, i, k, v) && i != m {
    }
    forall k, v ensures (k, v) in Pairs(ks', vs') <==> (k, v) in Pairs(ks, vs) - {(ks[m], vs[m])} {
      PairsIn(ks, vs, k, v);
      PairsIn(ks', vs', k, v);
      assert forall i :: Holds(ks, vs, i, k, v) && i != m ==> Holds(ks', vs', i, k, v);
    }
  }

  /** The slot at place k of bucket h is given up and goes to the front of the free list. */
  lemma Emptied(ks: seq<int>, vs: seq<int>, ns: seq<int>, hs: seq<int>, hash: (int, int) -> int, chains: seq<seq<int>>,
                free: seq<int>, head: int, count: nat, h: nat, k: nat)
    requires Partition(ks, vs, ns, hs, hash, chains, free, head, count) && h < |hs| && h < |chains| && k < |chains[h]|
    ensures var c := chains[h];
      && 0 <= c[k] < |vs| && (k > 0 ==> 0 <= c[k - 1] < |vs|) && vs[c[k]] != NULL_LONG && count > 0
      && var m := c[k];
      && Partition(ks[m := NULL_LONG], vs[m := NULL_LONG], BypassNext(ns, c, k, head), BypassHead(hs, ns, c, h, k),
        hash,
                   chains[h := RemoveAt(c, k)], [m] + free, m, count - 1)
      && Pairs(ks[m := NULL_LONG], vs[m := NULL_LONG]) == Pairs(ks, vs) - {(ks[m], vs[m])}
  {
    var m := GivenUp(ks, vs, ns, hs, hash, chains, free, head, count, h, k);
    EmptiedPairs(ks, vs, m, NULL_LONG);
    EmptiedChains(ks, vs, ns, hs, hash, chains, head, h, k);
    EmptiedFree(ks, vs, ns, hs, hash, chains, free, head, count, h, k);
    UsedUpdate(vs, m, NULL_LONG);
    EmptiedMembers(vs, free, m);
  }

  lemma EmptiedMembers(vs: seq<int>, free: seq<int>, m: nat)
    requires m < |vs| && forall i :: 0 <= i < |vs| ==> (i in free <==> vs[i] == NULL_LONG)
    ensures var vs', free' := vs[m := NULL_LONG], [m] + free; forall i :: 0 <= i < |vs'| ==>
      (i in free' <==> vs'[i] == NULL_LONG)
  {
    assert forall i :: i in [m] + free <==> i == m || i in free;
  }

  lemma GivenUp(ks: seq<int>, vs: seq<int>, ns: seq<int>, hs: seq<int>, hash: (int, int) -> int, chains: seq<seq<int>>,
                free: seq<int>, head: int, count: nat, h: nat, k: nat) returns (m: nat)
    requires Partition(ks, vs, ns, hs, hash, chains, free, head, count) && h < |hs| && h < |chains| && k < |chains[h]|
    ensures m == chains[h][k] && m < |vs| && vs[m] != NULL_LONG && m !in free
    ensures k > 0 ==> 0 <= chains[h][k - 1] < |vs| && chains[h][k - 1] !in free
  {
    var b := BucketsOf(ks, vs, hash, |hs|);
    SlotsOf(b, ns, hs, chains, h, k);
    m := chains[h][k];
    if k > 0 {
      SlotsOf(b, ns, hs, chains, h, k - 1);
    }
  }

  lemma EmptiedChains(ks: seq<int>, vs: seq<int>, ns: seq<int>, hs: seq<int>, hash: (int, int) -> int,
                      chains: seq<seq<int>>, head: int, h: nat, k: nat)
    requires |ks| == |vs| && Chained(BucketsOf(ks, vs, hash, |hs|), ns, hs, chains) && h < |hs| && k < |chains[h]|
    ensures var c := chains[h];
      && 0 <= c[k] < |vs| && (k > 0 ==> 0 <= c[k - 1] < |vs|)
      && Chained(BucketsOf(ks[c[k] := NULL_LONG], vs[c[k] := NULL_LONG], hash, |hs|), BypassNext(ns, c, k, head),
                 BypassHead(hs, ns, c, h, k), chains[h := RemoveAt(c, k)])
  {
    var b := BucketsOf(ks, vs, hash, |hs|);
    Unchained(b, ns, hs, chains, h, k, head);
    BucketsEmptied(ks, vs, hash, |hs|, chains[h][k]);
  }

  lemma BucketsEmptied(ks: seq<int>, vs: seq<int>, hash: (int, int) -> int, n: nat, m: nat)
    requires |ks| == |vs| && m < |vs|
    ensures BucketsOf(ks[m := NULL_LONG], vs[m := NULL_LONG], hash, n) == BucketsOf(ks, vs, hash, n)[m := -1]
  {
  }

  lemma EmptiedFree(ks: seq<int>, vs: seq<int>, ns: seq<int>, hs: seq<int>, hash: (int, int) -> int,
                    chains: seq<seq<int>>, free: seq<int>, head: int, count: nat, h: nat, k: nat)
    requires Partition(ks, vs, ns, hs, hash, chains, free, head, count) && h < |hs| && h < |chains| && k < |chains[h]|
    requires var c := chains[h]; 0 <= c[k] < |ns| && (k > 0 ==> 0 <= c[k - 1] < |ns|)
    ensures FreeList([chains[h][k]] + free, BypassNext(ns, chains[h], k, head), chains[h][k])
  {
    var m := GivenUp(ks, vs, ns, hs, hash, chains, free, head, count, h, k);
    var ns1 := if k > 0 then ns[chains[h][k - 1] := ns[m]] else ns;
    FreeFrame(free, ns, head, ns1);
    FreePushed(free, ns1, head, m);
  }

  // ----- growing -----

  /** The buckets of the first i slots. */
  function BucketsUpTo(ks: seq<int>, vs: seq<int>, hash: (int, int) -> int, n: nat, i: nat): (b: seq<int>)
    requires |ks| == |vs|
    ensures |b| == |vs|
    ensures forall m :: 0 <= m < |vs| ==> b[m] == if m < i && vs[m] != NULL_LONG then hash(ks[m], n) else -1
  {
    seq(|vs|, m requires 0 <= m < |vs| => if m < i && vs[m] != NULL_LONG then hash(ks[m], n) else -1)
  }

  function LastOf(s: seq<int>): int {
    if s == [] then -1 else s[|s| - 1]
  }

  /** The first i slots have been chained or listed as free. */
  ghost predicate Rebuilt(ks: seq<int>, vs: seq<int>, ns: seq<int>, hs: seq<int>, hash: (int, int) -> int,
                          chains: seq<seq<int>>, free: seq<int>, head: int, i: nat) {
    && |ks| == |vs| == |ns| == |hs| && i <= |vs| && InRange(hash, |hs|)
    && Chained(BucketsUpTo(ks, vs, hash, |hs|, i), ns, hs, chains)
    && FreeList(free, ns, head)
    && (forall m :: m in free <==> 0 <= m < i && vs[m] == NULL_LONG)
    && (forall m :: i <= m < |ns| ==> ns[m] == -1)
  }

  lemma RebuiltUsed(ks: seq<int>, vs: seq<int>, ns: seq<int>, hs: seq<int>, hash: (int, int) -> int,
                    chains: seq<seq<int>>, free: seq<int>, head: int, i: nat)
    requires Rebuilt(ks, vs, ns, hs, hash, chains, free, head, i) && i < |vs| && vs[i] != NULL_LONG
    ensures var h := hash(ks[i], |hs|);
      && 0 <= h < |hs| && h < |chains|
      && var end := if hs[h] != -1 then hs[h] else -2;
      Rebuilt(ks, vs, ns[i := end], hs[h := i], hash, chains[h := [i] + chains[h]], free, head, i + 1)
  {
    var key := ks[i];
    var h := hash(key, |hs|);
    assert 0 <= h < |hs|;
    var end := if hs[h] != -1 then hs[h] else -2;
    var b := BucketsUpTo(ks, vs, hash, |hs|, i);
    Enchained(b, ns, hs, chains, i, h, end);
    assert BucketsUpTo(ks, vs, hash, |hs|, i + 1) == b[i := h];
    FreeFrame(free, ns, head, ns[i := end]);
  }

  lemma FreeAppended(free: seq<int>, ns: seq<int>, head: int, i: nat)
    requires FreeList(free, ns, head) && i < |ns| && i !in free && ns[i] == -1
    ensures free != [] ==> 0 <= LastOf(free) < |ns| && LastOf(free) in free
    ensures FreeList(free + [i], if free == [] then ns else ns[LastOf(free) := i], if free == [] then i else head)
  {
    var free' := free + [i];
    var ns' := if free == [] then ns else ns[LastOf(free) := i];
    assert forall j :: 0 <= j < |free| ==> free[j] in free;
    forall j {:trigger ns'[free'[j]]} | 0 <= j < |free'| ensures ns'[free'[j]] == if j + 1 < |free'| then free'[j + 1]
      else -1 {
      if j < |free| {
        assert free'[j] == free[j] && ns[free[j]] == if j + 1 < |free| then free[j + 1] else -1;
        assert j < |free| - 1 ==> free[j] != LastOf(free);
      }
    }
  }

  lemma RebuiltFree(ks: seq<int>, vs: seq<int>, ns: seq<int>, hs: seq<int>, hash: (int, int) -> int,
                    chains: seq<seq<int>>, free: seq<int>, head: int, i: nat)
    requires Rebuilt(ks, vs, ns, hs, hash, chains, free, head, i) && i < |vs| && vs[i] == NULL_LONG
    ensures free != [] ==> 0 <= LastOf(free) < |ns|
    ensures Rebuilt(ks, vs, if free == [] then ns
      else ns[LastOf(free) := i], hs, hash, chains, free + [i], if free == [] then i else head, i + 1)
  {
    FreeAppended(free, ns, head, i);
    var b := BucketsUpTo(ks, vs, hash, |hs|, i);
    assert BucketsUpTo(ks, vs, hash, |hs|, i + 1) == b;
    if free != [] {
      UnusedCell(b, ns, hs, chains, LastOf(free), i);
    }
    assert forall m :: m in free + [i] <==> m in free || m == i;
  }

  lemma RebuiltAll(ks: seq<int>, vs: seq<int>, ns: seq<int>, hs: seq<int>, hash: (int, int) -> int,
                   chains: seq<seq<int>>, free: seq<int>, head: int)
    requires Rebuilt(ks, vs, ns, hs, hash, chains, free, head, |vs|) && OnePerPair(ks, vs)
    ensures Partition(ks, vs, ns, hs, hash, chains, free, head, Used(vs))
  {
    assert BucketsUpTo(ks, vs, hash, |hs|, |vs|) == BucketsOf(ks, vs, hash, |hs|);
  }

  /** More empty slots hold no more pairs. */
  lemma PaddedPairs(ks: seq<int>, vs: seq<int>, ks': seq<int>, vs': seq<int>)
    requires |ks| == |vs| <= |ks'| == |vs'| && ks'[..|ks|] == ks && vs'[..|vs|] == vs && OnePerPair(ks, vs)
    requires forall m :: |vs| <= m < |vs'| ==> vs'[m] == NULL_LONG
    ensures Pairs(ks', vs') == Pairs(ks, vs) && OnePerPair(ks', vs')
  {
    forall i, k, v ensures Holds(ks', vs', i, k, v) <==> Holds(ks, vs, i, k, v) {
      assert 0 <= i < |ks| ==> ks'[i] == ks'[..|ks|][i] && vs'[i] == vs'[..|vs|][i];
    }
    forall k, v ensures (k, v) in Pairs(ks', vs') <==> (k, v) in Pairs(ks, vs) {
      PairsIn(ks, vs, k, v);
      PairsIn(ks', vs', k, v);
      assert forall i :: Holds(ks, vs, i, k, v) ==> Holds(ks', vs', i, k, v);
    }
  }

  // ----- the arrays -----

  /** `Partition`, for callers to pass on: its definition comes into play only where `Unfold` is mentioned. */
  ghost predicate Shares(ks: seq<int>, vs: seq<int>, ns: seq<int>, hs: seq<int>, hash: (int, int) -> int,
                         chains: seq<seq<int>>, free: seq<int>, head: int, count: nat) {
    |ks| == |vs| && forall b {:trigger Unfold(Topic.ArrayMaps, b)} :: Unfold(Topic.ArrayMaps, b) ==>
      Partition(ks, vs, ns, hs, hash, chains, free, head, count)
  }

  /** The chain of a key, and what is to be found in it. */
  lemma ChainOf(ks: seq<int>, vs: seq<int>, ns: seq<int>, hs: seq<int>, hash: (int, int) -> int, chains: seq<seq<int>>,
                free: seq<int>, head: int, count: nat, key: int)
    requires Shares(ks, vs, ns, hs, hash, chains, free, head, count)
    ensures var h := hash(key, |hs|);
      && 0 <= h < |hs| == |chains| && ChainOk(chains[h], h, BucketsOf(ks, vs, hash, |hs|), ns, hs[h])
      && |ns| == |vs| && OnePerPair(ks, vs)
      && forall m, value :: Holds(ks, vs, m, key, value) ==> m in chains[h]
  {
    assert Unfold(Topic.ArrayMaps, true);
    var h := hash(key, |hs|);
    assert ChainOk(chains[h], h, BucketsOf(ks, vs, hash, |hs|), ns, hs[h]);
    forall m, value | Holds(ks, vs, m, key, value) ensures m in chains[h] {
      assert BucketsOf(ks, vs, hash, |hs|)[m] == h;
    }
  }

  // ----- the order of answers -----

  /** The values of a key in the slots of a chain, in the order of the chain. */
  ghost function Along(ks: seq<int>, vs: seq<int>, c: seq<int>, key: int): seq<int> {
    if c == [] then []
    else
      var m := c[0];
      (if 0 <= m < |ks| == |vs| && ks[m] == key then [vs[m]] else []) + Along(ks, vs, c[1..], key)
  }

  /** What is answered for a key. */
  ghost function Answer(ks: seq<int>, vs: seq<int>, hash: (int, int) -> int, chains: seq<seq<int>>, key: int): seq<int>
  {
    var h := hash(key, |ks|);
    if 0 <= h < |chains| then Along(ks, vs, chains[h], key) else []
  }

  /** The values of a key in the first n slots, from the last slot down. */
  ghost function Downward(ks: seq<int>, vs: seq<int>, key: int, n: nat): seq<int> {
    if n == 0 then []
    else
      (if n <= |ks| == |vs| && ks[n - 1] == key && vs[n - 1] != NULL_LONG then [vs[n - 1]] else [])
      + Downward(ks, vs, key, n - 1)
  }

  /** A sequence without a value. */
  ghost function Less(s: seq<int>, v: int): seq<int> {
    if s == [] then [] else (if s[0] == v then [] else [s[0]]) + Less(s[1..], v)
  }

  lemma {:induction false} LessAppend(s: seq<int>, t: seq<int>, v: int)
    ensures Less(s + t, v) == Less(s, v) + Less(t, v)
  {
    if s == [] {
      assert s + t == t;
    } else {
      assert (s + t)[1..] == s[1..] + t;
      LessAppend(s[1..], t, v);
    }
  }

  lemma {:induction false} LessNone(s: seq<int>, v: int)
    requires v !in s
    ensures Less(s, v) == s
  {
    if s != [] {
      LessNone(s[1..], v);
    }
  }

  lemma {:induction false} AlongAppend(ks: seq<int>, vs: seq<int>, c: seq<int>, d: seq<int>, key: int)
    ensures Along(ks, vs, c + d, key) == Along(ks, vs, c, key) + Along(ks, vs, d, key)
  {
    if c == [] {
      assert c + d == d;
    } else {
      assert (c + d)[1..] == c[1..] + d;
      AlongAppend(ks, vs, c[1..], d, key);
    }
  }

  lemma AlongOne(ks: seq<int>, vs: seq<int>, m: int, key: int)
    ensures Along(ks, vs, [m], key) == if 0 <= m < |ks| == |vs| && ks[m] == key then [vs[m]] else []
  {
    assert [m][1..] == [];
  }

  /** Slots outside a chain do not matter to it. */
  lemma {:induction false} AlongFrame(ks: seq<int>, vs: seq<int>, ks': seq<int>, vs': seq<int>, c: seq<int>, key: int)
    requires |ks| == |vs| == |ks'| == |vs'| && forall m <- c :: 0 <= m < |ks| ==> ks[m] == ks'[m] && vs[m] == vs'[m]
    ensures Along(ks, vs, c, key) == Along(ks', vs', c, key)
  {
    if c != [] {
      assert c[0] in c;
      AlongFrame(ks, vs, ks', vs', c[1..], key);
    }
  }

  lemma {:induction false} AlongHas(ks: seq<int>, vs: seq<int>, c: seq<int>, key: int, value: int)
    requires value in Along(ks, vs, c, key)
    ensures exists m <- c :: 0 <= m < |ks| == |vs| && ks[m] == key && vs[m] == value
  {
    if !(0 <= c[0] < |ks| == |vs| && ks[c[0]] == key && vs[c[0]] == value) {
      AlongHas(ks, vs, c[1..], key, value);
    }
  }

  /** A new pair comes first for its key, and nothing changes for the others. */
  lemma AnswerFilled(ks: seq<int>, vs: seq<int>, ns: seq<int>, hs: seq<int>, hash: (int, int) -> int,
                     chains: seq<seq<int>>, free: seq<int>, head: int, count: nat, key: int, value: int, k: int)
    requires Shares(ks, vs, ns, hs, hash, chains, free, head, count) && free != []
    ensures 0 <= head < |ks| && 0 <= hash(key, |ks|) < |chains|
    ensures var h := hash(key, |ks|);
      Answer(ks[head := key], vs[head := value], hash, chains[h := [head] + chains[h]], k) ==
        (if k == key then [value] else []) + Answer(ks, vs, hash, chains, k)
  {
    assert Unfold(Topic.ArrayMaps, true);
    assert head in free;
    var h, g := hash(key, |ks|), hash(k, |ks|);
    var ks', vs' := ks[head := key], vs[head := value];
    assert ChainOk(chains[g], g, BucketsOf(ks, vs, hash, |hs|), ns, hs[g]);
    AlongFrame(ks, vs, ks', vs', chains[g], k);
    AlongAppend(ks', vs', [head], chains[g], k);
    AlongOne(ks', vs', head, k);
  }

  lemma FilledAnswers(ks: seq<int>, vs: seq<int>, ns: seq<int>, hs: seq<int>, hash: (int, int) -> int,
                      chains: seq<seq<int>>, free: seq<int>, head: int, count: nat, key: int, value: int)
    requires Shares(ks, vs, ns, hs, hash, chains, free, head, count) && free != []
    ensures 0 <= head < |ks| && 0 <= hash(key, |ks|) < |chains|
    ensures var h := hash(key, |ks|);
      forall k :: Answer(ks[head := key], vs[head := value], hash, chains[h := [head] + chains[h]], k) ==
        (if k == key then [value] else []) + Answer(ks, vs, hash, chains, k)
  {
    forall k {
      AnswerFilled(ks, vs, ns, hs, hash, chains, free, head, count, key, value, k);
    }
    AnswerFilled(ks, vs, ns, hs, hash, chains, free, head, count, key, value, key);
  }

  /** A pair that is taken out is missing for its key, and nothing changes for the others. */
  lemma AnswerEmptied(ks: seq<int>, vs: seq<int>, ns: seq<int>, hs: seq<int>, hash: (int, int) -> int,
                      chains: seq<seq<int>>, free: seq<int>, head: int, count: nat, h: nat, j: nat, k: int)
    requires Shares(ks, vs, ns, hs, hash, chains, free, head, count) && h < |chains| && j < |chains[h]|
    ensures var m := chains[h][j];
      && 0 <= m < |ks| == |vs|
      && Answer(ks[m := NULL_LONG], vs[m := NULL_LONG], hash, chains[h := RemoveAt(chains[h], j)], k) ==
         if k == ks[m] then Less(Answer(ks, vs, hash, chains, k), vs[m]) else Answer(ks, vs, hash, chains, k)
  {
    assert Unfold(Topic.ArrayMaps, true);
    var b, c, m, g := BucketsOf(ks, vs, hash, |hs|), chains[h], chains[h][j], hash(k, |ks|);
    assert ChainOk(c, h, b, ns, hs[h]) && ChainOk(chains[g], g, b, ns, hs[g]);
    var ks', vs' := ks[m := NULL_LONG], vs[m := NULL_LONG];
    if g != h {
      AlongFrame(ks, vs, ks', vs', chains[g], k);
    } else {
      RemoveAtFacts(c, |ks|, j);
      AlongFrame(ks, vs, ks', vs', RemoveAt(c, j), k);
      AlongRemoved(ks, vs, c, j, k);
    }
  }

  lemma EmptiedAnswers(ks: seq<int>, vs: seq<int>, ns: seq<int>, hs: seq<int>, hash: (int, int) -> int,
                       chains: seq<seq<int>>, free: seq<int>, head: int, count: nat, h: nat, j: nat)
    requires Shares(ks, vs, ns, hs, hash, chains, free, head, count) && h < |chains| && j < |chains[h]|
    ensures var m := chains[h][j];
      && 0 <= m < |ks| == |vs|
      && forall k ::
           Answer(ks[m := NULL_LONG], vs[m := NULL_LONG], hash, chains[h := RemoveAt(chains[h], j)], k) ==
           if k == ks[m] then Less(Answer(ks, vs, hash, chains, k), vs[m]) else Answer(ks, vs, hash, chains, k)
  {
    AnswerEmptied(ks, vs, ns, hs, hash, chains, free, head, count, h, j, 0);
    forall k {
      AnswerEmptied(ks, vs, ns, hs, hash, chains, free, head, count, h, j, k);
    }
  }

  lemma AlongRemoved(ks: seq<int>, vs: seq<int>, c: seq<int>, j: nat, k: int)
    requires |ks| == |vs| && OnePerPair(ks, vs) && j < |c|
    requires forall i :: 0 <= i < |c| ==> 0 <= c[i] < |ks| && vs[c[i]] != NULL_LONG
    requires forall i, l :: 0 <= i < l < |c| ==> c[i] != c[l]
    ensures Along(ks, vs, RemoveAt(c, j), k) ==
      if k == ks[c[j]] then Less(Along(ks, vs, c, k), vs[c[j]]) else Along(ks, vs, c, k)
  {
    var m := c[j];
    AlongParts(ks, vs, c, j, k);
    if k == ks[m] {
      NotAlong(ks, vs, c[..j], m, k);
      NotAlong(ks, vs, c[j + 1..], m, k);
      LessOne(Along(ks, vs, c[..j], k), Along(ks, vs, c[j + 1..], k), vs[m]);
    }
  }

  lemma AlongParts(ks: seq<int>, vs: seq<int>, c: seq<int>, j: nat, k: int)
    requires j < |c| && 0 <= c[j] < |ks| == |vs|
    ensures Along(ks, vs, c, k) ==
      Along(ks, vs, c[..j], k) + ((if ks[c[j]] == k then [vs[c[j]]] else []) + Along(ks, vs, c[j + 1..], k))
    ensures Along(ks, vs, RemoveAt(c, j), k) == Along(ks, vs, c[..j], k) + Along(ks, vs, c[j + 1..], k)
  {
    assert c == c[..j] + ([c[j]] + c[j + 1..]);
    AlongAppend(ks, vs, c[..j], [c[j]] + c[j + 1..], k);
    AlongAppend(ks, vs, [c[j]], c[j + 1..], k);
    AlongAppend(ks, vs, c[..j], c[j + 1..], k);
    AlongOne(ks, vs, c[j], k);
  }

  lemma LessOne(a: seq<int>, d: seq<int>, v: int)
    requires v !in a && v !in d
    ensures Less(a + ([v] + d), v) == a + d
  {
    LessAppend(a, [v] + d, v);
    LessNone(a, v);
    LessNone(d, v);
    LessFirst(d, v);
  }

  lemma LessFirst(d: seq<int>, v: int)
    ensures Less([v] + d, v) == Less(d, v)
  {
    var s := [v] + d;
    assert s[0] == v && s[1..] == d;
  }

  lemma NotAlong(ks: seq<int>, vs: seq<int>, c: seq<int>, m: int, k: int)
    requires |ks| == |vs| && OnePerPair(ks, vs) && 0 <= m < |ks| && vs[m] != NULL_LONG && ks[m] == k
    requires m !in c
    ensures vs[m] !in Along(ks, vs, c, k)
  {
    if vs[m] in Along(ks, vs, c, k) {
      AlongHas(ks, vs, c, k, vs[m]);
      var i :| i in c && 0 <= i < |ks| && ks[i] == k && vs[i] == vs[m];
      assert Holds(ks, vs, i, k, vs[m]) && Holds(ks, vs, m, k, vs[m]);
    }
  }

  lemma AlongNext(ks: seq<int>, vs: seq<int>, c: seq<int>, k: nat, key: int)
    requires k < |c| && 0 <= c[k] < |ks| == |vs|
    ensures Along(ks, vs, c[..k + 1], key) == Along(ks, vs, c[..k], key) + if ks[c[k]] == key then [vs[c[k]]] else []
  {
    assert c[..k + 1] == c[..k] + [c[k]];
    AlongAppend(ks, vs, c[..k], [c[k]], key);
    AlongOne(ks, vs, c[k], key);
  }

  lemma {:induction false} AlongListed(ks: seq<int>, vs: seq<int>, c: seq<int>, k: nat, key: int)
    requires |ks| == |vs| && OnePerPair(ks, vs) && k <= |c|
    requires forall i :: 0 <= i < |c| ==> 0 <= c[i] < |ks| && vs[c[i]] != NULL_LONG
    requires forall i, l :: 0 <= i < l < |c| ==> c[i] != c[l]
    ensures Listed(ks, vs, key, c[..k], Along(ks, vs, c[..k], key))
  {
    if k > 0 {
      AlongListed(ks, vs, c, k - 1, key);
      ListedNext(ks, vs, key, c, k - 1, Along(ks, vs, c[..k - 1], key));
      AlongNext(ks, vs, c, k - 1, key);
    }
  }

  /** The answer for a key is its values, without repetitions. */
  lemma AnswerListed(ks: seq<int>, vs: seq<int>, ns: seq<int>, hs: seq<int>, hash: (int, int) -> int,
                     chains: seq<seq<int>>, free: seq<int>, head: int, count: nat, key: int)
    requires Shares(ks, vs, ns, hs, hash, chains, free, head, count)
    ensures forall value :: value in Answer(ks, vs, hash, chains, key) <==> (key, value) in Pairs(ks, vs)
    ensures var a := Answer(ks, vs, hash, chains, key); forall i, j :: 0 <= i < j < |a| ==> a[i] != a[j]
  {
    ChainOf(ks, vs, ns, hs, hash, chains, free, head, count, key);
    var c := chains[hash(key, |hs|)];
    assert |hs| == |ks| by {
      assert Unfold(Topic.ArrayMaps, true);
    }
    AlongListed(ks, vs, c, |c|, key);
    assert c[..|c|] == c;
    forall value ensures value in Along(ks, vs, c, key) <==> (key, value) in Pairs(ks, vs) {
      PairsIn(ks, vs, key, value);
    }
  }

  ghost predicate Descends(c: seq<int>, n: int) {
    (forall i :: 0 <= i < |c| ==> 0 <= c[i] < n) && forall i, j :: 0 <= i < j < |c| ==> c[j] < c[i]
  }

  /** A chain that descends through all slots of a key answers from the last slot down. */
  lemma {:induction false} AlongDownward(ks: seq<int>, vs: seq<int>, c: seq<int>, key: int, n: nat)
    requires |ks| == |vs| && n <= |ks| && Descends(c, n) && forall m <- c :: vs[m] != NULL_LONG
    requires forall m :: 0 <= m < n && ks[m] == key && vs[m] != NULL_LONG ==> m in c
    ensures Along(ks, vs, c, key) == Downward(ks, vs, key, n)
    decreases n
  {
    if n > 0 {
      if c != [] && c[0] == n - 1 {
        assert c[0] in c;
        forall m | 0 <= m < n - 1 && ks[m] == key && vs[m] != NULL_LONG ensures m in c[1..] {
          assert m in c;
        }
        AlongDownward(ks, vs, c[1..], key, n - 1);
      } else {
        assert n - 1 !in c;
        AlongDownward(ks, vs, c, key, n - 1);
      }
    }
  }

  lemma AnswerDownward(ks: seq<int>, vs: seq<int>, ns: seq<int>, hs: seq<int>, hash: (int, int) -> int,
                       chains: seq<seq<int>>, free: seq<int>, head: int, count: nat, key: int)
    requires Shares(ks, vs, ns, hs, hash, chains, free, head, count)
    requires forall h :: 0 <= h < |chains| ==> Descends(chains[h], |ks|)
    ensures Answer(ks, vs, hash, chains, key) == Downward(ks, vs, key, |ks|)
  {
    ChainOf(ks, vs, ns, hs, hash, chains, free, head, count, key);
    var h := hash(key, |hs|);
    assert Unfold(Topic.ArrayMaps, true);
    forall m | 0 <= m < |ks| && ks[m] == key && vs[m] != NULL_LONG ensures m in chains[h] {
      assert Holds(ks, vs, m, key, vs[m]);
    }
    AlongDownward(ks, vs, chains[h], key, |ks|);
  }

  lemma {:induction false} DownwardPadded(ks: seq<int>, vs: seq<int>, ks': seq<int>, vs': seq<int>, key: int, n: nat)
    requires |ks| == |vs| <= |ks'| == |vs'| && ks'[..|ks|] == ks && vs'[..|vs|] == vs && n <= |ks'|
    requires forall m :: |vs| <= m < |vs'| ==> vs'[m] == NULL_LONG
    ensures Downward(ks', vs', key, n) == Downward(ks, vs, key, if n <= |ks| then n else |ks|)
  {
    if n > 0 {
      DownwardPadded(ks, vs, ks', vs', key, n - 1);
      if n <= |ks| {
        assert ks'[..|ks|][n - 1] == ks[n - 1] && vs'[..|vs|][n - 1] == vs[n - 1];
      }
    }
  }

  /** After growing, get answers from the last slot down. */
  lemma GrownAnswers(ks: seq<int>, vs: seq<int>, ks': seq<int>, vs': seq<int>, ns: seq<int>, hs: seq<int>,
                     hash: (int, int) -> int, chains: seq<seq<int>>, free: seq<int>, head: int)
    requires |ks| == |vs| <= |ks'| == |vs'| && ks'[..|ks|] == ks && vs'[..|vs|] == vs
    requires forall m :: |vs| <= m < |vs'| ==> vs'[m] == NULL_LONG
    requires Shares(ks', vs', ns, hs, hash, chains, free, head, Used(vs'))
    requires forall h :: 0 <= h < |chains| ==> Descends(chains[h], |ks'|)
    ensures forall k :: Answer(ks', vs', hash, chains, k) == Downward(ks, vs, k, |vs|)
  {
    forall k ensures Answer(ks', vs', hash, chains, k) == Downward(ks, vs, k, |vs|) {
      AnswerDownward(ks', vs', ns, hs, hash, chains, free, head, Used(vs'), k);
      DownwardPadded(ks, vs, ks', vs', k, |ks'|);
    }
  }

  ghost function Elements(pairs: seq<(int, int)>): set<(int, int)> {
    set p | p in pairs
  }

  ghost predicate NoneTwice(each: seq<(int, int)>) {
    forall i, j :: 0 <= i < j < |each| ==> each[i] != each[j]
  }

  /** The pairs in the slots before slot i, in the order of the slots. */
  ghost function PairsTo(ks: seq<int>, vs: seq<int>, i: nat): seq<(int, int)>
    requires i <= |ks| == |vs|
  {
    if i == 0 then []
    else PairsTo(ks, vs, i - 1) + if vs[i - 1] == NULL_LONG then [] else [(ks[i - 1], vs[i - 1])]
  }

  lemma {:induction false} PairsToFacts(ks: seq<int>, vs: seq<int>, i: nat)
    requires i <= |ks| == |vs| && OnePerPair(ks, vs)
    ensures |PairsTo(ks, vs, i)| == Used(vs[..i]) && NoneTwice(PairsTo(ks, vs, i))
    ensures forall p :: p in PairsTo(ks, vs, i) <==> exists m :: m < i && Holds(ks, vs, m, p.0, p.1)
  {
    if i > 0 {
      PairsToFacts(ks, vs, i - 1);
      assert vs[..i][..i - 1] == vs[..i - 1];
      var before, p := PairsTo(ks, vs, i - 1), (ks[i - 1], vs[i - 1]);
      if vs[i - 1] != NULL_LONG {
        assert Holds(ks, vs, i - 1, p.0, p.1);
        assert p !in before;
      }
      forall q ensures q in PairsTo(ks, vs, i) <==> exists m :: m < i && Holds(ks, vs, m, q.0, q.1) {
        assert q in before <==> exists m :: m < i - 1 && Holds(ks, vs, m, q.0, q.1);
      }
    }
  }

  lemma AllPairs(ks: seq<int>, vs: seq<int>, ns: seq<int>, hs: seq<int>, hash: (int, int) -> int,
                 chains: seq<seq<int>>, free: seq<int>, head: int, count: nat)
    requires Shares(ks, vs, ns, hs, hash, chains, free, head, count) && |ks| == |vs|
    ensures var each := PairsTo(ks, vs, |ks|); |each| == count && Elements(each) == Pairs(ks, vs) && NoneTwice(each)
  {
    assert Unfold(Topic.ArrayMaps, true);
    PairsToFacts(ks, vs, |ks|);
    assert vs[..|ks|] == vs;
    forall p ensures p in PairsTo(ks, vs, |ks|) <==> p in Pairs(ks, vs) {
      PairsIn(ks, vs, p.0, p.1);
    }
  }

  class MapState {
    const stateSize: nat
    const hash: (int, int) -> int
    const elementK: array<int>
    const elementV: array<int>
    const elementNext: array<int>
    const elementHash: array<int>
    var elementCount: nat
    var nextAvailableSlot: int
    ghost var ks: seq<int>              // the contents of the arrays
    ghost var vs: seq<int>
    ghost var ns: seq<int>
    ghost var hs: seq<int>
    ghost var chains: seq<seq<int>>     // the slots in each bucket
    ghost var free: seq<int>            // the free slots in the order in which they will be taken

    ghost function Arrays(): set<object> {
      {elementK, elementV, elementNext, elementHash}
    }

    /** The arrays are four, and hold what the ghost fields say. */
    ghost predicate Synced()
      reads this, elementK, elementV, elementNext, elementHash
    {
      && elementK !in {elementV, elementNext, elementHash} && elementV !in {elementNext, elementHash}
      && elementNext != elementHash
      && elementK.Length == elementV.Length == elementNext.Length == elementHash.Length == stateSize
      && elementK[..] == ks && elementV[..] == vs && elementNext[..] == ns && elementHash[..] == hs
    }

    ghost predicate Valid()
      reads this, elementK, elementV, elementNext, elementHash
    {
      && Synced() && stateSize >= 1 && (forall n: int :: n >= 1 ==> InRange(hash, n))
      && 4 * elementCount <= 3 * stateSize
      && Shares(ks, vs, ns, hs, hash, chains, free, nextAvailableSlot, elementCount)
    }

    /** The pairs held. */
    ghost function Contents(): set<(int, int)>
      reads this
      requires |ks| == |vs|
    {
      Pairs(ks, vs)
    }

    method SetK(m: int, v: int)
      requires Synced() && 0 <= m < stateSize
      modifies `ks, elementK
      ensures Synced() && ks == old(ks)[m := v]
    {
      elementK[m] := v;
      ks := ks[m := v];
    }

    method SetV(m: int, v: int)
      requires Synced() && 0 <= m < stateSize
      modifies `vs, elementV
      ensures Synced() && vs == old(vs)[m := v]
    {
      elementV[m] := v;
      vs := vs[m := v];
    }

    method SetNext(m: int, v: int)
      requires Synced() && 0 <= m < stateSize
      modifies `ns, elementNext
      ensures Synced() && ns == old(ns)[m := v]
    {
      elementNext[m] := v;
      ns := ns[m := v];
    }

    method SetHash(m: int, v: int)
      requires Synced() && 0 <= m < stateSize
      modifies `hs, elementHash
      ensures Synced() && hs == old(hs)[m := v]
    {
      elementHash[m] := v;
      hs := hs[m := v];
    }

    /** What get answers for a key. */
    ghost function Values(key: int): seq<int>
      reads this
    {
      Answer(ks, vs, hash, chains, key)
    }

    /** What get answers once there is room for one more pair: after growing, from the last slot down. */
    ghost function ValuesWithRoom(key: int): seq<int>
      reads this
    {
      if 4 * (elementCount + 1) > 3 * stateSize then Downward(ks, vs, key, |vs|) else Values(key)
    }

    /** The values of a key, in the order of its chain. */
    method Get(key: int) returns (result: seq<int>)
      requires Valid()
      ensures forall value :: value in result <==> (key, value) in Contents()
      ensures forall i, j :: 0 <= i < j < |result| ==> result[i] != result[j]
      ensures result == Values(key)
    {
      ChainOf(ks, vs, ns, hs, hash, chains, free, nextAvailableSlot, elementCount, key);
      var hashIndex := hash(key, stateSize);
      ghost var c := chains[hashIndex];
      ghost var k := 0;
      result := [];
      var m := elementHash[hashIndex];
      while m >= 0
        invariant 0 <= k <= |c| && (if k < |c| then m == c[k] else m < 0)
        invariant result == Along(ks, vs, c[..k], key)
        decreases |c| - k
      {
        AlongNext(ks, vs, c, k, key);
        if key == elementK[m] {
          result := result + [elementV[m]];
        }
        m := elementNext[m];
        k := k + 1;
      }
      assert c[..k] == c;
      AnswerListed(ks, vs, ns, hs, hash, chains, free, nextAvailableSlot, elementCount, key);
    }

    /** each(): the pairs that it delivers, as many as size() says, each once, slot by slot. */
    method Each() returns (each: seq<(int, int)>)
      requires Valid()
      ensures |each| == elementCount && Elements(each) == Contents() && NoneTwice(each)
      ensures each == PairsTo(ks, vs, |vs|)
    {
      each := [];
      for i := 0 to stateSize
        invariant each == PairsTo(ks, vs, i)
      {
        if elementV[i] != NULL_LONG {
          each := each + [(elementK[i], elementV[i])];
        }
      }
      AllPairs(ks, vs, ns, hs, hash, chains, free, nextAvailableSlot, elementCount);
    }

    /** The slot of a pair and its place in its chain, or -1. */
    method FindPair(key: int, value: int) returns (m: int, previousM: int, ghost k: nat)
      requires Valid()
      ensures 0 <= hash(key, stateSize) < |chains| == stateSize
      ensures m < 0 ==> forall i :: !Holds(ks, vs, i, key, value)
      ensures m >= 0 ==>
        var c := chains[hash(key, stateSize)];
        && k < |c| && m == c[k] && Holds(ks, vs, m, key, value) && previousM == if k > 0 then c[k - 1] else -1
    {
      ChainOf(ks, vs, ns, hs, hash, chains, free, nextAvailableSlot, elementCount, key);
      var hashIndex := hash(key, stateSize);
      ghost var c := chains[hashIndex];
      m, previousM, k := elementHash[hashIndex], -1, 0;
      while m >= 0
        invariant 0 <= k <= |c| && (if k < |c| then m == c[k] else m < 0)
        invariant previousM == if k > 0 then c[k - 1] else -1
        invariant forall j :: 0 <= j < k ==> !Holds(ks, vs, c[j], key, value)
        decreases |c| - k
      {
        if key == elementK[m] && value == elementV[m] {
          return;
        }
        previousM := m;
        m := elementNext[m];
        k := k + 1;
      }
    }

    /** Writes a pair into a slot and puts the slot in front of a bucket. */
    method Occupy(newIndex: int, hashIndex: int, key: int, value: int)
      requires Synced() && 0 <= newIndex < stateSize && 0 <= hashIndex < stateSize
      modifies `ks, `vs, `ns, `hs, elementK, elementV, elementNext, elementHash
      ensures Synced() && ks == old(ks)[newIndex := key] && vs == old(vs)[newIndex := value]
      ensures hs == old(hs)[hashIndex := newIndex]
      ensures ns == old(ns)[newIndex := if old(hs)[hashIndex] != -1 then old(hs)[hashIndex] else -2]
    {
      SetNext(newIndex, -1);
      SetK(newIndex, key);
      SetV(newIndex, value);
      var currentHashedElemIndex := elementHash[hashIndex];
      if currentHashedElemIndex != -1 {
        SetNext(newIndex, currentHashedElemIndex);
      } else {
        SetNext(newIndex, -2);
      }
      SetHash(hashIndex, newIndex);
    }

    /** Puts a new pair into the next available slot, of which there is one; with NULL_LONG for its value the slot
        still counts as free. */
    method Fill(key: int, value: int) returns (done: bool)
      requires Valid() && 4 * (elementCount + 1) <= 3 * stateSize
      requires forall i :: !Holds(ks, vs, i, key, value)
      modifies this, elementK, elementV, elementNext, elementHash
      ensures (Valid() <==> value != NULL_LONG) && done && |ks| == |vs| && elementCount == old(elementCount) + 1
      ensures Contents() == old(Contents()) + if value != NULL_LONG then {(key, value)} else {}
      ensures forall k :: Values(k) == (if k == key then [value] else []) + old(Values(k))
      ensures var m := old(nextAvailableSlot);
        0 <= m < |old(ks)| == |old(vs)| && ks == old(ks)[m := key] && vs == old(vs)[m := value]
    {
      Room(ks, vs, ns, hs, hash, chains, free, nextAvailableSlot, elementCount);
      ChainOf(ks, vs, ns, hs, hash, chains, free, nextAvailableSlot, elementCount, key);
      FilledEither(ks, vs, ns, hs, hash, chains, free, nextAvailableSlot, elementCount, key, value);
      FilledAnswers(ks, vs, ns, hs, hash, chains, free, nextAvailableSlot, elementCount, key, value);
      var hashIndex := hash(key, stateSize);
      var newIndex := nextAvailableSlot;
      if newIndex == -1 {
        return false;
      }
      nextAvailableSlot := elementNext[newIndex];
      Occupy(newIndex, hashIndex, key, value);
      elementCount := elementCount + 1;
      chains, free := chains[hashIndex := [newIndex] + chains[hashIndex]], free[1..];
      done := true;
    }

    /** Clears a slot, bypasses it in its chain and puts it in front of the free slots. */
    method Vacate(m: int, previousM: int, hashIndex: int)
      requires Synced() && 0 <= m < stateSize && -1 <= previousM < stateSize && 0 <= hashIndex < stateSize
      requires m != previousM
      modifies `ks, `vs, `ns, `hs, `nextAvailableSlot, elementK, elementV, elementNext, elementHash
      ensures Synced() && ks == old(ks)[m := NULL_LONG] && vs == old(vs)[m := NULL_LONG] && nextAvailableSlot == m
      ensures hs == if previousM == -1 then old(hs)[hashIndex := old(ns)[m]] else old(hs)
      ensures ns == (if previousM == -1 then old(ns) else old(ns)[previousM := old(ns)[m]])[m := old(nextAvailableSlot)]
    {
      SetK(m, NULL_LONG);
      SetV(m, NULL_LONG);
      if previousM == -1 {
        SetHash(hashIndex, elementNext[m]);
      } else {
        SetNext(previousM, elementNext[m]);
      }
      SetNext(m, nextAvailableSlot);
      nextAvailableSlot := m;
    }

    /** Gives up the slot at place k of a bucket. */
    method Release(m: int, previousM: int, hashIndex: int, ghost k: nat)
      requires Valid() && 0 <= hashIndex < |chains| == stateSize && k < |chains[hashIndex]| && m == chains[hashIndex][k]
      requires 0 <= m < stateSize && previousM == if k > 0 then chains[hashIndex][k - 1] else -1
      modifies this, elementK, elementV, elementNext, elementHash
      ensures Valid() && Contents() == old(Contents()) - {(old(ks)[m], old(vs)[m])}
      ensures ks == old(ks)[m := NULL_LONG] && vs == old(vs)[m := NULL_LONG] && nextAvailableSlot == m
      ensures forall k :: Values(k) == if k == old(ks)[m] then Less(old(Values(k)), old(vs)[m]) else old(Values(k))
    {
      EmptiedAnswers(ks, vs, ns, hs, hash, chains, free, nextAvailableSlot, elementCount, hashIndex, k);
      EmptiedShares(ks, vs, ns, hs, hash, chains, free, nextAvailableSlot, elementCount, hashIndex, k);
      elementCount := elementCount - 1;
      Vacate(m, previousM, hashIndex);
      chains, free := chains[hashIndex := RemoveAt(chains[hashIndex], k)], [m] + free;
    }

    /** Takes a pair out, if it is there. */
    method Remove(key: int, value: int)
      requires Valid()
      modifies this, elementK, elementV, elementNext, elementHash
      ensures Valid() && Contents() == old(Contents()) - {(key, value)}
      ensures forall k :: Values(k) == if k == key then Less(old(Values(k)), value) else old(Values(k))
    {
      var m, previousM, k := FindPair(key, value);
      if m >= 0 {
        Release(m, previousM, hash(key, stateSize), k);
      } else {
        PairsIn(ks, vs, key, value);
        AnswerListed(ks, vs, ns, hs, hash, chains, free, nextAvailableSlot, elementCount, key);
        LessNone(Values(key), value);
      }
    }

    constructor (stateSize: nat, hash: (int, int) -> int, elementK: array<int>, elementV: array<int>,
                 elementNext: array<int>, elementHash: array<int>, elementCount: nat, nextAvailableSlot: int,
                 ghost chains: seq<seq<int>>, ghost free: seq<int>)
      ensures this.stateSize == stateSize && this.hash == hash && this.elementK == elementK && this.elementV == elementV
      ensures this.elementNext == elementNext && this.elementHash == elementHash && this.elementCount == elementCount
      ensures this.nextAvailableSlot == nextAvailableSlot && this.chains == chains && this.free == free
      ensures ks == elementK[..] && vs == elementV[..] && ns == elementNext[..] && hs == elementHash[..]
    {
      this.stateSize, this.hash := stateSize, hash;
      this.elementK, this.elementV, this.elementNext, this.elementHash := elementK, elementV, elementNext, elementHash;
      this.elementCount, this.nextAvailableSlot, this.chains, this.free := elementCount, nextAvailableSlot, chains,
        free;
      ks, vs, ns, hs := elementK[..], elementV[..], elementNext[..], elementHash[..];
    }

    method Clone() returns (r: MapState)
      requires Valid()
      ensures fresh(r) && fresh(r.Arrays()) && r.Valid() && r.Contents() == Contents() && r.elementCount == elementCount
      ensures r.stateSize == stateSize && r.hash == hash && r.ks == ks && r.vs == vs
      ensures forall k :: r.Values(k) == Values(k)
    {
      var clonedK := Copied(elementK, stateSize, 0);
      var clonedV := Copied(elementV, stateSize, 0);
      var clonedNext := Copied(elementNext, stateSize, 0);
      var clonedHash := Copied(elementHash, stateSize, 0);
      assert clonedK[..] == ks && clonedV[..] == vs && clonedNext[..] == ns && clonedHash[..] == hs;
      r := new MapState(stateSize, hash, clonedK, clonedV, clonedNext, clonedHash, elementCount, nextAvailableSlot,
        chains, free);
    }

    /** A state with twice the slots and the same pairs, in chains by the hash for the new size. */
    method Grown() returns (r: MapState)
      requires Valid()
      ensures fresh(r) && fresh(r.Arrays()) && r.Valid() && r.Contents() == Contents() && r.elementCount == elementCount
      ensures r.stateSize == 2 * stateSize && r.hash == hash && 4 * (elementCount + 1) <= 3 * r.stateSize
      ensures forall k :: r.Values(k) == Downward(ks, vs, k, |vs|)
    {
      var newCapacity := stateSize * 2;
      var newK := Copied(elementK, newCapacity, 0);
      var newV := Copied(elementV, newCapacity, NULL_LONG);
      ghost var ks', vs' := newK[..], newV[..];
      assert ks'[..stateSize] == ks && vs'[..stateSize] == vs;
      GrownPairs(ks, vs, ns, hs, hash, chains, free, nextAvailableSlot, elementCount, ks', vs');
      var newNext, newHash, emptySlotHead;
      ghost var chains', free';
      newNext, newHash, emptySlotHead, chains', free' := Rehashed(newK, newV, hash);
      GrownAnswers(ks, vs, ks', vs', newNext[..], newHash[..], hash, chains', free', emptySlotHead);
      r := new MapState(newCapacity, hash, newK, newV, newNext, newHash, elementCount, emptySlotHead, chains', free');
    }
  }

  /** `Rebuilt`, for callers to pass on: its definition comes into play only where `Unfold` is mentioned. */
  ghost predicate Building(ks: seq<int>, vs: seq<int>, ns: seq<int>, hs: seq<int>, hash: (int, int) -> int,
                           chains: seq<seq<int>>, free: seq<int>, head: int, i: nat) {
    |ks| == |vs| == |ns| == |hs| && forall b {:trigger Unfold(Topic.ArrayMaps, b)} :: Unfold(Topic.ArrayMaps, b) ==>
      Rebuilt(ks, vs, ns, hs, hash, chains, free, head, i)
  }

  /** The bucket and free links for the slots of two arrays of keys and values. */
  method Rehashed(newK: array<int>, newV: array<int>, hash: (int, int) -> int)
    returns (newNext: array<int>, newHash: array<int>, emptySlotHead: int, ghost chains: seq<seq<int>>,
      ghost free: seq<int>)
    requires newK != newV && newK.Length == newV.Length && InRange(hash, newV.Length) && OnePerPair(newK[..], newV[..])
    ensures fresh(newNext) && fresh(newHash) && newNext != newHash && newNext.Length == newHash.Length == newV.Length
    ensures Shares(newK[..], newV[..], newNext[..], newHash[..], hash, chains, free, emptySlotHead, Used(newV[..]))
    ensures forall h :: 0 <= h < |chains| ==> Descends(chains[h], newV.Length)
  {
    var newCapacity := newV.Length;
    newNext := Filled(newCapacity, -1);
    newHash := Filled(newCapacity, -1);
    chains, free := NoChains(newCapacity), [];
    RebuiltNone(newK[..], newV[..], newNext[..], newHash[..], hash);
    var previousEmptySlot := -1;
    emptySlotHead := -1;
    for i := 0 to newCapacity
      invariant Building(newK[..], newV[..], newNext[..], newHash[..], hash, chains, free, emptySlotHead, i)
      invariant previousEmptySlot == LastOf(free) && forall h :: 0 <= h < |chains| ==> Descends(chains[h], i)
      invariant fresh(newNext) && fresh(newHash) && newNext != newHash
    {
      if newV[i] != NULL_LONG {
        chains := ChainSlot(newK, newV, newNext, newHash, hash, chains, free, emptySlotHead, i);
      } else {
        emptySlotHead, previousEmptySlot, free := ListSlot(newK, newV, newNext, newHash, hash, chains, free,
          emptySlotHead, previousEmptySlot, i);
      }
    }
    BuildingAll(newK[..], newV[..], newNext[..], newHash[..], hash, chains, free, emptySlotHead);
  }

  method ChainSlot(newK: array<int>, newV: array<int>, newNext: array<int>, newHash: array<int>,
                   hash: (int, int) -> int, ghost chains: seq<seq<int>>, ghost free: seq<int>, ghost head: int, i: nat)
    returns (ghost chains': seq<seq<int>>)
    requires newNext != newHash && newNext !in {newK, newV} && newHash !in {newK, newV}
    requires Building(newK[..], newV[..], newNext[..], newHash[..], hash, chains, free, head, i) && i < newV.Length
    requires newV[i] != NULL_LONG
    modifies newNext, newHash
    ensures Building(newK[..], newV[..], newNext[..], newHash[..], hash, chains', free, head, i + 1)
    ensures (forall h :: 0 <= h < |chains| ==> Descends(chains[h], i)) ==>
      forall h :: 0 <= h < |chains'| ==> Descends(chains'[h], i + 1)
  {
    BuildingUsed(newK[..], newV[..], newNext[..], newHash[..], hash, chains, free, head, i);
    var newHashIndex := hash(newK[i], newHash.Length);
    var currentHashedIndex := newHash[newHashIndex];
    if currentHashedIndex != -1 {
      Write(newNext, i, currentHashedIndex);
    } else {
      Write(newNext, i, -2);
    }
    Write(newHash, newHashIndex, i);
    chains' := chains[newHashIndex := [i] + chains[newHashIndex]];
  }

  method ListSlot(newK: array<int>, newV: array<int>, newNext: array<int>, newHash: array<int>, hash: (int, int) -> int,
                  ghost chains: seq<seq<int>>, ghost free: seq<int>, head: int, previousEmptySlot: int, i: nat)
    returns (head': int, previous': int, ghost free': seq<int>)
    requires newNext !in {newK, newV, newHash} && previousEmptySlot == LastOf(free)
    requires Building(newK[..], newV[..], newNext[..], newHash[..], hash, chains, free, head, i) && i < newV.Length
    requires newV[i] == NULL_LONG
    modifies newNext
    ensures Building(newK[..], newV[..], newNext[..], newHash[..], hash, chains, free', head', i + 1)
    ensures previous' == LastOf(free')
  {
    BuildingFree(newK[..], newV[..], newNext[..], newHash[..], hash, chains, free, head, i);
    head' := head;
    if previousEmptySlot == -1 {
      head' := i;
    } else {
      Write(newNext, previousEmptySlot, i);
    }
    previous' := i;
    free' := free + [i];
  }

  lemma BuildingUsed(ks: seq<int>, vs: seq<int>, ns: seq<int>, hs: seq<int>, hash: (int, int) -> int,
                     chains: seq<seq<int>>, free: seq<int>, head: int, i: nat)
    requires Building(ks, vs, ns, hs, hash, chains, free, head, i) && i < |vs| && vs[i] != NULL_LONG
    ensures var h := hash(ks[i], |hs|);
      && 0 <= h < |hs| && h < |chains|
      && var end := if hs[h] != -1 then hs[h] else -2;
      Building(ks, vs, ns[i := end], hs[h := i], hash, chains[h := [i] + chains[h]], free, head, i + 1)
  {
    assert Unfold(Topic.ArrayMaps, true);
    RebuiltUsed(ks, vs, ns, hs, hash, chains, free, head, i);
  }

  lemma BuildingFree(ks: seq<int>, vs: seq<int>, ns: seq<int>, hs: seq<int>, hash: (int, int) -> int,
                     chains: seq<seq<int>>, free: seq<int>, head: int, i: nat)
    requires Building(ks, vs, ns, hs, hash, chains, free, head, i) && i < |vs| && vs[i] == NULL_LONG
    ensures free != [] ==> 0 <= LastOf(free) < |ns|
    ensures Building(ks, vs, if free == [] then ns
      else ns[LastOf(free) := i], hs, hash, chains, free + [i], if free == [] then i else head, i + 1)
  {
    assert Unfold(Topic.ArrayMaps, true);
    RebuiltFree(ks, vs, ns, hs, hash, chains, free, head, i);
  }

  lemma BuildingAll(ks: seq<int>, vs: seq<int>, ns: seq<int>, hs: seq<int>, hash: (int, int) -> int,
                    chains: seq<seq<int>>, free: seq<int>, head: int)
    requires Building(ks, vs, ns, hs, hash, chains, free, head, |vs|) && OnePerPair(ks, vs)
    ensures Shares(ks, vs, ns, hs, hash, chains, free, head, Used(vs))
  {
    assert Unfold(Topic.ArrayMaps, true);
    RebuiltAll(ks, vs, ns, hs, hash, chains, free, head);
  }

  method Write(a: array<int>, i: int, v: int)
    requires 0 <= i < a.Length
    modifies a
    ensures a[..] == old(a[..])[i := v]
  {
    a[i] := v;
  }

  method Filled(n: nat, v: int) returns (a: array<int>)
    ensures fresh(a) && a.Length == n && forall i :: 0 <= i < n ==> a[i] == v
  {
    a := new int[n];
    for i := 0 to n
      invariant forall j :: 0 <= j < i ==> a[j] == v
    {
      a[i] := v;
    }
  }

  ghost function NoChains(n: nat): seq<seq<int>> {
    seq(n, h => [])
  }

  lemma RebuiltNone(ks: seq<int>, vs: seq<int>, ns: seq<int>, hs: seq<int>, hash: (int, int) -> int)
    requires |ks| == |vs| == |ns| == |hs| && InRange(hash, |hs|)
    requires forall i :: 0 <= i < |ns| ==> ns[i] == -1 && hs[i] == -1
    ensures Building(ks, vs, ns, hs, hash, NoChains(|hs|), [], -1, 0)
  {
    EmptyChained(BucketsUpTo(ks, vs, hash, |hs|, 0), ns, hs);
  }

  lemma GrownPairs(ks: seq<int>, vs: seq<int>, ns: seq<int>, hs: seq<int>, hash: (int, int) -> int,
                   chains: seq<seq<int>>, free: seq<int>, head: int, count: nat, ks': seq<int>, vs': seq<int>)
    requires Shares(ks, vs, ns, hs, hash, chains, free, head, count)
    requires |ks| == |vs| <= |ks'| == |vs'| && ks'[..|ks|] == ks && vs'[..|vs|] == vs
    requires forall m :: |vs| <= m < |vs'| ==> vs'[m] == NULL_LONG
    ensures Pairs(ks', vs') == Pairs(ks, vs) && OnePerPair(ks', vs') && Used(vs') == count
  {
    assert Unfold(Topic.ArrayMaps, true);
    PaddedPairs(ks, vs, ks', vs');
    UsedPadding(vs, vs');
  }

  /** A new array with a copy of the old one in front. */
  method Copied(a: array<int>, newLength: nat, rest: int) returns (b: array<int>)
    requires a.Length <= newLength
    ensures fresh(b) && b.Length == newLength && b[..a.Length] == a[..]
    ensures forall i :: a.Length <= i < newLength ==> b[i] == rest
  {
    b := new int[newLength];
    for i := 0 to a.Length
      invariant b[..i] == a[..i]
    {
      b[i] := a[i];
    }
    for i := a.Length to newLength
      invariant b[..a.Length] == a[..] && forall j :: a.Length <= j < i ==> b[j] == rest
    {
      b[i] := rest;
    }
  }

  lemma EmptiedShares(ks: seq<int>, vs: seq<int>, ns: seq<int>, hs: seq<int>, hash: (int, int) -> int,
                      chains: seq<seq<int>>, free: seq<int>, head: int, count: nat, h: nat, k: nat)
    requires Shares(ks, vs, ns, hs, hash, chains, free, head, count) && h < |hs| && h < |chains| && k < |chains[h]|
    ensures var c := chains[h];
      && |ks| == |ns| == |vs| && 0 <= c[k] < |vs| && (k > 0 ==> 0 <= c[k - 1] < |vs| && c[k - 1] != c[k]) && count > 0
      && var m := c[k];
      && Shares(ks[m := NULL_LONG], vs[m := NULL_LONG], BypassNext(ns, c, k, head), BypassHead(hs, ns, c, h, k), hash,
                chains[h := RemoveAt(c, k)], [m] + free, m, count - 1)
      && Pairs(ks[m := NULL_LONG], vs[m := NULL_LONG]) == Pairs(ks, vs) - {(ks[m], vs[m])}
  {
    assert Unfold(Topic.ArrayMaps, true);
    Emptied(ks, vs, ns, hs, hash, chains, free, head, count, h, k);
    assert ChainOk(chains[h], h, BucketsOf(ks, vs, hash, |hs|), ns, hs[h]);
  }

  /** A map that is not full has a slot to give. */
  lemma Room(ks: seq<int>, vs: seq<int>, ns: seq<int>, hs: seq<int>, hash: (int, int) -> int, chains: seq<seq<int>>,
             free: seq<int>, head: int, count: nat)
    requires Shares(ks, vs, ns, hs, hash, chains, free, head, count) && count < |vs|
    ensures free != [] && head != -1
  {
    assert Unfold(Topic.ArrayMaps, true);
    UsedRoom(vs);
    var m :| 0 <= m < |vs| && vs[m] == NULL_LONG;
    assert m in free;
  }

  lemma FilledShares(ks: seq<int>, vs: seq<int>, ns: seq<int>, hs: seq<int>, hash: (int, int) -> int,
                     chains: seq<seq<int>>, free: seq<int>, head: int, count: nat, key: int, value: int)
    requires Shares(ks, vs, ns, hs, hash, chains, free, head, count) && free != [] && value != NULL_LONG
    requires forall m :: !Holds(ks, vs, m, key, value)
    ensures var h := hash(key, |hs|);
      && 0 <= h < |hs| && h < |chains| && 0 <= head < |ns| && |ns| == |vs| == |hs|
      && var end := if hs[h] != -1 then hs[h] else -2;
      && Shares(ks[head := key], vs[head := value], ns[head := end], hs[h := head], hash,
                chains[h := [head] + chains[h]], free[1..], ns[head], count + 1)
      && Pairs(ks[head := key], vs[head := value]) == Pairs(ks, vs) + {(key, value)}
  {
    assert Unfold(Topic.ArrayMaps, true);
    FilledSlot(ks, vs, ns, hs, hash, chains, free, head, count, key, value);
  }

  lemma FilledBroken(ks: seq<int>, vs: seq<int>, ns: seq<int>, hs: seq<int>, hash: (int, int) -> int,
                     chains: seq<seq<int>>, free: seq<int>, head: int, count: nat, key: int, ns': seq<int>,
                     hs': seq<int>, chains': seq<seq<int>>, free': seq<int>, head': int)
    requires Shares(ks, vs, ns, hs, hash, chains, free, head, count) && free != []
    ensures 0 <= head < |ns| && |ns| == |vs| == |hs| == |ks|
    ensures Pairs(ks[head := key], vs[head := NULL_LONG]) == Pairs(ks, vs)
    ensures !Shares(ks[head := key], vs[head := NULL_LONG], ns', hs', hash, chains', free', head', count + 1)
  {
    assert Unfold(Topic.ArrayMaps, true);
    assert free[0] in free;
    FilledNull(ks, vs, ns, hs, hash, chains, free, head, count, key, ns', hs', chains', free', head');
  }

  /** What is left after a slot is filled is in order unless the value marks free slots. */
  lemma FilledEither(ks: seq<int>, vs: seq<int>, ns: seq<int>, hs: seq<int>, hash: (int, int) -> int,
                     chains: seq<seq<int>>, free: seq<int>, head: int, count: nat, key: int, value: int)
    requires Shares(ks, vs, ns, hs, hash, chains, free, head, count) && free != []
    requires forall m :: !Holds(ks, vs, m, key, value)
    requires var h := hash(key, |hs|); 0 <= h < |hs| && h < |chains|
    ensures var h := hash(key, |hs|);
      && 0 <= head < |ns| && |ns| == |vs| == |hs| == |ks|
      && var end := if hs[h] != -1 then hs[h] else -2;
      && (value != NULL_LONG <==>
          Shares(ks[head := key], vs[head := value], ns[head := end], hs[h := head], hash,
                 chains[h := [head] + chains[h]], free[1..], ns[head], count + 1))
      && Pairs(ks[head := key], vs[head := value]) ==
         Pairs(ks, vs) + if value != NULL_LONG then {(key, value)} else {}
  {
    var h := hash(key, |hs|);
    if value != NULL_LONG {
      FilledShares(ks, vs, ns, hs, hash, chains, free, head, count, key, value);
    } else {
      FilledBroken(ks, vs, ns, hs, hash, chains, free, head, count, key, ns, hs, chains, free, head);
      FilledBroken(ks, vs, ns, hs, hash, chains, free, head, count, key,
        ns[head := if hs[h] != -1 then hs[h] else -2], hs[h := head], chains[h := [head] + chains[h]], free[1..],
        ns[head]);
    }
  }

  /** `result` is the values that the slots seen hold for the key. */
  ghost predicate Listed(ks: seq<int>, vs: seq<int>, key: int, seen: seq<int>, result: seq<int>) {
    && (forall value :: value in result <==> exists m :: m in seen && Holds(ks, vs, m, key, value))
    && (forall i, j :: 0 <= i < j < |result| ==> result[i] != result[j])
  }

  lemma ListedNext(ks: seq<int>, vs: seq<int>, key: int, c: seq<int>, k: nat, result: seq<int>)
    requires |ks| == |vs| && OnePerPair(ks, vs) && k < |c| && Listed(ks, vs, key, c[..k], result)
    requires 0 <= c[k] < |vs| && vs[c[k]] != NULL_LONG && forall i, j :: 0 <= i < j < |c| ==> c[i] != c[j]
    ensures Listed(ks, vs, key, c[..k + 1], if ks[c[k]] == key then result + [vs[c[k]]] else result)
  {
    var m := c[k];
    assert c[..k + 1] == c[..k] + [m];
    assert m !in c[..k];
    var result' := if ks[m] == key then result + [vs[m]] else result;
    forall value ensures value in result' <==> exists i :: i in c[..k + 1] && Holds(ks, vs, i, key, value) {
      assert Holds(ks, vs, m, key, value) <==> ks[m] == key && vs[m] == value;
    }
    if ks[m] == key {
      assert Holds(ks, vs, m, key, vs[m]);
      assert vs[m] !in result;
    }
  }

  // ----- the map, sharing its state with the map it was forked from until it is first changed -----

  /** A new state: every slot is free. */
  method NewState(initialCapacity: nat, hash: (int, int) -> int) returns (r: MapState)
    requires initialCapacity >= 1 && forall n: int :: n >= 1 ==> InRange(hash, n)
    ensures fresh(r) && fresh(r.Arrays()) && r.Valid() && r.Contents() == {} && r.elementCount == 0
  {
    var elementK := Filled(initialCapacity, 0);
    var elementV := Filled(initialCapacity, NULL_LONG);
    var elementNext := FreeLinks(initialCapacity);
    var elementHash := Filled(initialCapacity, -1);
    AllFree(elementK[..], elementV[..], elementNext[..], elementHash[..], hash);
    r := new MapState(initialCapacity, hash, elementK, elementV, elementNext, elementHash, 0, 0,
      NoChains(initialCapacity), Ascending(initialCapacity));
  }

  method FreeLinks(n: nat) returns (a: array<int>)
    ensures fresh(a) && a.Length == n && forall j :: 0 <= j < n ==> a[j] == if j < n - 1 then j + 1 else -1
  {
    a := new int[n];
    for i := 0 to n
      invariant forall j :: 0 <= j < i ==> a[j] == if j < n - 1 then j + 1 else -1
    {
      if i == n - 1 {
        a[i] := -1;
      } else {
        a[i] := i + 1;
      }
    }
  }

  function Ascending(n: nat): seq<int> {
    seq(n, i => i)
  }

  lemma {:induction false} NoneUsed(vs: seq<int>)
    requires forall m :: 0 <= m < |vs| ==> vs[m] == NULL_LONG
    ensures Used(vs) == 0
  {
    if vs != [] {
      NoneUsed(vs[..|vs| - 1]);
    }
  }

  lemma AllFree(ks: seq<int>, vs: seq<int>, ns: seq<int>, hs: seq<int>, hash: (int, int) -> int)
    requires |ks| == |vs| == |ns| == |hs| >= 1 && InRange(hash, |hs|)
    requires forall m :: 0 <= m < |vs| ==> vs[m] == NULL_LONG && hs[m] == -1 && ns[m] == if m < |vs| - 1 then m + 1
      else -1
    ensures Shares(ks, vs, ns, hs, hash, NoChains(|hs|), Ascending(|vs|), 0, 0) && Pairs(ks, vs) == {}
  {
    EmptyChained(BucketsOf(ks, vs, hash, |hs|), ns, hs);
    NoneUsed(vs);
    var free := Ascending(|vs|);
    forall m | 0 <= m < |vs| ensures m in free {
      assert free[m] == m;
    }
  }

  class LongLongArrayMap {
    var state: MapState
    var aligned: bool

    ghost function Parts(): set<object>
      reads this
    {
      {state, state.elementK, state.elementV, state.elementNext, state.elementHash}
    }

    ghost predicate Valid()
      reads this, Parts()
    {
      state.Valid()
    }

    ghost function Contents(): set<(int, int)>
      reads this, state
      requires |state.ks| == |state.vs|
    {
      state.Contents()
    }

    /** What a change may touch: a shared state is not among it. */
    ghost function Own(): set<object>
      reads this
    {
      if aligned then {state} + state.Arrays() else {}
    }

    constructor (initialCapacity: nat, hash: (int, int) -> int)
      requires initialCapacity >= 1 && forall n: int :: n >= 1 ==> InRange(hash, n)
      ensures Valid() && Contents() == {} && aligned && fresh(state) && fresh(state.Arrays())
    {
      var newstate := NewState(initialCapacity, hash);
      state, aligned := newstate, true;
    }

    /** The map of a forked state. */
    constructor Fork(origin: LongLongArrayMap)
      requires origin.Valid()
      ensures Valid() && state == origin.state && Contents() == origin.Contents() && !aligned
    {
      state, aligned := origin.state, false;
    }

    /** What get answers for a key. */
    ghost function Values(key: int): seq<int>
      reads this, state
    {
      state.Values(key)
    }

    method Get(key: int) returns (result: seq<int>)
      requires Valid()
      ensures forall value :: value in result <==> (key, value) in Contents()
      ensures forall i, j :: 0 <= i < j < |result| ==> result[i] != result[j]
      ensures result == Values(key)
    {
      result := state.Get(key);
    }

    method Each() returns (each: seq<(int, int)>)
      requires Valid()
      ensures |each| == state.elementCount && Elements(each) == Contents() && NoneTwice(each)
    {
      each := state.Each();
    }

    /** Adds a pair; the error of a full map cannot occur.  The value NULL_LONG marks free slots: with it no pair is
        added, and the map is not in order any more. */
    method Put(key: int, value: int) returns (done: bool)
      requires Valid()
      modifies this, Own()
      ensures (Valid() <==> value != NULL_LONG) && done && |state.ks| == |state.vs|
      ensures Contents() == old(Contents()) + if value != NULL_LONG then {(key, value)} else {}
      ensures (state == old(state) && aligned == old(aligned)) || (fresh(state) && fresh(state.Arrays()))
      ensures state.stateSize ==
        if 4 * (old(state.elementCount) + 1) > 3 * old(state.stateSize) then 2 * old(state.stateSize)
        else old(state.stateSize)
      ensures aligned <==> old(aligned) || (key, value) !in old(Contents())
      ensures var first := if (key, value) in old(Contents()) then [] else [value];
        forall k :: Values(k) == (if k == key then first else []) + old(state.ValuesWithRoom(k))
    {
      MakeRoom();
      done := Enter(key, value);
    }

    method MakeRoom()
      requires Valid()
      modifies `state
      ensures Valid() && Contents() == old(Contents()) && 4 * (state.elementCount + 1) <= 3 * state.stateSize
      ensures if 4 * (old(state.elementCount) + 1) > 3 * old(state.stateSize)
        then fresh(state) && fresh(state.Arrays()) && state.stateSize == 2 * old(state.stateSize)
        else state == old(state)
      ensures forall k :: Values(k) == old(state.ValuesWithRoom(k))
    {
      if 4 * (state.elementCount + 1) > 3 * state.stateSize {
        var grown := state.Grown();
        state := grown;
      }
    }

    /** The insertion itself, unless the pair is there. */
    method Enter(key: int, value: int) returns (done: bool)
      requires Valid() && 4 * (state.elementCount + 1) <= 3 * state.stateSize
      modifies this, if aligned then {state} + state.Arrays() else {}
      ensures (Valid() <==> value != NULL_LONG) && done && |state.ks| == |state.vs|
      ensures state.stateSize == old(state.stateSize)
      ensures Contents() == old(Contents()) + if value != NULL_LONG then {(key, value)} else {}
      ensures (state == old(state) && aligned == old(aligned)) || (fresh(state) && fresh(state.Arrays()))
      ensures aligned <==> old(aligned) || (key, value) !in old(Contents())
      ensures var first := if (key, value) in old(Contents()) then [] else [value];
        forall k :: Values(k) == (if k == key then first else []) + old(Values(k))
    {
      PairsIn(state.ks, state.vs, key, value);
      var m, _, k := state.FindPair(key, value);
      if m >= 0 {
        return true;
      }
      if !aligned {
        var clone := state.Clone();
        state := clone;
        aligned := true;
      }
      done := state.Fill(key, value);
    }

    /** Takes a pair out of the state, which is not copied first even when it is shared. */
    method Remove(key: int, value: int)
      requires Valid()
      modifies state, state.Arrays()
      ensures Valid() && state == old(state) && aligned == old(aligned)
      ensures Contents() == old(Contents()) - {(key, value)}
      ensures forall k :: Values(k) == if k == key then Less(old(Values(k)), value) else old(Values(k))
    {
      state.Remove(key, value);
    }
  }

  /** What removal through a fork that still shares its state does to the origin: it keeps its pairs exactly
      when it did not have the one that was removed. */
  method RemoveThroughFork(origin: LongLongArrayMap, fork: LongLongArrayMap, key: int, value: int)
    requires origin.Valid() && fork.Valid() && fork.state == origin.state
    modifies origin.state, origin.state.Arrays()
    ensures origin.Valid() && fork.Valid()
    ensures origin.Contents() == fork.Contents() == old(origin.Contents()) - {(key, value)}
    ensures origin.Contents() == old(origin.Contents()) <==> (key, value) !in old(origin.Contents())
  {
    fork.Remove(key, value);
  }

  /** The pair (1, 2), put into a map and removed from its fork, is gone from the map. */
  method LostThroughFork(hash: (int, int) -> int) returns (origin: LongLongArrayMap, ghost before: set<(int, int)>)
    requires forall n: int :: n >= 1 ==> InRange(hash, n)
    ensures origin.Valid() && before == {(1, 2)} && origin.Contents() == {}
  {
    origin := new LongLongArrayMap(1, hash);
    var _ := origin.Put(1, 2);
    before := origin.Contents();
    var fork := new LongLongArrayMap.Fork(origin);
    RemoveThroughFork(origin, fork, 1, 2);
  }

  /** Forks a map and puts pairs into the fork.  There is no `modifies`: nothing that existed before is
      written to, so the origin and the maps that it was forked from hold what they held. */
  method PutIntoFork(origin: LongLongArrayMap, pairs: seq<(int, int)>) returns (fork: LongLongArrayMap)
    requires origin.Valid() && forall p <- pairs :: p.1 != NULL_LONG
    ensures origin.Valid() && origin.Contents() == old(origin.Contents()) && fresh(fork) && fork.Valid()
    ensures fork.Contents() == origin.Contents() + Elements(pairs)
  {
    fork := new LongLongArrayMap.Fork(origin);
    PutAll(fork, pairs);
  }

  method PutAll(map_: LongLongArrayMap, pairs: seq<(int, int)>)
    requires map_.Valid() && forall p <- pairs :: p.1 != NULL_LONG
    modifies map_, map_.Own()
    ensures map_.Valid() && map_.Contents() == old(map_.Contents()) + Elements(pairs)
    ensures (map_.state == old(map_.state) && map_.aligned == old(map_.aligned))
      || (fresh(map_.state) && fresh(map_.state.Arrays()))
    decreases |pairs|
  {
    if pairs != [] {
      var n := |pairs| - 1;
      PutAll(map_, pairs[..n]);
      assert pairs == pairs[..n] + [pairs[n]] && pairs[n] in pairs;
      assert Elements(pairs) == Elements(pairs[..n]) + {pairs[n]};
      var _ := map_.Put(pairs[n].0, pairs[n].1);
    }
  }
}
