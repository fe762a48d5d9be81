/** ArrayLongLongMap: a long-to-long hash map whose arrays a fork shares until it writes. */
module LongLongMaps {
  import opened Hiding
  import opened Constants
  import opened Buckets
  import LongLongArrayMaps

  // ----- what a map means: its pairs in the order in which their keys came -----

  ghost predicate OnePerKey(each: seq<(int, int)>) {
    forall i, j :: 0 <= i < j < |each| ==> each[i].0 != each[j].0
  }

  ghost predicate HasKey(each: seq<(int, int)>, key: int) {
    exists m :: 0 <= m < |each| && each[m].0 == key
  }

  /** What a put makes of the pairs: a new key goes to the end, and without a value it gets its position;
      a present key keeps its place, and without a new value its value. */
  ghost function After(each: seq<(int, int)>, key: int, value: int): seq<(int, int)> {
    if m :| 0 <= m < |each| && each[m].0 == key then
      if value == NULL_LONG then each else each[m := (key, value)]
    else
      each + [(key, if value == NULL_LONG then |each| else value)]
  }

  ghost function AfterAll(each: seq<(int, int)>, puts: seq<(int, int)>): seq<(int, int)> {
    if puts == [] then each else
      var n := |puts| - 1;
      After(AfterAll(each, puts[..n]), puts[n].0, puts[n].1)
  }

  /** What get returns. */
  ghost function Read(each: seq<(int, int)>, key: int): int {
    if m :| 0 <= m < |each| && each[m].0 == key then each[m].1 else NULL_LONG
  }

  /** A put is an update at its key. */
  lemma PutReads(each: seq<(int, int)>, key: int, value: int, k: int)
    requires OnePerKey(each)
    ensures OnePerKey(After(each, key, value))
    ensures Read(After(each, key, value), k) ==
      if k != key || (HasKey(each, key) && value == NULL_LONG) then Read(each, k)
        else if value == NULL_LONG then |each| else value
  {
    var after := After(each, key, value);
    if m :| 0 <= m < |each| && each[m].0 == key {
      if value != NULL_LONG {
        assert after == each[m := (key, value)];
        assert after[m].0 == key;
      }
      forall i | 0 <= i < |each| ensures after[i].0 == each[i].0 {
      }
    } else {
      assert after[|each|].0 == key;
      assert forall i :: 0 <= i < |each| ==> after[i] == each[i] && each[i].0 != key;
    }
    if i :| 0 <= i < |each| && each[i].0 == k {
      assert after[i].0 == k;
    }
  }

  /** The n-th key that came has number n. */
  ghost predicate Numbered(each: seq<(int, int)>) {
    forall m :: 0 <= m < |each| ==> each[m].1 == m
  }

  /** A map that is only filled without values gives different keys different numbers, which stay. */
  lemma {:induction false} NumbersAreDistinct(each: seq<(int, int)>, puts: seq<(int, int)>)
    requires OnePerKey(each) && Numbered(each) && forall p <- puts :: p.1 == NULL_LONG
    ensures OnePerKey(AfterAll(each, puts)) && Numbered(AfterAll(each, puts)) && each <= AfterAll(each, puts)
    ensures forall p <- puts :: HasKey(AfterAll(each, puts), p.0)
    ensures forall k, l :: HasKey(AfterAll(each, puts), k) && HasKey(AfterAll(each, puts), l) && k != l ==>
      Read(AfterAll(each, puts), k) != Read(AfterAll(each, puts), l)
  {
    if puts != [] {
      var n := |puts| - 1;
      NumbersAreDistinct(each, puts[..n]);
      var before, after := AfterAll(each, puts[..n]), AfterAll(each, puts);
      PutReads(before, puts[n].0, puts[n].1, 0);
      forall p <- puts ensures HasKey(after, p.0) {
        var i :| 0 <= i < |puts| && puts[i] == p;
        if i < n {
          assert p in puts[..n];
          var m :| 0 <= m < |before| && before[m].0 == p.0;
          assert after[m].0 == p.0;
        } else if !HasKey(before, p.0) {
          assert after[|before|].0 == p.0;
        }
      }
    }
  }

  // ----- the arrays -----

  function BucketsOf(ks: seq<int>, count: nat, hash: (int, int) -> int, n: nat): (b: seq<int>)
    ensures |b| == |ks| && forall m :: 0 <= m < |ks| ==> b[m] == if m < count then hash(ks[m], n) else -1
  {
    seq(|ks|, m requires 0 <= m < |ks| => if m < count then hash(ks[m], n) else -1)
  }

  /** The slots before `count` are in the chains; the last slot of a chain is marked by -2, so that -1 says
      that a slot was not given out. */
  ghost predicate Linked(ks: seq<int>, ns: seq<int>, hs: seq<int>, hash: (int, int) -> int, chains: seq<seq<int>>,
                         count: nat) {
    && |ks| == |ns| == |hs| >= 1 && count <= |ks| && LongLongArrayMaps.InRange(hash, |hs|)
    && Chained(BucketsOf(ks, count, hash, |hs|), ns, hs, chains) && PlainEnds(hs)
    && forall m :: 0 <= m < |ns| ==> (m < count <==> ns[m] != -1)
  }

  function EndOr(head: int): int {
    if head != -1 then head else -2
  }

  lemma LinkedNext(ks: seq<int>, ns: seq<int>, hs: seq<int>, hash: (int, int) -> int, chains: seq<seq<int>>,
                   count: nat, key: int)
    requires Linked(ks, ns, hs, hash, chains, count) && count < |ks|
    ensures var h := hash(key, |hs|);
      && 0 <= h < |hs| == |chains|
      && Linked(ks[count := key], ns[count := EndOr(hs[h])], hs[h := count], hash, chains[h := [count] + chains[h]],
        count + 1)
  {
    var h := hash(key, |hs|);
    assert LongLongArrayMaps.InRange(hash, |hs|);
    assert 0 <= h < |hs|;
    var b := BucketsOf(ks, count, hash, |hs|);
    Enchained(b, ns, hs, chains, count, h, EndOr(hs[h]));
    assert BucketsOf(ks[count := key], count + 1, hash, |hs|) == b[count := h];
  }

  lemma NothingLinked(ks: seq<int>, ns: seq<int>, hs: seq<int>, hash: (int, int) -> int)
    requires |ks| == |ns| == |hs| >= 1 && LongLongArrayMaps.InRange(hash, |hs|)
    requires forall i :: 0 <= i < |ns| ==> ns[i] == -1 && hs[i] == -1
    ensures Linked(ks, ns, hs, hash, LongLongArrayMaps.NoChains(|hs|), 0)
  {
    EmptyChained(BucketsOf(ks, 0, hash, |hs|), ns, hs);
  }

  /** `Linked`, for callers to pass on: its definition comes into play only where `Unfold` is mentioned. */
  ghost predicate Indexed(ks: seq<int>, ns: seq<int>, hs: seq<int>, hash: (int, int) -> int, chains: seq<seq<int>>,
                          count: nat) {
    forall b {:trigger Unfold(Topic.LongMaps, b)} :: Unfold(Topic.LongMaps, b) ==>
      Linked(ks, ns, hs, hash, chains, count)
  }

  lemma IndexedSizes(ks: seq<int>, ns: seq<int>, hs: seq<int>, hash: (int, int) -> int, chains: seq<seq<int>>,
                     count: nat)
    requires Indexed(ks, ns, hs, hash, chains, count)
    ensures |ks| == |ns| == |hs| >= 1 && count <= |ks| && forall m :: 0 <= m < |ns| ==> (m < count <==> ns[m] != -1)
  {
    assert Unfold(Topic.LongMaps, true);
  }

  lemma IndexedNext(ks: seq<int>, ns: seq<int>, hs: seq<int>, hash: (int, int) -> int, chains: seq<seq<int>>,
                    count: nat, key: int)
    requires Indexed(ks, ns, hs, hash, chains, count) && count < |ks|
    ensures var h := hash(key, |hs|);
      && 0 <= h < |hs| == |chains| && |ns| == |ks|
      && Indexed(ks[count := key], ns[count := EndOr(hs[h])], hs[h := count], hash, chains[h := [count] + chains[h]],
        count + 1)
  {
    assert Unfold(Topic.LongMaps, true);
    LinkedNext(ks, ns, hs, hash, chains, count, key);
  }

  lemma KeyChain(ks: seq<int>, ns: seq<int>, hs: seq<int>, hash: (int, int) -> int, chains: seq<seq<int>>, count: nat,
                 key: int)
    requires Indexed(ks, ns, hs, hash, chains, count)
    ensures var h := hash(key, |hs|);
      && |ns| == |ks| && 0 <= h < |hs| == |chains| && ChainOk(chains[h], h, BucketsOf(ks, count, hash, |hs|), ns, hs[h])
      && (forall m :: 0 <= m < count <= |ks| && ks[m] == key ==> m in chains[h])
      && forall m <- chains[h] :: 0 <= m < count <= |ks|
  {
    assert Unfold(Topic.LongMaps, true);
    assert LongLongArrayMaps.InRange(hash, |hs|);
    var h := hash(key, |hs|);
    assert 0 <= h < |hs|;
    var b := BucketsOf(ks, count, hash, |hs|);
    assert ChainOk(chains[h], h, b, ns, hs[h]);
    forall m | 0 <= m < count && ks[m] == key ensures m in chains[h] {
      assert b[m] == h;
    }
    forall m | m in chains[h] ensures 0 <= m < count {
      var j :| 0 <= j < |chains[h]| && chains[h][j] == m;
      assert b[chains[h][j]] == h;
    }
  }

  ghost function PairsOf(ks: seq<int>, vs: seq<int>, count: nat): (p: seq<(int, int)>)
    requires count <= |ks| == |vs|
    ensures |p| == count && forall m :: 0 <= m < count ==> p[m] == (ks[m], vs[m])
  {
    seq(count, m requires 0 <= m < count => (ks[m], vs[m]))
  }

  lemma NewPair(ks: seq<int>, vs: seq<int>, count: nat, key: int, value: int, stored: int)
    requires count < |ks| == |vs| && OnePerKey(PairsOf(ks, vs, count)) && !HasKey(PairsOf(ks, vs, count), key)
    requires stored == if value == NULL_LONG then count else value
    ensures PairsOf(ks[count := key], vs[count := stored], count + 1) == After(PairsOf(ks, vs, count), key, value)
    ensures OnePerKey(PairsOf(ks[count := key], vs[count := stored], count + 1))
  {
    var p, q := PairsOf(ks, vs, count), PairsOf(ks[count := key], vs[count := stored], count + 1);
    assert forall m :: 0 <= m < |p| ==> p[m].0 != key;
    assert q == p + [(key, stored)];
  }

  lemma NewValue(ks: seq<int>, vs: seq<int>, count: nat, m: nat, value: int)
    requires m < count <= |ks| == |vs| && OnePerKey(PairsOf(ks, vs, count))
    ensures PairsOf(ks, vs[m := value], count) == PairsOf(ks, vs, count)[m := (ks[m], value)]
    ensures OnePerKey(PairsOf(ks, vs[m := value], count))
  {
    var p, q := PairsOf(ks, vs, count), PairsOf(ks, vs[m := value], count);
    assert forall i :: 0 <= i < count ==> q[i].0 == p[i].0;
  }

  lemma UpdateAt(each: seq<(int, int)>, entry: nat, key: int, value: int)
    requires OnePerKey(each) && entry < |each| && each[entry].0 == key
    ensures After(each, key, value) == if each[entry].1 != value && value != NULL_LONG then each[entry := (key, value)]
      else each
  {
    assert forall m :: 0 <= m < |each| && each[m].0 == key ==> m == entry;
    assert each[entry].1 == value ==> each[entry := (key, value)] == each;
  }

  class MapState {
    const stateSize: nat
    const hash: (int, int) -> int
    const elementK: array<int>
    const elementV: array<int>
    const elementNext: array<int>
    const elementHash: array<int>
    var elementCount: nat
    ghost var ks: seq<int>              // the contents of the arrays
    ghost var vs: seq<int>
    ghost var ns: seq<int>
    ghost var hs: seq<int>
    ghost var chains: seq<seq<int>>     // the slots in each bucket

    ghost function Arrays(): set<object> {
      {elementK, elementV, elementNext, elementHash}
    }

    ghost predicate Synced()
      reads this, Arrays()
    {
      && elementK !in {elementV, elementNext, elementHash} && elementV !in {elementNext, elementHash}
      && elementNext != elementHash
      && elementK.Length == elementV.Length == elementNext.Length == elementHash.Length == stateSize >= 1
      && elementK[..] == ks && elementV[..] == vs && elementNext[..] == ns && elementHash[..] == hs
    }

    ghost predicate Valid()
      reads this, Arrays()
    {
      && Synced() && (forall n: int :: n >= 1 ==> LongLongArrayMaps.InRange(hash, n)) && elementCount <= stateSize
      && Indexed(ks, ns, hs, hash, chains, elementCount) && OnePerKey(PairsOf(ks, vs, elementCount))
    }

    ghost function Pairs(): seq<(int, int)>
      reads this
      requires elementCount <= |ks| == |vs|
    {
      PairsOf(ks, vs, elementCount)
    }

    constructor (stateSize: nat, hash: (int, int) -> int, elementK: array<int>, elementV: array<int>,
                 elementNext: array<int>, elementHash: array<int>, elementCount: nat, ghost chains: seq<seq<int>>)
      ensures this.stateSize == stateSize && this.hash == hash && this.elementCount == elementCount
      ensures this.chains == chains
      ensures this.elementK == elementK && this.elementV == elementV && this.elementNext == elementNext
      ensures this.elementHash == elementHash
      ensures ks == elementK[..] && vs == elementV[..] && ns == elementNext[..] && hs == elementHash[..]
    {
      this.stateSize, this.hash, this.elementCount := stateSize, hash, elementCount;
      this.elementK, this.elementV, this.elementNext, this.elementHash := elementK, elementV, elementNext, elementHash;
      this.chains := chains;
      ks, vs, ns, hs := elementK[..], elementV[..], elementNext[..], elementHash[..];
    }

    /** The slot of a key, negative when it has none. */
    method Find(key: int) returns (m: int)
      requires Valid()
      ensures m < 0 ==> !HasKey(Pairs(), key)
      ensures m >= 0 ==> m < elementCount && ks[m] == key
    {
      KeyChain(ks, ns, hs, hash, chains, elementCount, key);
      var hashIndex := hash(key, stateSize);
      ghost var c := chains[hashIndex];
      ghost var k := 0;
      m := elementHash[hashIndex];
      while m >= 0
        invariant 0 <= k <= |c| && if k < |c| then m == c[k] else m < 0
        invariant forall j :: 0 <= j < k ==> ks[c[j]] != key
        decreases |c| - k
      {
        if key == elementK[m] {
          return;
        }
        m := elementNext[m];
        k := k + 1;
      }
      forall i | 0 <= i < elementCount ensures ks[i] != key {
        assert ks[i] == key ==> i in c;
      }
    }

    method Get(key: int) returns (value: int)
      requires Valid()
      ensures value == Read(Pairs(), key)
    {
      var m := Find(key);
      value := if m >= 0 then elementV[m] else NULL_LONG;
      forall i | 0 <= i < |Pairs()| && Pairs()[i].0 == key ensures value == Pairs()[i].1 {
        assert m >= 0 && Pairs()[m].0 == key;
      }
    }

    /** each(): the pairs that it delivers. */
    method Each() returns (each: seq<(int, int)>)
      requires Valid()
      ensures each == Pairs()
    {
      IndexedSizes(ks, ns, hs, hash, chains, elementCount);
      each := [];
      for i := 0 to elementCount
        invariant each == Pairs()[..i]
      {
        if elementNext[i] != -1 {
          each := each + [(elementK[i], elementV[i])];
        }
      }
    }

    method Occupy(newIndex: int, hashIndex: int, key: int, value: int)
      requires Synced() && 0 <= newIndex < stateSize && 0 <= hashIndex < stateSize
      modifies `ks, `vs, `ns, `hs, elementK, elementV, elementNext, elementHash
      ensures Synced() && ks == old(ks)[newIndex := key] && vs == old(vs)[newIndex := value]
      ensures ns == old(ns)[newIndex := EndOr(old(hs)[hashIndex])] && hs == old(hs)[hashIndex := newIndex]
    {
      elementK[newIndex] := key;
      elementV[newIndex] := value;
      var currentHashedElemIndex := elementHash[hashIndex];
      if currentHashedElemIndex != -1 {
        elementNext[newIndex] := currentHashedElemIndex;
      } else {
        elementNext[newIndex] := -2;
      }
      elementHash[hashIndex] := newIndex;
      ks, vs, ns, hs := ks[newIndex := key], vs[newIndex := value], ns[newIndex := EndOr(hs[hashIndex])],
        hs[hashIndex := newIndex];
    }

    /** A slot for an absent key. */
    method Add(key: int, value: int)
      requires Valid() && elementCount < stateSize && !HasKey(Pairs(), key)
      modifies this, Arrays()
      ensures Valid() && Pairs() == After(old(Pairs()), key, value)
    {
      var newIndex := elementCount;
      var stored := if value == NULL_LONG then elementCount else value;
      var hashIndex := hash(key, stateSize);
      IndexedNext(ks, ns, hs, hash, chains, elementCount, key);
      NewPair(ks, vs, elementCount, key, value, stored);
      Occupy(newIndex, hashIndex, key, stored);
      chains := chains[hashIndex := [newIndex] + chains[hashIndex]];
      elementCount := elementCount + 1;
    }

    /** A new value for a present key. */
    method Replace(entry: int, value: int)
      requires Valid() && 0 <= entry < elementCount
      modifies `vs, elementV
      ensures Valid() && Pairs() == old(Pairs())[entry := (ks[entry], value)]
    {
      NewValue(ks, vs, elementCount, entry, value);
      elementV[entry] := value;
      vs := vs[entry := value];
    }

    /** A put at a present key. */
    method Update(entry: int, key: int, value: int)
      requires Valid() && 0 <= entry < elementCount && ks[entry] == key
      modifies `vs, elementV
      ensures Valid() && Pairs() == After(old(Pairs()), key, value)
    {
      UpdateAt(Pairs(), entry, key, value);
      if elementV[entry] != value && value != NULL_LONG {
        Replace(entry, value);
      }
    }

    method Clone() returns (r: MapState)
      requires Valid()
      ensures fresh(r) && fresh(r.Arrays()) && r.Valid() && r.Pairs() == Pairs() && r.stateSize == stateSize
      ensures r.elementCount == elementCount
    {
      var clonedK := LongLongArrayMaps.Copied(elementK, stateSize, 0);
      var clonedV := LongLongArrayMaps.Copied(elementV, stateSize, 0);
      var clonedNext := LongLongArrayMaps.Copied(elementNext, stateSize, 0);
      var clonedHash := LongLongArrayMaps.Copied(elementHash, stateSize, 0);
      assert clonedK[..] == ks && clonedV[..] == vs && clonedNext[..] == ns && clonedHash[..] == hs;
      r := new MapState(stateSize, hash, clonedK, clonedV, clonedNext, clonedHash, elementCount, chains);
    }

    /** Twice the slots. */
    method Grown() returns (r: MapState)
      requires Valid()
      ensures fresh(r) && fresh(r.Arrays()) && r.Valid() && r.Pairs() == Pairs() && r.stateSize == 2 * stateSize
      ensures r.elementCount == elementCount
    {
      var newCapacity := stateSize * 2;
      var newElementK := LongLongArrayMaps.Copied(elementK, newCapacity, 0);
      var newElementV := LongLongArrayMaps.Copied(elementV, newCapacity, 0);
      var newElementNext, newElementHash;
      ghost var chains';
      ghost var ks', vs' := newElementK[..], newElementV[..];
      assert ks'[..stateSize] == ks && vs'[..stateSize] == vs;
      SamePairs(ks, vs, ks', vs', elementCount);
      assert LongLongArrayMaps.InRange(hash, newCapacity);
      newElementNext, newElementHash, chains' := Rehash(newElementK, elementNext, hash, elementCount, ks, ns, hs,
        chains);
      r := new MapState(newCapacity, hash, newElementK, newElementV, newElementNext, newElementHash, elementCount,
        chains');
    }
  }

  lemma SamePairs(ks: seq<int>, vs: seq<int>, ks': seq<int>, vs': seq<int>, count: nat)
    requires count <= |ks| == |vs| <= |ks'| == |vs'| && ks'[..|ks|] == ks && vs'[..|vs|] == vs
    ensures PairsOf(ks', vs', count) == PairsOf(ks, vs, count)
  {
    forall m | 0 <= m < count ensures ks'[m] == ks[m] && vs'[m] == vs[m] {
      assert ks'[m] == ks'[..|ks|][m] && vs'[m] == vs'[..|vs|][m];
    }
  }

  /** Chains for the slots that were in chains. */
  method Rehash(newK: array<int>, oldNext: array<int>, hash: (int, int) -> int, elementCount: nat, ghost ks: seq<int>,
                ghost ns: seq<int>, ghost hs: seq<int>, ghost chains: seq<seq<int>>)
    returns (newNext: array<int>, newHash: array<int>, ghost chains': seq<seq<int>>)
    requires Indexed(ks, ns, hs, hash, chains, elementCount) && oldNext[..] == ns && |ns| <= newK.Length
    requires LongLongArrayMaps.InRange(hash, newK.Length)
    ensures fresh(newNext) && fresh(newHash) && newNext != newHash && newNext.Length == newHash.Length == newK.Length
    ensures Indexed(newK[..], newNext[..], newHash[..], hash, chains', elementCount)
  {
    IndexedSizes(ks, ns, hs, hash, chains, elementCount);
    newNext := LongLongArrayMaps.Filled(newK.Length, -1);
    newHash := LongLongArrayMaps.Filled(newK.Length, -1);
    chains' := LongLongArrayMaps.NoChains(newK.Length);
    NothingLinked(newK[..], newNext[..], newHash[..], hash);
    for i := 0 to elementCount
      invariant Indexed(newK[..], newNext[..], newHash[..], hash, chains', i)
      invariant fresh(newNext) && fresh(newHash) && newNext != newHash && oldNext[..] == ns
    {
      assert oldNext[i] == ns[i];
      if oldNext[i] != -1 {
        chains' := LinkSlot(newK, newNext, newHash, hash, chains', i);
      }
    }
  }

  method LinkSlot(newK: array<int>, newNext: array<int>, newHash: array<int>, hash: (int, int) -> int,
                  ghost chains: seq<seq<int>>, i: nat)
    returns (ghost chains': seq<seq<int>>)
    requires newNext != newHash && newNext != newK && newHash != newK && i < newK.Length
    requires Indexed(newK[..], newNext[..], newHash[..], hash, chains, i)
    modifies newNext, newHash
    ensures Indexed(newK[..], newNext[..], newHash[..], hash, chains', i + 1)
  {
    IndexedSizes(newK[..], newNext[..], newHash[..], hash, chains, i);
    IndexedNext(newK[..], newNext[..], newHash[..], hash, chains, i, newK[i]);
    var newHashIndex := hash(newK[i], newHash.Length);
    var currentHashedIndex := newHash[newHashIndex];
    chains' := chains[newHashIndex := [i] + chains[newHashIndex]];
    if currentHashedIndex != -1 {
      LongLongArrayMaps.Write(newNext, i, currentHashedIndex);
    } else {
      LongLongArrayMaps.Write(newNext, i, -2);
    }
    LongLongArrayMaps.Write(newHash, newHashIndex, i);
    assert newK[..][i := newK[i]] == newK[..];
  }

  method NewState(initialCapacity: nat, hash: (int, int) -> int) returns (r: MapState)
    requires initialCapacity >= 1 && forall n: int :: n >= 1 ==> LongLongArrayMaps.InRange(hash, n)
    ensures fresh(r) && fresh(r.Arrays()) && r.Valid() && r.Pairs() == []
  {
    var k := LongLongArrayMaps.Filled(initialCapacity, 0);
    var v := LongLongArrayMaps.Filled(initialCapacity, 0);
    var next := LongLongArrayMaps.Filled(initialCapacity, -1);
    var heads := LongLongArrayMaps.Filled(initialCapacity, -1);
    assert LongLongArrayMaps.InRange(hash, initialCapacity);
    NothingLinked(k[..], next[..], heads[..], hash);
    r := new MapState(initialCapacity, hash, k, v, next, heads, 0, LongLongArrayMaps.NoChains(initialCapacity));
  }

  class LongLongMap {
    var state: MapState
    var aligned: bool

    ghost predicate Valid()
      reads this, state, state.Arrays()
    {
      state.Valid()
    }

    ghost function Pairs(): seq<(int, int)>
      reads this, state
      requires state.elementCount <= |state.ks| == |state.vs|
    {
      state.Pairs()
    }

    /** What a put may touch: a shared state is not among it. */
    ghost function Own(): set<object>
      reads this
    {
      if aligned then {state} + state.Arrays() else {}
    }

    constructor (initialCapacity: nat, hash: (int, int) -> int)
      requires initialCapacity >= 1 && forall n: int :: n >= 1 ==> LongLongArrayMaps.InRange(hash, n)
      ensures Valid() && Pairs() == [] && aligned && fresh(state) && fresh(state.Arrays())
    {
      var newstate := NewState(initialCapacity, hash);
      state, aligned := newstate, true;
    }

    /** The map of a forked state. */
    constructor Fork(origin: LongLongMap)
      requires origin.Valid()
      ensures Valid() && state == origin.state && Pairs() == origin.Pairs() && !aligned
    {
      state, aligned := origin.state, false;
    }

    method Get(key: int) returns (value: int)
      requires Valid()
      ensures value == Read(Pairs(), key)
    {
      value := state.Get(key);
    }

    method Put(key: int, value: int)
      requires Valid()
      modifies this, Own()
      ensures Valid() && aligned && Pairs() == After(old(Pairs()), key, value)
      ensures (state == old(state) && old(aligned)) || (fresh(state) && fresh(state.Arrays()))
      ensures state.stateSize ==
        if !HasKey(old(Pairs()), key) && 4 * (old(state.elementCount) + 1) > 3 * old(state.stateSize)
        then 2 * old(state.stateSize) else old(state.stateSize)
    {
      if !aligned {
        var clone := state.Clone();
        state, aligned := clone, true;
      }
      var entry := state.Find(key);
      if entry < 0 {
        MakeRoom();
        state.Add(key, value);
      } else {
        state.Update(entry, key, value);
      }
    }

    method MakeRoom()
      requires Valid()
      modifies `state
      ensures Valid() && Pairs() == old(Pairs()) && state.elementCount < state.stateSize
      ensures state == old(state) || (fresh(state) && fresh(state.Arrays()))
      ensures state.elementCount == old(state.elementCount)
      ensures state.stateSize ==
        if 4 * (old(state.elementCount) + 1) > 3 * old(state.stateSize) then 2 * old(state.stateSize)
        else old(state.stateSize)
    {
      if 4 * (state.elementCount + 1) > 3 * state.stateSize {
        var grown := state.Grown();
        state := grown;
      }
    }
  }

  /** Forks a map and puts pairs into the fork.  There is no `modifies`: the origin and the maps that it was
      forked from hold what they held. */
  method PutIntoFork(origin: LongLongMap, puts: seq<(int, int)>) returns (fork: LongLongMap)
    requires origin.Valid()
    ensures origin.Valid() && origin.Pairs() == old(origin.Pairs()) && fresh(fork) && fork.Valid()
    ensures fork.Pairs() == AfterAll(origin.Pairs(), puts)
  {
    fork := new LongLongMap.Fork(origin);
    PutAll(fork, puts);
  }

  method PutAll(map_: LongLongMap, puts: seq<(int, int)>)
    requires map_.Valid()
    modifies map_, map_.Own()
    ensures map_.Valid() && map_.Pairs() == AfterAll(old(map_.Pairs()), puts)
    ensures (map_.state == old(map_.state) && map_.aligned == old(map_.aligned))
      || (fresh(map_.state) && fresh(map_.state.Arrays()))
    decreases |puts|
  {
    if puts != [] {
      var n := |puts| - 1;
      PutAll(map_, puts[..n]);
      map_.Put(puts[n].0, puts[n].1);
    }
  }
}
