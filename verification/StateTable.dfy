/** The hash table of a HeapStateChunk, in arrays that tables may share. */
module StateTables {
  import opened Hiding
  import opened Constants
  import opened Buckets
  import opened LongLongArrayMaps
  import opened StateElems

  datatype Cell = NoCell | Cell(kind: int, elem: Elem)

  /** The bucket of each slot that is in a chain. */
  function BucketsIn(ks: seq<int>, linked: seq<bool>, hash: (int, int) -> int, n: nat): (b: seq<int>)
    requires |ks| == |linked|
    ensures |b| == |ks| && forall m :: 0 <= m < |ks| ==> b[m] == if linked[m] then hash(ks[m], n) else -1
  {
    seq(|ks|, m requires 0 <= m < |ks| => if linked[m] then hash(ks[m], n) else -1)
  }

  ghost predicate Has(ks: seq<int>, linked: seq<bool>, m: int, key: int) {
    0 <= m < |ks| && m < |linked| && linked[m] && ks[m] == key
  }

  /** The slots before `count` have been given out; those in a chain have different keys, and one with
      content is in a chain. */
  ghost predicate Table(ks: seq<int>, es: seq<Elem>, ns: seq<int>, hs: seq<int>, hash: (int, int) -> int,
                        chains: seq<seq<int>>, linked: seq<bool>, count: nat) {
    && |ks| == |es| == |ns| == |hs| == |linked| && count <= |ks|
    && (|hs| >= 1 ==> InRange(hash, |hs|))
    && Chained(BucketsIn(ks, linked, hash, |hs|), ns, hs, chains) && PlainEnds(ns) && PlainEnds(hs)
    && OneEach(ks, linked)
    && (forall m :: 0 <= m < |es| ==>
          (es[m] != Null ==> linked[m]) && (m >= count ==> !linked[m]) && (!linked[m] ==> ns[m] == -1))
  }

  /** What is read under a key. */
  ghost function LookUp(ks: seq<int>, ts: seq<int>, es: seq<Elem>, linked: seq<bool>, key: int): Cell
    requires |ks| == |ts| == |es|
  {
    if m :| Has(ks, linked, m, key) && es[m] != Null then Cell(ts[m], es[m]) else NoCell
  }

  lemma LookIs(ks: seq<int>, ts: seq<int>, es: seq<Elem>, ns: seq<int>, hs: seq<int>, hash: (int, int) -> int,
               chains: seq<seq<int>>, linked: seq<bool>, count: nat, key: int, m: int)
    requires Table(ks, es, ns, hs, hash, chains, linked, count) && |ts| == |ks|
    ensures Has(ks, linked, m, key) ==> LookUp(ks, ts, es, linked, key) == if es[m] == Null then NoCell
      else Cell(ts[m], es[m])
    ensures (forall i :: !Has(ks, linked, i, key)) ==> LookUp(ks, ts, es, linked, key) == NoCell
  {
  }

  /** A new slot for an absent key. */
  lemma Inserted(ks: seq<int>, es: seq<Elem>, ns: seq<int>, hs: seq<int>, hash: (int, int) -> int,
                 chains: seq<seq<int>>, linked: seq<bool>, count: nat, key: int, elem: Elem)
    requires Table(ks, es, ns, hs, hash, chains, linked, count) && count < |ks| && forall i :: !Has(ks, linked, i, key)
    ensures var h := hash(key, |hs|);
      && 0 <= h < |hs| == |chains|
      && Table(ks[count := key], es[count := elem], ns[count := hs[h]], hs[h := count], hash,
        chains[h := [count] + chains[h]],
               linked[count := true], count + 1)
  {
    assert InRange(hash, |hs|);
    var h := hash(key, |hs|);
    assert 0 <= h < |hs|;
    var b := BucketsIn(ks, linked, hash, |hs|);
    Enchained(b, ns, hs, chains, count, h, hs[h]);
    var ks', linked' := ks[count := key], linked[count := true];
    assert BucketsIn(ks', linked', hash, |hs|) == b[count := h];
    forall i, k | i != count ensures Has(ks', linked', i, k) == Has(ks, linked, i, k) {
    }
  }

  lemma InsertedLook(ks: seq<int>, ts: seq<int>, es: seq<Elem>, ns: seq<int>, hs: seq<int>, hash: (int, int) -> int,
                     chains: seq<seq<int>>, linked: seq<bool>, count: nat, key: int, kind: int, elem: Elem, k: int)
    requires Table(ks, es, ns, hs, hash, chains, linked, count) && |ts| == |ks| && count < |ks|
    requires forall i :: !Has(ks, linked, i, key)
    ensures LookUp(ks[count := key], ts[count := kind], es[count := elem], linked[count := true], k) ==
      if k == key then (if elem == Null then NoCell else Cell(kind, elem)) else LookUp(ks, ts, es, linked, k)
  {
    var ks', ts', es', linked' := ks[count := key], ts[count := kind], es[count := elem], linked[count := true];
    forall i, x | i != count ensures Has(ks', linked', i, x) == Has(ks, linked, i, x) {
    }
    assert Has(ks', linked', count, key);
    assert forall i :: Has(ks, linked, i, k) ==> Has(ks', linked', i, k) && i != count;
  }

  /** New content in a slot that is in a chain. */
  lemma ReplacedLook(ks: seq<int>, ts: seq<int>, es: seq<Elem>, ns: seq<int>, hs: seq<int>, hash: (int, int) -> int,
                     chains: seq<seq<int>>, linked: seq<bool>, count: nat, m: nat, key: int, kind: int, elem: Elem,
                     k: int)
    requires Table(ks, es, ns, hs, hash, chains, linked, count) && |ts| == |ks| && Has(ks, linked, m, key)
    ensures Table(ks, es[m := elem], ns, hs, hash, chains, linked, count)
    ensures LookUp(ks, ts[m := kind], es[m := elem], linked, k) ==
      if k == key then (if elem == Null then NoCell else Cell(kind, elem)) else LookUp(ks, ts, es, linked, k)
  {
    assert forall i :: Has(ks, linked, i, k) && k != key ==> i != m;
  }

  // ----- growing: slots without content drop out of the chains -----

  function Contentful(es: seq<Elem>, i: nat): (l: seq<bool>)
    ensures |l| == |es| && forall m :: 0 <= m < |es| ==> l[m] == (m < i && es[m] != Null)
  {
    seq(|es|, m requires 0 <= m < |es| => m < i && es[m] != Null)
  }

  ghost predicate OneEach(ks: seq<int>, linked: seq<bool>) {
    forall i, j, key :: Has(ks, linked, i, key) && Has(ks, linked, j, key) ==> i == j
  }

  ghost predicate Rechained(ks: seq<int>, es: seq<Elem>, ns: seq<int>, hs: seq<int>, hash: (int, int) -> int,
                            chains: seq<seq<int>>, i: nat) {
    && |ks| == |es| == |ns| == |hs| && i <= |es| && InRange(hash, |hs|)
    && Chained(BucketsIn(ks, Contentful(es, i), hash, |hs|), ns, hs, chains) && PlainEnds(ns) && PlainEnds(hs)
    && (forall m :: 0 <= m < |ns| && (m >= i || es[m] == Null) ==> ns[m] == -1)
  }

  lemma RechainedNone(ks: seq<int>, es: seq<Elem>, ns: seq<int>, hs: seq<int>, hash: (int, int) -> int)
    requires |ks| == |es| == |ns| == |hs| && InRange(hash, |hs|)
    requires forall i :: 0 <= i < |ns| ==> ns[i] == -1 && hs[i] == -1
    ensures Rechaining(ks, es, ns, hs, hash, NoChains(|hs|), 0)
  {
    EmptyChained(BucketsIn(ks, Contentful(es, 0), hash, |hs|), ns, hs);
  }

  lemma RechainedOne(ks: seq<int>, es: seq<Elem>, ns: seq<int>, hs: seq<int>, hash: (int, int) -> int,
                     chains: seq<seq<int>>, i: nat)
    requires Rechained(ks, es, ns, hs, hash, chains, i) && i < |es| && es[i] != Null
    ensures var h := hash(ks[i], |hs|);
      && 0 <= h < |hs| == |chains|
      && Rechained(ks, es, ns[i := hs[h]], hs[h := i], hash, chains[h := [i] + chains[h]], i + 1)
  {
    var key := ks[i];
    var h := hash(key, |hs|);
    assert 0 <= h < |hs|;
    var b := BucketsIn(ks, Contentful(es, i), hash, |hs|);
    Enchained(b, ns, hs, chains, i, h, hs[h]);
    assert BucketsIn(ks, Contentful(es, i + 1), hash, |hs|) == b[i := h];
  }

  lemma RechainedSkip(ks: seq<int>, es: seq<Elem>, ns: seq<int>, hs: seq<int>, hash: (int, int) -> int,
                      chains: seq<seq<int>>, i: nat)
    requires Rechained(ks, es, ns, hs, hash, chains, i) && i < |es| && es[i] == Null
    ensures Rechained(ks, es, ns, hs, hash, chains, i + 1)
  {
    assert Contentful(es, i + 1) == Contentful(es, i);
  }

  lemma RechainedAll(ks: seq<int>, es: seq<Elem>, ns: seq<int>, hs: seq<int>, hash: (int, int) -> int,
                     chains: seq<seq<int>>, count: nat)
    requires Rechained(ks, es, ns, hs, hash, chains, |es|) && OneEach(ks, Contentful(es, |es|)) && count <= |es|
    requires forall m :: count <= m < |es| ==> es[m] == Null
    ensures Table(ks, es, ns, hs, hash, chains, Contentful(es, |es|), count)
  {
  }

  /** The same cells in longer arrays. */
  lemma PaddedLook(ks: seq<int>, ts: seq<int>, es: seq<Elem>, linked: seq<bool>, ks': seq<int>, ts': seq<int>,
                   es': seq<Elem>, k: int)
    requires |ks| == |ts| == |es| == |linked| <= |ks'| == |ts'| == |es'| && OneEach(ks, linked)
    requires ks'[..|ks|] == ks && ts'[..|ts|] == ts && es'[..|es|] == es
    requires forall m :: |es| <= m < |es'| ==> es'[m] == Null
    requires forall m :: 0 <= m < |es| && es[m] != Null ==> linked[m]
    ensures OneEach(ks', Contentful(es', |es'|))
    ensures LookUp(ks', ts', es', Contentful(es', |es'|), k) == LookUp(ks, ts, es, linked, k)
  {
    var linked' := Contentful(es', |es'|);
    forall m, x ensures Has(ks', linked', m, x) <==> Has(ks, linked, m, x) && es[m] != Null {
      assert 0 <= m < |ks| ==> ks'[m] == ks'[..|ks|][m] && ts'[m] == ts'[..|ts|][m] && es'[m] == es'[..|es|][m];
    }
    if m :| Has(ks, linked, m, k) && es[m] != Null {
      assert Has(ks', linked', m, k);
      assert ts'[m] == ts'[..|ts|][m] && es'[m] == es'[..|es|][m];
    }
  }

  // ----- the arrays -----

  /** `Table`, for callers to pass on: its definition comes into play only where `Unfold` is mentioned. */
  ghost predicate Tabled(ks: seq<int>, es: seq<Elem>, ns: seq<int>, hs: seq<int>, hash: (int, int) -> int,
                         chains: seq<seq<int>>, linked: seq<bool>, count: nat) {
    forall b {:trigger Unfold(Topic.Tables, b)} :: Unfold(Topic.Tables, b) ==>
      Table(ks, es, ns, hs, hash, chains, linked, count)
  }

  lemma KeyChain(ks: seq<int>, es: seq<Elem>, ns: seq<int>, hs: seq<int>, hash: (int, int) -> int,
                 chains: seq<seq<int>>, linked: seq<bool>, count: nat, key: int)
    requires Tabled(ks, es, ns, hs, hash, chains, linked, count) && |hs| >= 1
    ensures var h := hash(key, |hs|);
      && |ks| == |linked| == |ns| && 0 <= h < |hs| == |chains|
      && ChainOk(chains[h], h, BucketsIn(ks, linked, hash, |hs|), ns, hs[h])
      && PlainEnds(ns) && PlainEnds(hs) && forall m :: Has(ks, linked, m, key) ==> m in chains[h]
  {
    assert Unfold(Topic.Tables, true);
    assert InRange(hash, |hs|);
    var h := hash(key, |hs|);
    assert 0 <= h < |hs|;
    assert ChainOk(chains[h], h, BucketsIn(ks, linked, hash, |hs|), ns, hs[h]);
    forall m | Has(ks, linked, m, key) ensures m in chains[h] {
      assert BucketsIn(ks, linked, hash, |hs|)[m] == h;
    }
  }

  class StateTable {
    const elementDataSize: nat
    const hash: (int, int) -> int
    const elementK: array<int>
    const elementV: array<Elem>
    const elementNext: array<int>
    const elementHash: array<int>
    const elementType: array<int>
    const hashReadOnly: bool
    var elementCount: nat
    ghost var ks: seq<int>              // the contents of the arrays
    ghost var es: seq<Elem>
    ghost var ns: seq<int>
    ghost var hs: seq<int>
    ghost var ts: seq<int>
    ghost var chains: seq<seq<int>>     // the slots in each bucket
    ghost var linked: seq<bool>         // the slots that are in a bucket

    ghost predicate Synced()
      reads this, elementK, elementV, elementNext, elementHash, elementType
    {
      && elementK !in {elementNext, elementHash, elementType} && elementNext !in {elementHash, elementType}
      && elementHash != elementType
      && elementK.Length == elementV.Length == elementNext.Length == elementHash.Length == elementType.Length ==
        elementDataSize
      && elementK[..] == ks && elementV[..] == es && elementNext[..] == ns && elementHash[..] == hs
      && elementType[..] == ts
    }

    ghost predicate Valid()
      reads this, elementK, elementV, elementNext, elementHash, elementType
    {
      && Synced() && (forall n: int :: n >= 1 ==> InRange(hash, n))
      && Tabled(ks, es, ns, hs, hash, chains, linked, elementCount)
    }

    /** What is read under a key. */
    ghost function Look(key: int): Cell
      reads this
      requires |ks| == |ts| == |es|
    {
      LookUp(ks, ts, es, linked, key)
    }

    ghost function Looks(): (f: int -> Cell)
      reads this
      requires |ks| == |ts| == |es|
      ensures forall k :: f(k) == Look(k)
    {
      var keys, kinds, cells, chained := ks, ts, es, linked;
      k => LookUp(keys, kinds, cells, chained, k)
    }

    /** The key has a slot of this type, with or without content. */
    ghost predicate Typed(key: int, kind: int)
      reads this
    {
      exists m :: Has(ks, linked, m, key) && m < |ts| && ts[m] == kind
    }

    /** The arrays that a change of the table writes to. */
    ghost function Links(): set<object> {
      {elementK, elementNext, elementHash, elementType}
    }

    constructor (size: nat, hash: (int, int) -> int, elementK: array<int>, elementV: array<Elem>,
                 elementNext: array<int>, elementHash: array<int>, elementType: array<int>, count: nat,
                 hashReadOnly: bool, ghost chains: seq<seq<int>>, ghost linked: seq<bool>)
      ensures elementDataSize == size && this.hash == hash && this.elementK == elementK && this.elementV == elementV
      ensures this.elementNext == elementNext && this.elementHash == elementHash && this.elementType == elementType
      ensures elementCount == count && this.hashReadOnly == hashReadOnly && this.chains == chains
      ensures this.linked == linked
      ensures ks == elementK[..] && es == elementV[..] && ns == elementNext[..] && hs == elementHash[..]
      ensures ts == elementType[..]
    {
      elementDataSize, this.hash, this.hashReadOnly, elementCount := size, hash, hashReadOnly, count;
      this.elementK, this.elementV, this.elementNext, this.elementHash, this.elementType := elementK, elementV,
        elementNext, elementHash, elementType;
      this.chains, this.linked := chains, linked;
      ks, es, ns, hs, ts := elementK[..], elementV[..], elementNext[..], elementHash[..], elementType[..];
    }

    /** The slot of a key, or -1. */
    method Find(key: int) returns (entry: int)
      requires Valid()
      ensures entry == -1 ==> forall m :: !Has(ks, linked, m, key)
      ensures entry != -1 ==> Has(ks, linked, entry, key)
    {
      if elementDataSize == 0 {
        return -1;
      }
      KeyChain(ks, es, ns, hs, hash, chains, linked, elementCount, key);
      var hashIndex := hash(key, elementDataSize);
      ghost var c := chains[hashIndex];
      ghost var k := 0;
      entry := elementHash[hashIndex];
      while entry != -1
        invariant 0 <= k <= |c| && entry == if k < |c| then c[k] else -1
        invariant forall j :: 0 <= j < k ==> !Has(ks, linked, c[j], key)
        decreases |c| - k
      {
        if key == elementK[entry] {
          return;
        }
        entry := elementNext[entry];
        k := k + 1;
      }
    }

    /** What is read under a key. */
    method Get(key: int) returns (cell: Cell)
      requires Valid()
      ensures cell == Look(key)
    {
      var m := Find(key);
      assert Unfold(Topic.Tables, true);
      LookIs(ks, ts, es, ns, hs, hash, chains, linked, elementCount, key, m);
      if m == -1 || elementV[m] == Null {
        cell := NoCell;
      } else {
        cell := Cell(elementType[m], elementV[m]);
      }
    }

    // ----- changes -----

    method Occupy(newIndex: int, hashIndex: int, key: int, kind: int, elem: Elem)
      requires Synced() && 0 <= newIndex < elementDataSize && 0 <= hashIndex < elementDataSize && ns[newIndex] == -1
      modifies `ks, `es, `ns, `hs, `ts, elementK, elementV, elementNext, elementHash, elementType
      ensures Synced() && ks == old(ks)[newIndex := key] && es == old(es)[newIndex := elem]
      ensures ts == old(ts)[newIndex := kind]
      ensures ns == old(ns)[newIndex := old(hs)[hashIndex]] && hs == old(hs)[hashIndex := newIndex]
    {
      elementK[newIndex] := key;
      elementV[newIndex] := elem;
      elementType[newIndex] := kind;
      var currentHashedIndex := elementHash[hashIndex];
      if currentHashedIndex != -1 {
        elementNext[newIndex] := currentHashedIndex;
      }
      elementHash[hashIndex] := newIndex;
      ks, es, ts := ks[newIndex := key], es[newIndex := elem], ts[newIndex := kind];
      ns, hs := ns[newIndex := currentHashedIndex], hs[hashIndex := newIndex];
    }

    /** A new slot for an absent key. */
    method Insert(key: int, kind: int, elem: Elem)
      requires Valid() && elementCount < elementDataSize && forall m :: !Has(ks, linked, m, key)
      modifies this, elementK, elementV, elementNext, elementHash, elementType
      ensures Valid() && forall k :: Look(k) == if k == key then CellOf(kind, elem) else old(Look(k))
      ensures elementCount == old(elementCount) + 1 && forall m, k :: Has(ks, linked, m, k) ==>
        if m == old(elementCount) then k == key else Has(old(ks), old(linked), m, k)
    {
      InsertedTabled(ks, ts, es, ns, hs, hash, chains, linked, elementCount, key, kind, elem);
      ghost var ks0, ts0, es0, linked0 := ks, ts, es, linked;
      var hashIndex := hash(key, elementDataSize);
      var newIndex := elementCount;
      elementCount := elementCount + 1;
      Occupy(newIndex, hashIndex, key, kind, elem);
      chains, linked := chains[hashIndex := [newIndex] + chains[hashIndex]], linked[newIndex := true];
      forall k ensures Look(k) == if k == key then CellOf(kind, elem) else LookUp(ks0, ts0, es0, linked0, k) {
        ghost var before := LookUp(ks0, ts0, es0, linked0, k);
        ghost var after := LookUp(ks0[newIndex := key], ts0[newIndex := kind], es0[newIndex := elem],
          linked0[newIndex := true], k);
        assert after == if k == key then CellOf(kind, elem) else before;
        assert Look(k) == after;
      }
    }

    /** More slots given out, as load leaves them. */
    method Recount(count: nat)
      requires Valid() && elementCount <= count <= elementDataSize
      modifies `elementCount
      ensures Valid() && elementCount == count
    {
      assert Unfold(Topic.Tables, true);
      elementCount := count;
    }

    /** New content in a slot. */
    method Replace(entry: int, ghost key: int, elem: Elem)
      requires Valid() && Has(ks, linked, entry, key)
      modifies `es, elementV
      ensures Valid() && es == old(es)[entry := elem]
      ensures forall k :: Look(k) == if k == key then CellOf(ts[entry], elem) else old(Look(k))
    {
      assert Unfold(Topic.Tables, true);
      ReplacedTabled(ks, ts, es, ns, hs, hash, chains, linked, elementCount, entry, key, ts[entry], elem);
      elementV[entry] := elem;
      es := es[entry := elem];
      assert ts[entry := ts[entry]] == ts;
    }

    /** A new type for a slot. */
    method Retype(entry: int, ghost key: int, kind: int)
      requires Valid() && Has(ks, linked, entry, key)
      modifies `ts, elementType
      ensures Valid() && forall k :: Look(k) == if k == key then CellOf(kind, es[entry]) else old(Look(k))
    {
      assert Unfold(Topic.Tables, true);
      ReplacedTabled(ks, ts, es, ns, hs, hash, chains, linked, elementCount, entry, key, kind, es[entry]);
      elementType[entry] := kind;
      ts := ts[entry := kind];
      assert es[entry := es[entry]] == es;
    }

    // ----- copies -----

    /** Links, keys and types of its own, with the content array of the old one. */
    method DeepClone() returns (r: StateTable)
      requires Valid()
      ensures fresh(r) && fresh(r.Links()) && r.Valid() && !r.hashReadOnly && r.elementV == elementV && r.hash == hash
      ensures r.ks == ks && r.es == es && r.linked == linked && r.ts == ts && r.elementCount == elementCount
      ensures r.elementDataSize == elementDataSize
    {
      var clonedK := Copied(elementK, elementDataSize, 0);
      var clonedNext := Copied(elementNext, elementDataSize, 0);
      var clonedHash := Copied(elementHash, elementDataSize, 0);
      var clonedType := Copied(elementType, elementDataSize, 0);
      assert clonedK[..] == ks && clonedNext[..] == ns && clonedHash[..] == hs && clonedType[..] == ts;
      r := new StateTable(elementDataSize, hash, clonedK, elementV, clonedNext, clonedHash, clonedType, elementCount,
        false, chains, linked);
    }

    /** A content array of its own, and the old one's links, keys and types, to be read only. */
    method SoftClone() returns (r: StateTable)
      requires Valid()
      ensures fresh(r) && fresh(r.elementV) && r.Valid() && r.hashReadOnly && r.Links() == Links() && r.hash == hash
      ensures r.ks == ks && r.es == es && r.linked == linked && r.ts == ts && r.elementCount == elementCount
      ensures r.elementK == elementK && r.elementNext == elementNext && r.elementHash == elementHash
      ensures r.elementType == elementType
    {
      var clonedV := CopiedElems(elementV, elementDataSize);
      assert clonedV[..] == es;
      r := new StateTable(elementDataSize, hash, elementK, clonedV, elementNext, elementHash, elementType,
        elementCount, true, chains, linked);
    }

    /** Twice the slots, and chains of the slots with content only. */
    method Grown() returns (r: StateTable)
      requires Valid()
      ensures fresh(r) && fresh(r.Links()) && fresh(r.elementV) && r.Valid() && !r.hashReadOnly && r.hash == hash
      ensures r.elementCount == elementCount < r.elementDataSize && forall k :: r.Look(k) == Look(k)
      ensures r.elementDataSize == if elementDataSize == 0 then 1 else 2 * elementDataSize
      ensures forall m, key :: Has(r.ks, r.linked, m, key) ==> Has(ks, linked, m, key)
    {
      assert Unfold(Topic.Tables, true);
      var newLength := if elementDataSize == 0 then 1 else elementDataSize * 2;
      var newK := Copied(elementK, newLength, 0);
      var newV := CopiedElems(elementV, newLength);
      var newType := Copied(elementType, newLength, 0);
      ghost var ks', es', ts' := newK[..], newV[..], newType[..];
      assert ks'[..elementDataSize] == ks && es'[..elementDataSize] == es && ts'[..elementDataSize] == ts;
      GrownLook(ks, ts, es, linked, ks', ts', es');
      assert InRange(hash, newLength);
      var newNext, newHash;
      ghost var chains';
      newNext, newHash, chains' := Rechain(newK, newV, hash, elementCount);
      r := new StateTable(newLength, hash, newK, newV, newNext, newHash, newType, elementCount, false, chains',
        Contentful(es', newLength));
      forall k ensures r.Look(k) == Look(k) {
      }
      forall m, key | Has(r.ks, r.linked, m, key) ensures Has(ks, linked, m, key) {
        assert m < elementDataSize && ks'[..elementDataSize][m] == ks'[m] && es'[..elementDataSize][m] == es'[m];
      }
    }
  }

  lemma GrownLook(ks: seq<int>, ts: seq<int>, es: seq<Elem>, linked: seq<bool>, ks': seq<int>, ts': seq<int>,
                  es': seq<Elem>)
    requires |ks| == |ts| == |es| == |linked| <= |ks'| == |ts'| == |es'| && OneEach(ks, linked)
    requires ks'[..|ks|] == ks && ts'[..|ts|] == ts && es'[..|es|] == es
    requires forall m :: |es| <= m < |es'| ==> es'[m] == Null
    requires forall m :: 0 <= m < |es| && es[m] != Null ==> linked[m]
    ensures OneEach(ks', Contentful(es', |es'|))
    ensures forall k :: LookUp(ks', ts', es', Contentful(es', |es'|), k) == LookUp(ks, ts, es, linked, k)
  {
    PaddedLook(ks, ts, es, linked, ks', ts', es', 0);
    forall k ensures LookUp(ks', ts', es', Contentful(es', |es'|), k) == LookUp(ks, ts, es, linked, k) {
      PaddedLook(ks, ts, es, linked, ks', ts', es', k);
    }
  }

  /** `Rechained`, for callers to pass on. */
  ghost predicate Rechaining(ks: seq<int>, es: seq<Elem>, ns: seq<int>, hs: seq<int>, hash: (int, int) -> int,
                             chains: seq<seq<int>>, i: nat) {
    |ks| == |es| == |ns| == |hs| && forall b {:trigger Unfold(Topic.Tables, b)} :: Unfold(Topic.Tables, b) ==>
      Rechained(ks, es, ns, hs, hash, chains, i)
  }

  method Rechain(newK: array<int>, newV: array<Elem>, hash: (int, int) -> int, ghost count: nat)
    returns (newNext: array<int>, newHash: array<int>, ghost chains: seq<seq<int>>)
    requires newK.Length == newV.Length && InRange(hash, newV.Length)
    requires OneEach(newK[..], Contentful(newV[..], newV.Length))
    requires count <= newV.Length && forall m :: count <= m < newV.Length ==> newV[m] == Null
    ensures fresh(newNext) && fresh(newHash) && newNext != newHash && newNext.Length == newHash.Length == newV.Length
    ensures Tabled(newK[..], newV[..], newNext[..], newHash[..], hash, chains, Contentful(newV[..], newV.Length), count)
  {
    var newLength := newV.Length;
    newNext := LongLongArrayMaps.Filled(newLength, -1);
    newHash := LongLongArrayMaps.Filled(newLength, -1);
    chains := NoChains(newLength);
    RechainedNone(newK[..], newV[..], newNext[..], newHash[..], hash);
    for i := 0 to newLength
      invariant Rechaining(newK[..], newV[..], newNext[..], newHash[..], hash, chains, i)
      invariant fresh(newNext) && fresh(newHash) && newNext != newHash
    {
      chains := RechainSlot(newK, newV, newNext, newHash, hash, chains, i);
    }
    RechainingAll(newK[..], newV[..], newNext[..], newHash[..], hash, chains, count);
  }

  method RechainSlot(newK: array<int>, newV: array<Elem>, newNext: array<int>, newHash: array<int>,
                     hash: (int, int) -> int, ghost chains: seq<seq<int>>, i: nat)
    returns (ghost chains': seq<seq<int>>)
    requires newNext != newHash && newNext != newK && newHash != newK && i < newV.Length
    requires Rechaining(newK[..], newV[..], newNext[..], newHash[..], hash, chains, i)
    modifies newNext, newHash
    ensures Rechaining(newK[..], newV[..], newNext[..], newHash[..], hash, chains', i + 1)
  {
    RechainingStep(newK[..], newV[..], newNext[..], newHash[..], hash, chains, i);
    chains' := chains;
    if newV[i] != Null {
      var keyHash := hash(newK[i], newHash.Length);
      var currentHashedIndex := newHash[keyHash];
      if currentHashedIndex != -1 {
        Write(newNext, i, currentHashedIndex);
      }
      Write(newHash, keyHash, i);
      chains' := chains[keyHash := [i] + chains[keyHash]];
    }
  }

  lemma RechainingStep(ks: seq<int>, es: seq<Elem>, ns: seq<int>, hs: seq<int>, hash: (int, int) -> int,
                       chains: seq<seq<int>>, i: nat)
    requires Rechaining(ks, es, ns, hs, hash, chains, i) && i < |es|
    ensures ns[i] == -1 && ns[i := -1] == ns
    ensures es[i] == Null ==> Rechaining(ks, es, ns, hs, hash, chains, i + 1)
    ensures es[i] != Null ==>
      var h := hash(ks[i], |hs|);
      && 0 <= h < |hs| == |chains| && Rechaining(ks, es, ns[i := hs[h]], hs[h := i], hash,
        chains[h := [i] + chains[h]], i + 1)
  {
    assert Unfold(Topic.Tables, true);
    if es[i] != Null {
      RechainedOne(ks, es, ns, hs, hash, chains, i);
    } else {
      RechainedSkip(ks, es, ns, hs, hash, chains, i);
    }
  }

  lemma RechainingAll(ks: seq<int>, es: seq<Elem>, ns: seq<int>, hs: seq<int>, hash: (int, int) -> int,
                      chains: seq<seq<int>>, count: nat)
    requires Rechaining(ks, es, ns, hs, hash, chains, |es|) && OneEach(ks, Contentful(es, |es|)) && count <= |es|
    requires forall m :: count <= m < |es| ==> es[m] == Null
    ensures Tabled(ks, es, ns, hs, hash, chains, Contentful(es, |es|), count)
  {
    assert Unfold(Topic.Tables, true);
    RechainedAll(ks, es, ns, hs, hash, chains, count);
  }

  function CellOf(kind: int, elem: Elem): Cell {
    if elem == Null then NoCell else Cell(kind, elem)
  }

  method CopiedElems(a: array<Elem>, newLength: nat) returns (b: array<Elem>)
    requires a.Length <= newLength
    ensures fresh(b) && b.Length == newLength && b[..a.Length] == a[..]
    ensures forall i :: a.Length <= i < newLength ==> b[i] == Null
    ensures newLength == a.Length ==> b[..] == a[..]
  {
    b := new Elem[newLength](_ => Null);
    for i := 0 to a.Length
      invariant b[..i] == a[..i] && forall j :: i <= j < newLength ==> b[j] == Null
    {
      b[i] := a[i];
    }
  }

  lemma InsertedTabled(ks: seq<int>, ts: seq<int>, es: seq<Elem>, ns: seq<int>, hs: seq<int>, hash: (int, int) -> int,
                       chains: seq<seq<int>>, linked: seq<bool>, count: nat, key: int, kind: int, elem: Elem)
    requires Tabled(ks, es, ns, hs, hash, chains, linked, count) && |ks| == |es| == |ns| == |hs| == |ts| && count < |ks|
    requires forall i :: !Has(ks, linked, i, key)
    ensures var h := hash(key, |hs|);
      && 0 <= h < |hs| == |chains| && |linked| == |ks| && ns[count] == -1
      && Tabled(ks[count := key], es[count := elem], ns[count := hs[h]], hs[h := count], hash,
        chains[h := [count] + chains[h]],
                linked[count := true], count + 1)
      && forall k :: LookUp(ks[count := key], ts[count := kind], es[count := elem], linked[count := true], k) ==
           if k == key then CellOf(kind, elem) else LookUp(ks, ts, es, linked, k)
  {
    assert Unfold(Topic.Tables, true);
    Inserted(ks, es, ns, hs, hash, chains, linked, count, key, elem);
    forall k ensures LookUp(ks[count := key], ts[count := kind], es[count := elem], linked[count := true], k) ==
           if k == key then CellOf(kind, elem) else LookUp(ks, ts, es, linked, k)
    {
      InsertedLook(ks, ts, es, ns, hs, hash, chains, linked, count, key, kind, elem, k);
    }
  }

  lemma ReplacedTabled(ks: seq<int>, ts: seq<int>, es: seq<Elem>, ns: seq<int>, hs: seq<int>, hash: (int, int) -> int,
                       chains: seq<seq<int>>, linked: seq<bool>, count: nat, m: nat, key: int, kind: int, elem: Elem)
    requires Tabled(ks, es, ns, hs, hash, chains, linked, count) && |ks| == |es| == |ts| && Has(ks, linked, m, key)
    ensures Tabled(ks, es[m := elem], ns, hs, hash, chains, linked, count)
    ensures forall k :: LookUp(ks, ts[m := kind], es[m := elem], linked, k) == if k == key then CellOf(kind, elem)
      else LookUp(ks, ts, es, linked, k)
  {
    assert Unfold(Topic.Tables, true);
    forall k ensures LookUp(ks, ts[m := kind], es[m := elem], linked, k) == if k == key then CellOf(kind, elem)
      else LookUp(ks, ts, es, linked, k) {
      ReplacedLook(ks, ts, es, ns, hs, hash, chains, linked, count, m, key, kind, elem, k);
    }
  }

  // ----- new tables -----

  method NewTable(n: nat, hash: (int, int) -> int) returns (r: StateTable)
    requires forall n: int :: n >= 1 ==> InRange(hash, n)
    ensures fresh(r) && fresh(r.elementV) && fresh(r.Links()) && r.Valid() && !r.hashReadOnly
    ensures forall k :: r.Look(k) == NoCell
    ensures r.elementCount == 0 && r.elementDataSize == n && forall m, k :: !Has(r.ks, r.linked, m, k)
  {
    var k := LongLongArrayMaps.Filled(n, 0);
    var v := new Elem[n](_ => Null);
    var next := LongLongArrayMaps.Filled(n, -1);
    var heads := LongLongArrayMaps.Filled(n, -1);
    var kinds := LongLongArrayMaps.Filled(n, 0);
    ghost var chains, linked := NoChains(n), Contentful(v[..], 0);
    NothingTabled(k[..], v[..], next[..], heads[..], kinds[..], hash);
    r := new StateTable(n, hash, k, v, next, heads, kinds, 0, false, chains, linked);
  }

  lemma SlotsGiven(t: StateTable)
    requires t.Valid()
    ensures t.elementCount <= |t.es| == |t.ks| == |t.linked| == t.elementDataSize
    ensures forall m :: 0 <= m < |t.es| && t.es[m] != Null ==> m < t.elementCount && Has(t.ks, t.linked, m, t.ks[m])
  {
    assert Unfold(Topic.Tables, true);
  }

  lemma NothingTabled(ks: seq<int>, es: seq<Elem>, ns: seq<int>, hs: seq<int>, ts: seq<int>, hash: (int, int) -> int)
    requires |ks| == |es| == |ns| == |hs| == |ts| && (|hs| >= 1 ==> InRange(hash, |hs|))
    requires forall m :: 0 <= m < |es| ==> es[m] == Null && ns[m] == -1 && hs[m] == -1
    ensures Tabled(ks, es, ns, hs, hash, NoChains(|hs|), Contentful(es, 0), 0)
    ensures forall k :: LookUp(ks, ts, es, Contentful(es, 0), k) == NoCell
  {
    EmptyChained(BucketsIn(ks, Contentful(es, 0), hash, |hs|), ns, hs);
  }

  lemma SameSlot(t: StateTable, entry: int, key: int, kind: int)
    requires t.Valid() && Has(t.ks, t.linked, entry, key)
    ensures t.Typed(key, kind) <==> t.ts[entry] == kind
  {
    assert Unfold(Topic.Tables, true);
  }
}
