/** Hash chains in integer arrays: `hs[h]` is the first slot of bucket h, `ns[m]` the slot after m, and
    any negative number ends a chain.  `b[m]` is the bucket slot m belongs to, negative for none. */
module Buckets {
  import opened FixedStacks

  ghost predicate ChainOk(c: seq<int>, h: int, b: seq<int>, ns: seq<int>, head: int) {
    && |ns| == |b|
    && (forall k :: 0 <= k < |c| ==> 0 <= c[k] < |b| && b[c[k]] == h)
    && (forall j, k :: 0 <= j < k < |c| ==> c[j] != c[k])
    && (if c == [] then head < 0 else head == c[0])
    && (forall k {:trigger ns[c[k]]} :: 0 <= k < |c| - 1 ==> ns[c[k]] == c[k + 1])
    && (c != [] ==> ns[c[|c| - 1]] < 0)
  }

  ghost predicate Chained(b: seq<int>, ns: seq<int>, hs: seq<int>, chains: seq<seq<int>>) {
    && |ns| == |b| && |hs| == |chains|
    && (forall h :: 0 <= h < |hs| ==> ChainOk(chains[h], h, b, ns, hs[h]))
    && (forall m :: 0 <= m < |b| && b[m] >= 0 ==> b[m] < |chains| && m in chains[b[m]])
  }

  /** No chain ends with anything but -1. */
  ghost predicate PlainEnds(s: seq<int>) {
    forall i :: 0 <= i < |s| ==> s[i] >= -1
  }

  lemma EmptyChained(b: seq<int>, ns: seq<int>, hs: seq<int>)
    requires |ns| == |b| && (forall m :: 0 <= m < |b| ==> b[m] < 0) && (forall h :: 0 <= h < |hs| ==> hs[h] < 0)
    ensures Chained(b, ns, hs, seq(|hs|, h => []))
  {
  }

  /** Changes in cells that a chain does not use leave it alone. */
  lemma ChainFrame(c: seq<int>, h: int, b: seq<int>, ns: seq<int>, head: int, b': seq<int>, ns': seq<int>)
    requires ChainOk(c, h, b, ns, head) && |b'| == |b| && |ns'| == |ns|
    requires forall m <- c :: 0 <= m < |b| ==> b'[m] == b[m] && ns'[m] == ns[m]
    ensures ChainOk(c, h, b', ns', head)
  {
    assert forall k :: 0 <= k < |c| ==> c[k] in c;
  }

  /** A cell that no chain uses. */
  lemma UnusedCell(b: seq<int>, ns: seq<int>, hs: seq<int>, chains: seq<seq<int>>, m: nat, v: int)
    requires Chained(b, ns, hs, chains) && m < |b| && b[m] < 0
    ensures Chained(b, ns[m := v], hs, chains)
  {
    forall g | 0 <= g < |hs| ensures ChainOk(chains[g], g, b, ns[m := v], hs[g]) {
      var c := chains[g];
      assert ChainOk(c, g, b, ns, hs[g]);
      assert forall k :: 0 <= k < |c| ==> c[k] != m;
      ChainFrame(c, g, b, ns, hs[g], b, ns[m := v]);
    }
  }

  /** A free slot put in front of a bucket. */
  lemma Enchained(b: seq<int>, ns: seq<int>, hs: seq<int>, chains: seq<seq<int>>, m: nat, h: nat, end: int)
    requires Chained(b, ns, hs, chains) && m < |b| && b[m] < 0 && h < |hs|
    requires end == hs[h] || (hs[h] < 0 && end < 0)
    ensures Chained(b[m := h], ns[m := end], hs[h := m], chains[h := [m] + chains[h]])
  {
    var b', ns', hs', chains' := b[m := h], ns[m := end], hs[h := m], chains[h := [m] + chains[h]];
    forall g | 0 <= g < |hs'| ensures ChainOk(chains'[g], g, b', ns', hs'[g]) {
      var c := chains[g];
      assert ChainOk(c, g, b, ns, hs[g]);
      assert forall k :: 0 <= k < |c| ==> c[k] != m;
      ChainFrame(c, g, b, ns, hs[g], b', ns');
      if g == h {
        Prepended(c, h, b', ns', hs[h], m);
      }
    }
    forall i | 0 <= i < |b'| && b'[i] >= 0 ensures b'[i] < |chains'| && i in chains'[b'[i]] {
      if i == m {
        assert chains'[h][0] == m;
      }
    }
  }

  lemma Prepended(c: seq<int>, h: int, b: seq<int>, ns: seq<int>, head: int, m: nat)
    requires ChainOk(c, h, b, ns, head) && m < |b| && b[m] == h && m !in c
    requires if c == [] then ns[m] < 0 else ns[m] == head
    ensures ChainOk([m] + c, h, b, ns, m)
  {
    var d := [m] + c;
    assert forall k :: 0 < k < |d| ==> d[k] == c[k - 1] && d[k] in c;
    forall k {:trigger ns[d[k]]} | 0 <= k < |d| - 1 ensures ns[d[k]] == d[k + 1] {
      if k > 0 {
        assert ns[c[k - 1]] == c[k];
      }
    }
    if c != [] {
      assert d[|d| - 1] == c[|c| - 1];
    }
  }

  lemma KeptFacts(c: seq<int>, k: nat)
    requires k < |c| && forall i, j :: 0 <= i < j < |c| ==> c[i] != c[j]
    ensures var d := RemoveAt(c, k);
      && (forall i :: 0 <= i < |d| ==> d[i] == c[if i < k then i else i + 1])
      && (forall x :: x in d <==> x in c && x != c[k])
  {
    var d := RemoveAt(c, k);
    forall x | x in c && x != c[k] ensures x in d {
      var i :| 0 <= i < |c| && c[i] == x;
      assert d[if i < k then i else i - 1] == x;
    }
  }

  /** The links after slot `c[k]` of a chain has been bypassed by its predecessor, or by the bucket head. */
  function BypassNext(ns: seq<int>, c: seq<int>, k: nat, end: int): seq<int>
    requires k < |c| && 0 <= c[k] < |ns| && (k > 0 ==> 0 <= c[k - 1] < |ns|)
  {
    (if k > 0 then ns[c[k - 1] := ns[c[k]]] else ns)[c[k] := end]
  }

  lemma ChainRemoveAt(c: seq<int>, h: int, b: seq<int>, ns: seq<int>, head: int, k: nat, end: int)
    requires ChainOk(c, h, b, ns, head) && k < |c|
    ensures 0 <= c[k] < |b| && (k > 0 ==> 0 <= c[k - 1] < |b|)
    ensures ChainOk(RemoveAt(c, k), h, b[c[k] := -1], BypassNext(ns, c, k, end), if k > 0 then head else ns[c[k]])
  {
    var d, ns', b' := RemoveAt(c, k), BypassNext(ns, c, k, end), b[c[k] := -1];
    KeptFacts(c, k);
    forall i {:trigger ns'[d[i]]} | 0 <= i < |d| - 1 ensures ns'[d[i]] == d[i + 1] {
      var m := if i < k then i else i + 1;
      assert ns[c[m]] == c[m + 1];
      if k > 0 && m == k - 1 {
        assert ns[c[k]] == c[k + 1];
      }
    }
    if d != [] {
      var m := if |d| - 1 < k then |d| - 1 else |d|;
      assert d[|d| - 1] == c[m];
    }
    if k == 0 && |c| > 1 {
      assert ns[c[0]] == c[1];
    }
  }

  /** Taking a slot out of bucket h does not touch the other buckets. */
  lemma OtherChain(b: seq<int>, ns: seq<int>, hs: seq<int>, chains: seq<seq<int>>, h: nat, k: nat, end: int, g: nat)
    requires Chained(b, ns, hs, chains) && h < |hs| && k < |chains[h]| && g < |hs| && g != h
    requires var c := chains[h]; 0 <= c[k] < |b| && (k > 0 ==> 0 <= c[k - 1] < |b|)
    ensures var c := chains[h]; ChainOk(chains[g], g, b[c[k] := -1], BypassNext(ns, c, k, end), hs[g])
  {
    var c := chains[h];
    assert ChainOk(c, h, b, ns, hs[h]) && ChainOk(chains[g], g, b, ns, hs[g]);
    var b', ns' := b[c[k] := -1], BypassNext(ns, c, k, end);
    forall m | m in chains[g] ensures 0 <= m < |b| && b'[m] == b[m] && ns'[m] == ns[m] {
      assert b[m] == g && b[c[k]] == h && (k > 0 ==> b[c[k - 1]] == h);
    }
    ChainFrame(chains[g], g, b, ns, hs[g], b', ns');
  }

  lemma StillListed(b: seq<int>, ns: seq<int>, hs: seq<int>, chains: seq<seq<int>>, h: nat, k: nat, i: nat)
    requires Chained(b, ns, hs, chains) && h < |hs| && k < |chains[h]| && i < |b| && i != chains[h][k] && b[i] >= 0
    ensures b[i] < |chains| && i in chains[h := RemoveAt(chains[h], k)][b[i]]
  {
    assert ChainOk(chains[h], h, b, ns, hs[h]);
    KeptFacts(chains[h], k);
  }

  function BypassHead(hs: seq<int>, ns: seq<int>, c: seq<int>, h: nat, k: nat): seq<int>
    requires h < |hs| && k < |c| && 0 <= c[k] < |ns|
  {
    if k > 0 then hs else hs[h := ns[c[k]]]
  }

  lemma ChainAfter(b: seq<int>, ns: seq<int>, hs: seq<int>, chains: seq<seq<int>>, h: nat, k: nat, end: int, g: nat)
    requires Chained(b, ns, hs, chains) && h < |hs| && k < |chains[h]| && g < |hs|
    requires var c := chains[h]; 0 <= c[k] < |b| && (k > 0 ==> 0 <= c[k - 1] < |b|)
    ensures var c := chains[h];
      ChainOk(chains[h := RemoveAt(c, k)][g], g, b[c[k] := -1], BypassNext(ns, c, k, end),
        BypassHead(hs, ns, c, h, k)[g])
  {
    if g == h {
      assert ChainOk(chains[h], h, b, ns, hs[h]);
      ChainRemoveAt(chains[h], h, b, ns, hs[h], k, end);
    } else {
      OtherChain(b, ns, hs, chains, h, k, end, g);
    }
  }

  lemma SlotsOf(b: seq<int>, ns: seq<int>, hs: seq<int>, chains: seq<seq<int>>, h: nat, k: nat)
    requires Chained(b, ns, hs, chains) && h < |hs| && k < |chains[h]|
    ensures 0 <= chains[h][k] < |b| && b[chains[h][k]] == h && (k > 0 ==> 0 <= chains[h][k - 1] < |b|)
  {
    assert ChainOk(chains[h], h, b, ns, hs[h]);
  }

  /** A slot taken out of its bucket. */
  lemma Unchained(b: seq<int>, ns: seq<int>, hs: seq<int>, chains: seq<seq<int>>, h: nat, k: nat, end: int)
    requires Chained(b, ns, hs, chains) && h < |hs| && k < |chains[h]|
    ensures var c := chains[h];
      && 0 <= c[k] < |b| && (k > 0 ==> 0 <= c[k - 1] < |b|)
      && Chained(b[c[k] := -1], BypassNext(ns, c, k, end), BypassHead(hs, ns, c, h, k), chains[h := RemoveAt(c, k)])
  {
    SlotsOf(b, ns, hs, chains, h, k);
    var c := chains[h];
    var b', ns' := b[c[k] := -1], BypassNext(ns, c, k, end);
    var hs', chains' := BypassHead(hs, ns, c, h, k), chains[h := RemoveAt(c, k)];
    forall g | 0 <= g < |hs'| ensures ChainOk(chains'[g], g, b', ns', hs'[g]) {
      ChainAfter(b, ns, hs, chains, h, k, end, g);
    }
    forall i | 0 <= i < |b'| && b'[i] >= 0 ensures b'[i] < |chains'| && i in chains'[b'[i]] {
      StillListed(b, ns, hs, chains, h, k, i);
    }
  }
}
