/** The numbers that bound times and sizes. */
module Constants {
  const MAP_LOAD_FACTOR: real := 0.75
  const MAP_INITIAL_CAPACITY: nat := 16
  const BEGINNING_OF_TIME: int := -0x1F_FFFF_FFFF_FFFE
  const END_OF_TIME: int := 0x1F_FFFF_FFFF_FFFE
  const NULL_LONG: int := 0x1F_FFFF_FFFF_FFFF
}

/** What a time tree answers, as statements about its keys in the order of their insertion. */
module TimeLine {
  import opened Constants

  ghost predicate Distinct(ks: seq<int>) {
    forall i, j :: 0 <= i < j < |ks| ==> ks[i] != ks[j]
  }

  ghost predicate IsFloor(ks: seq<int>, key: int, f: int) {
    f in ks && f <= key && forall k <- ks :: k <= key ==> k <= f
  }

  ghost predicate Descending(s: seq<int>) {
    forall i, j :: 0 <= i < j < |s| ==> s[j] < s[i]
  }

  /** `walked` is the greatest keys in [start, end], greatest first, up to `max` of them. */
  ghost predicate IsRange(walked: seq<int>, ks: seq<int>, start: int, end: int, max: nat) {
    && Descending(walked) && |walked| <= max
    && (forall x <- walked :: x in ks && start <= x <= end)
    && (forall k <- ks :: start <= k <= end && k !in walked ==> |walked| == max && forall x <- walked :: k < x)
  }

  /** The keys that clearAt keeps, in their order. */
  function Kept(ks: seq<int>, max: int): seq<int> {
    if ks == [] then []
    else
      var k := ks[|ks| - 1];
      Kept(ks[..|ks| - 1], max) + if k != NULL_LONG && k < max then [k] else []
  }

  lemma {:induction false} KeptFrom(ks: seq<int>, max: int)
    ensures forall k :: k in Kept(ks, max) <==> k in ks && k != NULL_LONG && k < max
  {
    if ks != [] {
      KeptFrom(ks[..|ks| - 1], max);
      assert ks == ks[..|ks| - 1] + [ks[|ks| - 1]];
    }
  }

  /** One more key passes the filter or not. */
  lemma KeptStep(ks: seq<int>, i: nat, max: int)
    requires i < |ks|
    ensures Kept(ks[..i + 1], max) == Kept(ks[..i], max) + if ks[i] != NULL_LONG && ks[i] < max then [ks[i]] else []
    ensures Distinct(ks) ==> ks[i] !in Kept(ks[..i], max)
  {
    assert ks[..i + 1][..i] == ks[..i];
    KeptFrom(ks[..i], max);
  }
}
