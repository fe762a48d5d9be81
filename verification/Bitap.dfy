/** 32-bit words by their bits. */
module Words {
  import opened Arithmetic

  type word = x: int | 0 <= x < 0x1_0000_0000

  predicate Bit(x: nat, k: nat) {
    x / Pow2(k) % 2 == 1
  }

  lemma BitStep(x: nat, k: nat)
    ensures Bit(x, 0) <==> x % 2 == 1
    ensures Bit(x, k + 1) <==> Bit(x / 2, k)
  {
    DivDiv(x, 2, Pow2(k));
  }

  /** The bits that both words have. */
  function And(x: nat, y: nat): (r: nat)
    ensures r <= x && r <= y
    decreases x
  {
    if x == 0 then 0 else 2 * And(x / 2, y / 2) + (x % 2) * (y % 2)
  }

  lemma {:induction false} AndBits(x: nat, y: nat, k: nat)
    ensures Bit(And(x, y), k) <==> Bit(x, k) && Bit(y, k)
    decreases x
  {
    if x == 0 {
      ZeroBits(k);
    } else {
      var r := And(x, y);
      assert r / 2 == And(x / 2, y / 2) && r % 2 == (x % 2) * (y % 2);
      if k == 0 {
        BitStep(x, 0);
        BitStep(y, 0);
        BitStep(r, 0);
      } else {
        AndBits(x / 2, y / 2, k - 1);
        BitStep(x, k - 1);
        BitStep(y, k - 1);
        BitStep(r, k - 1);
      }
    }
  }

  /** The bits that one of the words has. */
  function Or(x: nat, y: nat): nat {
    if x == 0 then y else if y == 0 then x else 2 * Or(x / 2, y / 2) + if x % 2 == 1 || y % 2 == 1 then 1 else 0
  }

  lemma {:induction false} OrBits(x: nat, y: nat, k: nat)
    ensures Bit(Or(x, y), k) <==> Bit(x, k) || Bit(y, k)
    decreases x
  {
    ZeroBits(k);
    if x != 0 && y != 0 {
      var r := Or(x, y);
      assert r / 2 == Or(x / 2, y / 2) && r % 2 == if x % 2 == 1 || y % 2 == 1 then 1 else 0;
      if k == 0 {
        BitStep(x, 0);
        BitStep(y, 0);
        BitStep(r, 0);
      } else {
        OrBits(x / 2, y / 2, k - 1);
        BitStep(x, k - 1);
        BitStep(y, k - 1);
        BitStep(r, k - 1);
      }
    }
  }

  lemma {:induction false} OrBelow(x: nat, y: nat, n: nat)
    requires x < Pow2(n) && y < Pow2(n)
    ensures Or(x, y) < Pow2(n)
    decreases n
  {
    if x != 0 && y != 0 && n > 0 {
      OrBelow(x / 2, y / 2, n - 1);
    }
  }

  /** `1 << b` has the one bit. */
  lemma {:induction false} PowerBits(b: nat, k: nat)
    ensures Bit(Pow2(b), k) <==> k == b
  {
    if k == 0 {
      BitStep(Pow2(b), 0);
    } else if b == 0 {
      BitStep(1, k - 1);
      ZeroBits(k - 1);
    } else {
      BitStep(Pow2(b), k - 1);
      PowerBits(b - 1, k - 1);
    }
  }

  /** A word is not zero exactly when it has a bit. */
  lemma {:induction false} SomeBit(x: nat)
    requires x != 0
    ensures exists k: nat :: Bit(x, k)
  {
    if x % 2 == 1 {
      BitStep(x, 0);
      assert Bit(x, 0);
    } else {
      SomeBit(x / 2);
      var k: nat :| Bit(x / 2, k);
      BitStep(x, k);
      assert Bit(x, k + 1);
    }
  }

  lemma ZeroBits(k: nat)
    ensures !Bit(0, k)
  {
  }

  /** `(x << 1) | 1` on 32 bits. */
  function ShiftIn(x: word): word {
    (2 * x + 1) % 0x1_0000_0000
  }

  lemma ShiftInBits(x: word, k: nat)
    requires k < 32
    ensures Bit(ShiftIn(x), k) <==> k == 0 || Bit(x, k - 1)
  {
    LowBits(2 * x + 1, k);
    BitStep(2 * x + 1, if k > 0 then k - 1 else 0);
    assert (2 * x + 1) / 2 == x;
  }

  /** An even multiple of p does not show at the bit that p stands for. */
  lemma EvenPart(x: nat, p: nat, m: nat, l: nat)
    requires p > 0 && x == p * (2 * m) + l
    ensures x / p % 2 == l / p % 2
  {
    DivMod(l, p);
    Distribute(p, 2 * m, l / p);
    DivUnique(x, p, 2 * m + l / p, l % p);
  }

  lemma Reorder(p: nat, q: nat, h: nat)
    ensures (2 * p * q) * h == p * (2 * (q * h))
  {
    Regroup(2 * p, q, h);
    Regroup(p, 2, q * h);
  }

  /** Cutting off bits above the 32nd leaves the ones below. */
  lemma LowBits(x: nat, k: nat)
    requires k < 32
    ensures Bit(x % 0x1_0000_0000, k) <==> Bit(x, k)
  {
    var p, q := Pow2(k), Pow2(31 - k);
    Pow2Sum(k + 1, 31 - k);
    Pow2Of32();
    var h, l := x / 0x1_0000_0000, x % 0x1_0000_0000;
    Reorder(p, q, h);
    EvenPart(x, p, q * h, l);
  }
}

/** The bitap search without errors. */
module Bitap {
  import opened Hiding
  import opened Arithmetic
  import opened Words

  // ----- the pattern's alphabet -----

  /** The bits of m tell where the character is among the first i of the pattern; the pattern's last place
      is bit 0. */
  ghost predicate Places(m: word, pattern: string, i: nat, c: char) {
    forall k: nat :: Bit(m, k) <==> |pattern| - i <= k < |pattern| && pattern[|pattern| - 1 - k] == c
  }

  /** The characters of the pattern, with the places of those among the first i. */
  ghost predicate Entered(mask: map<char, word>, pattern: string, i: nat) {
    i <= |pattern| && (forall c :: c in mask <==> c in pattern) && forall c <- mask :: Places(mask[c], pattern, i, c)
  }

  /** Each character of the pattern with all its places; the definition comes into play only where `Unfold`
      is mentioned. */
  ghost predicate IsAlphabet(mask: map<char, word>, pattern: string) {
    forall b {:trigger Unfold(Topic.Passes, b)} :: Unfold(Topic.Passes, b) ==> Entered(mask, pattern, |pattern|)
  }

  lemma PlacesNext(m: word, pattern: string, i: nat, c: char)
    requires Places(m, pattern, i, c) && i < |pattern| <= 32
    ensures c != pattern[i] ==> Places(m, pattern, i + 1, c)
    ensures c == pattern[i] ==>
      && 0 <= Or(m, Pow2(|pattern| - i - 1)) < 0x1_0000_0000
      && Places(Or(m, Pow2(|pattern| - i - 1)), pattern, i + 1, c)
  {
    if c == pattern[i] {
      OrIsWord(m, |pattern| - i - 1);
      var next := Or(m, Pow2(|pattern| - i - 1));
      forall k: nat ensures Bit(next, k) <==> |pattern| - (i + 1) <= k < |pattern| && pattern[|pattern| - 1 - k] == c {
        OrBits(m, Pow2(|pattern| - i - 1), k);
        PowerBits(|pattern| - i - 1, k);
      }
    }
  }

  lemma OrIsWord(x: word, b: nat)
    requires b < 32
    ensures 0 <= Or(x, Pow2(b)) < 0x1_0000_0000
  {
    Pow2Of32();
    Pow2Monotone(b, 31);
    assert Pow2(32) == 2 * Pow2(31);
    OrBelow(x, Pow2(b), 32);
  }

  method CalculatePatternAlphabet(pattern: string) returns (mask: map<char, word>)
    requires |pattern| <= 32
    ensures IsAlphabet(mask, pattern)
  {
    mask := map[];
    for i := 0 to |pattern|
      invariant forall c :: c in mask <==> c in pattern[..i]
      invariant forall c <- mask :: mask[c] == 0
    {
      assert pattern[..i + 1] == pattern[..i] + [pattern[i]];
      mask := mask[pattern[i] := 0];
    }
    assert pattern[..|pattern|] == pattern;
    forall c | c in mask ensures Places(mask[c], pattern, 0, c) {
      forall k: nat ensures !Bit(mask[c], k) {
        ZeroBits(k);
      }
    }
    for i := 0 to |pattern|
      invariant Entered(mask, pattern, i)
    {
      var c := pattern[i];
      forall e | e in mask
        ensures e != c ==> Places(mask[e], pattern, i + 1, e)
        ensures e == c ==>
          && 0 <= Or(mask[c], Pow2(|pattern| - i - 1)) < 0x1_0000_0000
          && Places(Or(mask[c], Pow2(|pattern| - i - 1)), pattern, i + 1, c)
      {
        PlacesNext(mask[e], pattern, i, e);
      }
      assert c in mask;
      mask := mask[c := Or(mask[c], Pow2(|pattern| - i - 1))];
    }
  }

  // ----- the bits of the pass without errors -----

  /** The last k + 1 characters of the pattern stand in the text from position x on, before `finish`. */
  ghost predicate Ends(pattern: string, text: string, k: nat, x: int, finish: int) {
    k < |pattern| && 0 <= x && x + k < |text| && x + k < finish && text[x..x + k + 1] == pattern[|pattern| - 1 - k..]
  }

  predicate Occurs(pattern: string, text: string, x: int) {
    0 <= x <= |text| - |pattern| && text[x..x + |pattern|] == pattern
  }

  lemma EndsAll(pattern: string, text: string, x: int, finish: int)
    requires pattern != []
    ensures Ends(pattern, text, |pattern| - 1, x, finish) <==> Occurs(pattern, text, x) && x + |pattern| <= finish
  {
    assert pattern[0..] == pattern;
  }

  lemma EndsStep(pattern: string, text: string, k: nat, x: int, finish: int)
    requires k < |pattern| && 0 <= x
    ensures Ends(pattern, text, k, x, finish) <==>
      x < |text| && x < finish && text[x] == pattern[|pattern| - 1 - k]
        && (k == 0 || Ends(pattern, text, k - 1, x + 1, finish))
  {
    var n := |pattern|;
    assert pattern[n - 1 - k..] == [pattern[n - 1 - k]] + pattern[n - k..];
    if x + k < |text| {
      assert text[x..x + k + 1] == [text[x]] + text[x + 1..x + k + 1];
    }
  }

  /** Bit k of the word for position x says whether the last k + 1 pattern characters stand there. */
  ghost predicate BitsAre(pattern: string, text: string, finish: int, x: int, bits: word) {
    forall k: nat :: k < 32 ==> (Bit(bits, k) <==> Ends(pattern, text, k, x, finish))
  }

  /** One position to the left. */
  lemma BitsStep(pattern: string, text: string, mask: map<char, word>, finish: int, x: int, bits: word)
    requires |pattern| <= 32 && IsAlphabet(mask, pattern) && 0 <= x < finish
    requires BitsAre(pattern, text, finish, x + 1, bits)
    ensures var charMatch := if x < |text| && text[x] in mask then mask[text[x]] else 0;
      BitsAre(pattern, text, finish, x, And(ShiftIn(bits), charMatch))
  {
    var charMatch := if x < |text| && text[x] in mask then mask[text[x]] else 0;
    var next := And(ShiftIn(bits), charMatch);
    assert Unfold(Topic.Passes, true);
    forall k: nat | k < 32 ensures Bit(next, k) <==> Ends(pattern, text, k, x, finish) {
      AndBits(ShiftIn(bits), charMatch, k);
      ShiftInBits(bits, k);
      ZeroBits(k);
      if k < |pattern| {
        EndsStep(pattern, text, k, x, finish);
      }
    }
  }

  /** The match-mask test asks for the bit of the whole pattern. */
  lemma MaskTest(bits: word, n: nat)
    requires 1 <= n <= 32
    ensures And(bits, Pow2(n - 1)) != 0 <==> Bit(bits, n - 1)
  {
    var both := And(bits, Pow2(n - 1));
    AndBits(bits, Pow2(n - 1), n - 1);
    PowerBits(n - 1, n - 1);
    ZeroBits(n - 1);
    if both != 0 {
      SomeBit(both);
      var k: nat :| Bit(both, k);
      AndBits(bits, Pow2(n - 1), k);
      PowerBits(n - 1, k);
    }
  }

  // ----- scores -----

  datatype Options = Options(location: nat, distance: nat, threshold: real)

  function Abs(x: int): nat {
    if x < 0 then -x else x
  }

  /** bitapScore: 0.0 is a perfect match. */
  function Score(o: Options, patternLen: nat, errors: nat, location: int): real
    requires patternLen >= 1
  {
    var accuracy := errors as real / patternLen as real;
    var proximity := Abs(o.location - location);
    if o.distance == 0 then if proximity != 0 then 1.0 else accuracy
    else accuracy + proximity as real / o.distance as real
  }

  lemma TimesBack(a: nat, d: nat)
    requires d >= 1
    ensures a as real / d as real * d as real == a as real
  {
  }

  /** A score is the share of the pattern in error plus the share of `distance` that the place is off; with no
      `distance` every place but the expected one is a mismatch. */
  lemma ScoreIs(o: Options, patternLen: nat, errors: nat, x: int)
    requires patternLen >= 1
    ensures o.distance > 0 ==>
      var off := if x <= o.location then o.location - x else x - o.location;
      (Score(o, patternLen, errors, x) - errors as real / patternLen as real) * o.distance as real == off as real
    ensures o.distance == 0 ==>
      Score(o, patternLen, errors, x) == if x == o.location then errors as real / patternLen as real else 1.0
  {
    if o.distance > 0 {
      TimesBack(Abs(o.location - x), o.distance);
    }
  }

  lemma Quotients(a: nat, b: nat, d: nat)
    requires a <= b && d >= 1
    ensures a as real / d as real <= b as real / d as real
  {
  }

  /** Farther off is no better. */
  lemma ScoreGrows(o: Options, patternLen: nat, errors: nat, x: int, y: int)
    requires 1 <= patternLen && errors <= patternLen && Abs(o.location - x) <= Abs(o.location - y)
    ensures Score(o, patternLen, errors, x) <= Score(o, patternLen, errors, y)
  {
    Quotients(errors, patternLen, patternLen);
    if o.distance != 0 {
      Quotients(Abs(o.location - x), Abs(o.location - y), o.distance);
    }
  }

  /** The score at a distance to the right of the expected place. */
  ghost predicate Within(o: Options, patternLen: nat, errors: nat, threshold: real, d: nat)
    requires patternLen >= 1
  {
    Score(o, patternLen, errors, o.location + d) <= threshold
  }

  lemma WithinShrinks(o: Options, patternLen: nat, errors: nat, threshold: real, d: nat, e: nat)
    requires 1 <= patternLen && errors <= patternLen && d <= e && Within(o, patternLen, errors, threshold, e)
    ensures Within(o, patternLen, errors, threshold, d)
  {
    ScoreGrows(o, patternLen, errors, o.location + d, o.location + e);
  }

  /** The search for how far from the expected place a match may be: the greatest distance up to `max`
      within the threshold, or 0 when there is none. */
  method Stray(o: Options, patternLen: nat, errors: nat, max: nat, threshold: real) returns (binMid: nat)
    requires 1 <= patternLen && errors <= patternLen
    ensures binMid <= max
    ensures binMid > 0 ==> Within(o, patternLen, errors, threshold, binMid)
    ensures forall d: nat :: binMid < d <= max ==> !Within(o, patternLen, errors, threshold, d)
  {
    var binMin, binMax := 0, max;
    binMid := binMax;
    while binMin < binMid
      invariant 0 <= binMin <= binMid <= binMax <= max && (binMin == binMid ==> binMax - binMin <= 1 || binMid == max)
      invariant binMid == binMax ==> binMid == max || binMin == binMid
      invariant binMin > 0 ==> Within(o, patternLen, errors, threshold, binMin)
      invariant binMid == max || !Within(o, patternLen, errors, threshold, binMax)
      decreases binMax - binMin, binMid - binMin
    {
      if Score(o, patternLen, errors, o.location + binMid) <= threshold {
        assert Within(o, patternLen, errors, threshold, binMid);
        binMin := binMid;
      } else {
        assert !Within(o, patternLen, errors, threshold, binMid);
        binMax := binMid;
      }
      binMid := (binMax - binMin) / 2 + binMin;
    }
    forall d: nat | binMid < d <= max ensures !Within(o, patternLen, errors, threshold, d) {
      if Within(o, patternLen, errors, threshold, d) {
        WithinShrinks(o, patternLen, errors, threshold, binMax, d);
      }
    }
  }

  // ----- the pass without errors -----

  function Max(a: int, b: int): int {
    if a < b then b else a
  }

  function Min(a: int, b: int): int {
    if a < b then a else b
  }

  method IndexOf(pattern: string, text: string, from: nat) returns (x: int)
    ensures x == -1 ==> forall y :: from <= y ==> !Occurs(pattern, text, y)
    ensures x != -1 ==> from <= x && Occurs(pattern, text, x)
  {
    x := from;
    while x <= |text| - |pattern|
      invariant from <= x && forall y :: from <= y < x ==> !Occurs(pattern, text, y)
    {
      if Occurs(pattern, text, x) {
        return;
      }
      x := x + 1;
    }
    x := -1;
  }

  method LastIndexOf(pattern: string, text: string, from: nat) returns (x: int)
    ensures x == -1 ==> forall y :: y <= from ==> !Occurs(pattern, text, y)
    ensures x != -1 ==> x <= from && Occurs(pattern, text, x)
  {
    x := Min(from, |text| - |pattern|);
    while x >= 0
      invariant x <= from && forall y :: x < y <= from ==> !Occurs(pattern, text, y)
    {
      if Occurs(pattern, text, x) {
        return;
      }
      x := x - 1;
    }
    x := -1;
  }

  /** How far a place is from the expected one. */
  function Off(o: Options, y: int): int {
    if y <= o.location then o.location - y else y - o.location
  }

  ghost function Exact(o: Options, pattern: string, x: int): real
    requires pattern != []
  {
    Score(o, |pattern|, 0, x)
  }

  /** The scores of occurrences bound the threshold that a search starts with, but not below the best. */
  ghost predicate Starts(o: Options, pattern: string, text: string, threshold: real)
    requires pattern != []
  {
    && threshold <= o.threshold
    && (threshold < o.threshold ==>
          exists x :: Occurs(pattern, text, x) && o.location - x <= |pattern| + |text|
            && Exact(o, pattern, x) == threshold)
  }

  method StartThreshold(o: Options, pattern: string, text: string) returns (threshold: real)
    requires pattern != []
    ensures Starts(o, pattern, text, threshold)
  {
    threshold := o.threshold;
    var bestLoc := IndexOf(pattern, text, o.location);
    if bestLoc != -1 {
      var score := Score(o, |pattern|, 0, bestLoc);
      assert Exact(o, pattern, bestLoc) == score;
      threshold := if score < threshold then score else threshold;
      bestLoc := LastIndexOf(pattern, text, o.location + |pattern|);
      if bestLoc != -1 {
        score := Score(o, |pattern|, 0, bestLoc);
        assert Exact(o, pattern, bestLoc) == score;
        threshold := if score < threshold then score else threshold;
      }
    }
  }

  /** Nothing farther than `binMid` is within the threshold. */
  lemma TooFar(o: Options, pattern: string, threshold: real, binMid: nat, max: nat, x: int)
    requires pattern != [] && binMid < Abs(o.location - x) <= max
    requires forall d: nat :: binMid < d <= max ==> !Within(o, |pattern|, 0, threshold, d)
    ensures Exact(o, pattern, x) > threshold
  {
    var d := Abs(o.location - x);
    assert !Within(o, |pattern|, 0, threshold, d);
    ScoreGrows(o, |pattern|, 0, x, o.location + d);
    ScoreGrows(o, |pattern|, 0, o.location + d, x);
  }

  /** What has been found among the occurrences from x on. */
  ghost predicate Best(o: Options, pattern: string, text: string, x: int, first: real, threshold: real, bestLoc: int)
    requires pattern != []
  {
    if bestLoc == -1 then threshold == first && forall y :: x <= y && Occurs(pattern, text, y) ==>
      Exact(o, pattern, y) > first
    else
      && x <= bestLoc && Occurs(pattern, text, bestLoc) && threshold == Exact(o, pattern, bestLoc) <= first
      && forall y :: x <= y && Occurs(pattern, text, y) ==>
           Exact(o, pattern, y) >= threshold && (y < bestLoc ==> Exact(o, pattern, y) > threshold)
  }

  lemma BestNext(o: Options, pattern: string, text: string, x: int, first: real, threshold: real, bestLoc: int)
    requires pattern != [] && Best(o, pattern, text, x + 1, first, threshold, bestLoc) && x >= 0
    ensures Occurs(pattern, text, x) && Exact(o, pattern, x) <= threshold ==>
      Best(o, pattern, text, x, first, Exact(o, pattern, x), x)
    ensures !Occurs(pattern, text, x) || Exact(o, pattern, x) > threshold ==>
      Best(o, pattern, text, x, first, threshold, bestLoc)
  {
  }

  /** The best occurrence in reach of the search, by its score. */
  ghost predicate BestInReach(o: Options, pattern: string, text: string, threshold: real, bestLoc: int)
    requires pattern != []
  {
    var reach := |pattern| + |text|;
    if bestLoc == -1 then forall y :: Occurs(pattern, text, y) && o.location - y <= reach ==>
      Exact(o, pattern, y) > threshold
    else
      && Occurs(pattern, text, bestLoc) && Exact(o, pattern, bestLoc) <= threshold
      && forall y :: Occurs(pattern, text, y) && o.location - y <= reach ==>
        Exact(o, pattern, y) >= Exact(o, pattern, bestLoc)
  }

  /** Everything left of the stretch that has been looked at is farther off than the stretch reaches. */
  lemma LeftOut(o: Options, pattern: string, text: string, first: real, binMid: nat, start: int, j: int,
                threshold: real, bestLoc: int)
    requires pattern != [] && Best(o, pattern, text, j, first, threshold, bestLoc)
    requires forall d: nat :: binMid < d <= |pattern| + |text| ==> !Within(o, |pattern|, 0, first, d)
    requires bestLoc == -1 ==> start == Max(1, o.location - binMid + 1) && j < start
    requires bestLoc > o.location ==> start == Max(1, 2 * o.location - bestLoc) && j < start
    requires bestLoc == -1 || bestLoc > o.location || j == bestLoc
    ensures BestInReach(o, pattern, text, first, bestLoc)
  {
    forall y | Occurs(pattern, text, y) && y < j && o.location - y <= |pattern| + |text|
      ensures if bestLoc == -1 then Exact(o, pattern, y) > first else Exact(o, pattern, y) >= Exact(o, pattern, bestLoc)
    {
      if bestLoc == -1 {
        TooFar(o, pattern, first, binMid, |pattern| + |text|, y);
      } else {
        ScoreGrows(o, |pattern|, 0, bestLoc, y);
      }
    }
  }

  /** An occurrence in the text that the bits cannot tell is too far off to matter. */
  lemma BeyondFinish(o: Options, pattern: string, text: string, first: real, binMid: nat, finish: int, x: int)
    requires pattern != [] && Occurs(pattern, text, x)
    requires x + |pattern| > finish == Min(o.location + binMid, |text|) + |pattern|
    requires forall d: nat :: binMid < d <= |pattern| + |text| ==> !Within(o, |pattern|, 0, first, d)
    ensures Exact(o, pattern, x) > first
  {
    TooFar(o, pattern, first, binMid, |pattern| + |text|, x);
  }

  /** The variables of the pass. */
  datatype Pass = Pass(bits: word, start: int, threshold: real, bestLoc: int, score: real, last: int)

  /** What the loop body does at position x. */
  function NextPass(o: Options, patternLen: nat, charMatch: word, x: int, p: Pass): Pass
    requires patternLen >= 1
  {
    var bits: word := And(ShiftIn(p.bits), charMatch);
    var score := Score(o, patternLen, 0, x);
    if And(bits, Pow2(patternLen - 1)) == 0 then p.(bits := bits)
    else if score <= p.threshold then
      Pass(bits, if x > o.location then Max(1, 2 * o.location - x) else p.start, score, x, score, x)
    else p.(bits := bits, score := score, last := x)
  }

  ghost predicate Bounds(o: Options, pattern: string, text: string, first: real, binMid: nat, finish: int)
    requires pattern != []
  {
    && finish == Min(o.location + binMid, |text|) + |pattern|
    && (binMid > 0 ==> Within(o, |pattern|, 0, first, binMid))
    && forall d: nat :: binMid < d <= |pattern| + |text| ==> !Within(o, |pattern|, 0, first, d)
  }

  /** The positions from x on have been looked at. */
  ghost predicate Looked(o: Options, pattern: string, text: string, first: real, binMid: nat, finish: int, x: int,
                         p: Pass)
    requires pattern != []
  {
    && BitsAre(pattern, text, finish, x, p.bits) && Best(o, pattern, text, x, first, p.threshold, p.bestLoc)
    && (p.bestLoc == -1 ==> p.start == Max(1, o.location - binMid + 1))
    && (p.bestLoc > o.location ==> p.start == Max(1, 2 * o.location - p.bestLoc))
    && (p.bestLoc == -1 && o.threshold >= 0.0 ==> p.score == 1.0)
    && (p.bestLoc != -1 ==>
          && Occurs(pattern, text, p.last) && p.score == Exact(o, pattern, p.last) && p.last >= x
          && p.last + |pattern| <= finish && (forall y :: x <= y < p.last ==> !Occurs(pattern, text, y))
          && (p.last == p.bestLoc || (p.start - 1 <= p.last < p.bestLoc && p.score > p.threshold))
          && (p.bestLoc <= o.location ==> LeftFair(o, pattern, text, x, p.bestLoc)))
  }

  /** A place at or before the expected one is the first on its side, and at most one farther off than any on the
      other. */
  ghost predicate LeftFair(o: Options, pattern: string, text: string, x: int, bestLoc: int) {
    forall y :: x <= y && Occurs(pattern, text, y) && y != bestLoc && bestLoc != o.location ==>
      o.location < y && o.location - bestLoc <= y - o.location + 1
  }

  /** `Looked`, for callers to pass on: its definition comes into play only where `Unfold` is mentioned. */
  ghost predicate Going(o: Options, pattern: string, text: string, first: real, binMid: nat, finish: int, x: int,
                        p: Pass)
    requires pattern != []
  {
    forall b {:trigger Unfold(Topic.Passes, b)} :: Unfold(Topic.Passes, b) ==>
      && Starts(o, pattern, text, first) && Bounds(o, pattern, text, first, binMid, finish)
      && Looked(o, pattern, text, first, binMid, finish, x, p)
  }

  lemma ExactIs(o: Options, pattern: string, x: int)
    requires pattern != []
    ensures o.distance > 0 ==> Exact(o, pattern, x) * o.distance as real == Off(o, x) as real
    ensures o.distance == 0 ==> Exact(o, pattern, x) == if x == o.location then 0.0 else 1.0
  {
    ScoreIs(o, |pattern|, 0, x);
    assert 0 as real / |pattern| as real == 0.0;
  }

  /** Of two places the one with the smaller score is no farther off, unless distances do not count. */
  lemma NearerScores(o: Options, pattern: string, x: int, y: int)
    requires pattern != [] && o.distance > 0
    ensures Exact(o, pattern, x) <= Exact(o, pattern, y) <==> Off(o, x) <= Off(o, y)
  {
    ExactIs(o, pattern, x);
    ExactIs(o, pattern, y);
    var a, b := Exact(o, pattern, x), Exact(o, pattern, y);
    Shares(a, b, o.distance as real, Off(o, x) as real, Off(o, y) as real);
  }

  /** Shares of d are ordered as the amounts. */
  lemma Shares(a: real, b: real, d: real, x: real, y: real)
    requires d > 0.0 && a * d == x && b * d == y
    ensures a <= b <==> x <= y
  {
    assert (b - a) * d == y - x;
  }

  /** A place at or before the expected one that is taken is at most one farther off than the ones after it. */
  lemma TakenFair(o: Options, pattern: string, text: string, x: int, first: real, start: int, threshold: real,
                  bestLoc: int)
    requires pattern != [] && Best(o, pattern, text, x + 1, first, threshold, bestLoc) && 0 <= x <= o.location
    requires Occurs(pattern, text, x) && Exact(o, pattern, x) <= threshold && start - 1 <= x
    requires bestLoc == -1 || (bestLoc > o.location && start == Max(1, 2 * o.location - bestLoc))
    ensures LeftFair(o, pattern, text, x, x)
  {
    forall y | x < y && Occurs(pattern, text, y) && x != o.location
      ensures o.location < y && o.location - x <= y - o.location + 1
    {
      if o.distance > 0 {
        NearerScores(o, pattern, x, y);
        NearerScores(o, pattern, y, x);
      } else {
        ExactIs(o, pattern, x);
        ExactIs(o, pattern, y);
      }
    }
  }

  /** While nothing has been taken, every occurrence in the stretch is good enough. */
  lemma FirstTaken(o: Options, pattern: string, text: string, first: real, binMid: nat, finish: int, x: int)
    requires pattern != [] && Starts(o, pattern, text, first) && Bounds(o, pattern, text, first, binMid, finish)
    requires o.threshold >= 0.0 && 0 <= x && o.location - binMid <= x && x + |pattern| <= finish
    ensures Exact(o, pattern, x) <= first
  {
    ScorePositive(o, pattern, x);
    if first < o.threshold {
      var y :| Occurs(pattern, text, y) && Exact(o, pattern, y) == first;
      ScorePositive(o, pattern, y);
    }
    if x != o.location {
      ScoreGrows(o, |pattern|, 0, x, o.location + binMid);
    }
  }

  lemma ScorePositive(o: Options, pattern: string, x: int)
    requires pattern != []
    ensures Exact(o, pattern, x) >= 0.0 && Exact(o, pattern, o.location) == 0.0
  {
    ScoreGrows(o, |pattern|, 0, o.location, x);
  }

  lemma LookedNext(o: Options, pattern: string, text: string, first: real, binMid: nat, finish: int, x: int, j: int,
                   mask: map<char, word>, p: Pass)
    requires 1 <= |pattern| <= 32 && IsAlphabet(mask, pattern) && 0 <= x < finish && j == x + 1
    requires Going(o, pattern, text, first, binMid, finish, j, p) && 1 <= p.start <= j
    requires (p.bestLoc == -1 || p.bestLoc > o.location)
    ensures var charMatch := if x < |text| && text[x] in mask then mask[text[x]] else 0;
      var q := NextPass(o, |pattern|, charMatch, x, p);
      Going(o, pattern, text, first, binMid, finish, x, q) && q.start >= 1
        && (q.bestLoc != -1 && q.bestLoc <= o.location ==> q.bestLoc == x)
  {
    var charMatch := if x < |text| && text[x] in mask then mask[text[x]] else 0;
    var next: word := And(ShiftIn(p.bits), charMatch);
    assert Unfold(Topic.Passes, true);
    BitsTest(pattern, text, mask, finish, x, p.bits);
    if And(next, Pow2(|pattern| - 1)) == 0 {
      PassedNext(o, pattern, text, first, binMid, finish, x, p, next);
    } else if Exact(o, pattern, x) <= p.threshold {
      TakenNext(o, pattern, text, first, binMid, finish, x, p, next);
    } else {
      TurnedNext(o, pattern, text, first, binMid, finish, x, p, next);
    }
  }

  /** No occurrence that the bits can tell. */
  lemma PassedNext(o: Options, pattern: string, text: string, first: real, binMid: nat, finish: int, x: int, p: Pass,
                   next: word)
    requires pattern != [] && Bounds(o, pattern, text, first, binMid, finish) && 0 <= x
    requires Looked(o, pattern, text, first, binMid, finish, x + 1, p) && BitsAre(pattern, text, finish, x, next)
    requires Occurs(pattern, text, x) ==> x + |pattern| > finish
    ensures p.bestLoc == -1 || p.bestLoc > o.location ==>
      Looked(o, pattern, text, first, binMid, finish, x, p.(bits := next))
  {
    if Occurs(pattern, text, x) {
      BeyondFinish(o, pattern, text, first, binMid, finish, x);
    }
    BestNext(o, pattern, text, x, first, p.threshold, p.bestLoc);
  }

  /** An occurrence that is at least as good as the best so far. */
  lemma TakenNext(o: Options, pattern: string, text: string, first: real, binMid: nat, finish: int, x: int, p: Pass,
                  next: word)
    requires pattern != [] && 0 <= x && p.start - 1 <= x
    requires Looked(o, pattern, text, first, binMid, finish, x + 1, p) && BitsAre(pattern, text, finish, x, next)
    requires Occurs(pattern, text, x) && x + |pattern| <= finish && Exact(o, pattern, x) <= p.threshold
    requires p.bestLoc == -1 || p.bestLoc > o.location
    ensures var start, score := if x > o.location then Max(1, 2 * o.location - x) else p.start, Exact(o, pattern, x);
      Looked(o, pattern, text, first, binMid, finish, x, Pass(next, start, score, x, score, x))
  {
    BestNext(o, pattern, text, x, first, p.threshold, p.bestLoc);
    if x <= o.location {
      TakenFair(o, pattern, text, x, first, p.start, p.threshold, p.bestLoc);
    }
  }

  /** An occurrence that is turned away, which leaves its score behind. */
  lemma TurnedNext(o: Options, pattern: string, text: string, first: real, binMid: nat, finish: int, x: int, p: Pass,
                   next: word)
    requires pattern != [] && 0 <= x && p.start - 1 <= x
    requires Starts(o, pattern, text, first) && Bounds(o, pattern, text, first, binMid, finish)
    requires Looked(o, pattern, text, first, binMid, finish, x + 1, p) && BitsAre(pattern, text, finish, x, next)
    requires Occurs(pattern, text, x) && x + |pattern| <= finish && Exact(o, pattern, x) > p.threshold
    requires p.bestLoc == -1 || p.bestLoc > o.location
    ensures var q := p.(bits := next, score := Exact(o, pattern, x), last := x);
      Looked(o, pattern, text, first, binMid, finish, x, q)
  {
    BestNext(o, pattern, text, x, first, p.threshold, p.bestLoc);
    if p.bestLoc == -1 && o.threshold >= 0.0 {
      FirstTaken(o, pattern, text, first, binMid, finish, x);
    }
  }

  /** The new word, and what the match-mask test says about it. */
  lemma {:induction false} BitsTest(pattern: string, text: string, mask: map<char, word>, finish: int, x: int,
                                    bits: word)
    requires 1 <= |pattern| <= 32 && IsAlphabet(mask, pattern) && 0 <= x < finish
    requires BitsAre(pattern, text, finish, x + 1, bits)
    ensures var charMatch := if x < |text| && text[x] in mask then mask[text[x]] else 0;
      var next := And(ShiftIn(bits), charMatch);
      && BitsAre(pattern, text, finish, x, next)
      && (And(next, Pow2(|pattern| - 1)) != 0 <==> Occurs(pattern, text, x) && x + |pattern| <= finish)
  {
    var charMatch := if x < |text| && text[x] in mask then mask[text[x]] else 0;
    BitsStep(pattern, text, mask, finish, x, bits);
    MaskTest(And(ShiftIn(bits), charMatch), |pattern|);
    EndsAll(pattern, text, x, finish);
  }

  /** At the end nothing better is left, and the score is that of the best place or of one place more. */
  lemma LookedAll(o: Options, pattern: string, text: string, first: real, binMid: nat, finish: int, x: int, p: Pass)
    requires pattern != [] && Going(o, pattern, text, first, binMid, finish, x, p)
    requires (x < p.start && (p.bestLoc == -1 || p.bestLoc > o.location)) || (p.bestLoc == x && 0 <= x <= o.location)
    ensures BestInReach(o, pattern, text, o.threshold, p.bestLoc)
    ensures p.bestLoc != -1 ==> p.score == Exact(o, pattern, LastSeen(o, pattern, text, p.bestLoc))
    ensures p.bestLoc == -1 && o.threshold >= 0.0 ==> p.score == 1.0
    ensures p.bestLoc != -1 ==> Settled(o, pattern, text, x, p.bestLoc)
  {
    assert Unfold(Topic.Passes, true);
    LeftOut(o, pattern, text, first, binMid, p.start, x, p.threshold, p.bestLoc);
    StartsFair(o, pattern, text, first, p.bestLoc);
    if p.bestLoc != -1 {
      LastLooked(o, pattern, text, first, x, p);
    }
  }

  /** The last occurrence that is looked at: the place itself, or one just beyond its mirror image. */
  function LastSeen(o: Options, pattern: string, text: string, bestLoc: int): int {
    var beyond := 2 * o.location - bestLoc - 1;
    if bestLoc > o.location && Occurs(pattern, text, beyond) then beyond else bestLoc
  }

  lemma LastLooked(o: Options, pattern: string, text: string, first: real, x: int, p: Pass)
    requires pattern != [] && p.bestLoc != -1 && Best(o, pattern, text, x, first, p.threshold, p.bestLoc)
    requires (x < p.start && p.bestLoc > o.location) || (p.bestLoc == x && 0 <= x <= o.location)
    requires p.bestLoc > o.location ==> p.start == Max(1, 2 * o.location - p.bestLoc)
    requires Occurs(pattern, text, p.last) && p.score == Exact(o, pattern, p.last) && p.last >= x
    requires forall y :: x <= y < p.last ==> !Occurs(pattern, text, y)
    requires p.last == p.bestLoc || (p.start - 1 <= p.last < p.bestLoc && p.score > p.threshold)
    ensures p.last == LastSeen(o, pattern, text, p.bestLoc)
  {
    if p.last != p.bestLoc && 2 * o.location - p.bestLoc <= p.last {
      ScoreGrows(o, |pattern|, 0, p.last, p.bestLoc);
    }
  }

  /** How the place stands among all occurrences from x on; none farther left is as near. */
  ghost predicate Settled(o: Options, pattern: string, text: string, x: int, bestLoc: int)
    requires pattern != []
  {
    && Occurs(pattern, text, bestLoc) && x <= bestLoc
    && (forall y :: x <= y && Occurs(pattern, text, y) ==>
          && Exact(o, pattern, y) >= Exact(o, pattern, bestLoc)
          && (y < bestLoc ==> Exact(o, pattern, y) > Exact(o, pattern, bestLoc)))
    && (bestLoc > o.location ==> x < Max(1, 2 * o.location - bestLoc))
    && (bestLoc <= o.location ==> x == bestLoc && LeftFair(o, pattern, text, x, bestLoc))
  }

  // ----- the best place by its distance -----

  /** An occurrence that the pass can get to. */
  predicate InReach(o: Options, pattern: string, text: string, y: int) {
    Occurs(pattern, text, y) && o.location - y <= |pattern| + |text|
  }

  /** The place that the pass ends at when distances count: the nearest occurrence, of two the left one, if it is
      within the share of `distance` that the threshold allows. */
  ghost predicate IsNearest(o: Options, pattern: string, text: string, bestLoc: int) {
    if bestLoc == -1 then
      forall y :: InReach(o, pattern, text, y) ==> Off(o, y) as real > o.threshold * o.distance as real
    else
      && Occurs(pattern, text, bestLoc) && Off(o, bestLoc) as real <= o.threshold * o.distance as real
      && forall y :: InReach(o, pattern, text, y) && y != bestLoc ==>
           Off(o, y) > Off(o, bestLoc) || (Off(o, y) == Off(o, bestLoc) && bestLoc < y)
  }

  /** The place when distances do not count: the expected one; with a threshold of 1 or more also the nearest
      occurrence on one side, the left one if it is at most one farther off. */
  ghost predicate IsExpected(o: Options, pattern: string, text: string, bestLoc: int) {
    if bestLoc == -1 then
      o.threshold < 0.0 || forall y :: InReach(o, pattern, text, y) ==> y != o.location && o.threshold < 1.0
    else
      && Occurs(pattern, text, bestLoc) && o.threshold >= 0.0
      && (bestLoc != o.location ==>
            o.threshold >= 1.0 && forall y :: InReach(o, pattern, text, y) ==> Yields(o, y, bestLoc))
  }

  /** With no occurrence at the expected place, one at y does not keep the pass from ending at `bestLoc`. */
  predicate Yields(o: Options, y: int, bestLoc: int) {
    && y != o.location
    && if y < o.location then if bestLoc < o.location then y <= bestLoc else Off(o, y) > Off(o, bestLoc) + 1
       else if bestLoc < o.location then Off(o, bestLoc) <= Off(o, y) + 1 else bestLoc <= y
  }

  lemma ExactByDistance(o: Options, pattern: string, y: int)
    requires pattern != [] && o.distance > 0
    ensures Exact(o, pattern, y) <= o.threshold <==> Off(o, y) as real <= o.threshold * o.distance as real
  {
    ExactIs(o, pattern, y);
    var d := o.distance as real;
    Shares(Exact(o, pattern, y), o.threshold, d, Off(o, y) as real, o.threshold * d);
  }

  lemma NearestFound(o: Options, pattern: string, text: string, x: int, bestLoc: int)
    requires pattern != [] && o.distance > 0 && BestInReach(o, pattern, text, o.threshold, bestLoc)
    requires bestLoc != -1 ==> Settled(o, pattern, text, x, bestLoc)
    ensures IsNearest(o, pattern, text, bestLoc)
  {
    forall y ensures Exact(o, pattern, y) <= o.threshold <==> Off(o, y) as real <= o.threshold * o.distance as real {
      ExactByDistance(o, pattern, y);
    }
    if bestLoc != -1 {
      forall y | InReach(o, pattern, text, y) && y != bestLoc
        ensures Off(o, y) > Off(o, bestLoc) || (Off(o, y) == Off(o, bestLoc) && bestLoc < y)
      {
        NearerScores(o, pattern, bestLoc, y);
        NearerScores(o, pattern, y, bestLoc);
      }
    }
  }

  lemma ExpectedFound(o: Options, pattern: string, text: string, x: int, bestLoc: int)
    requires pattern != [] && o.distance == 0 && BestInReach(o, pattern, text, o.threshold, bestLoc)
    requires bestLoc != -1 ==> Settled(o, pattern, text, x, bestLoc)
    ensures IsExpected(o, pattern, text, bestLoc)
  {
    forall y ensures Exact(o, pattern, y) == if y == o.location then 0.0 else 1.0 {
      ExactIs(o, pattern, y);
    }
    if bestLoc != -1 && bestLoc != o.location {
      forall y | InReach(o, pattern, text, y) ensures Yields(o, y, bestLoc) {
      }
    }
  }

  /** How the pass begins: the stretch to look at, and the threshold. */
  method Begin(o: Options, pattern: string, text: string)
    returns (p: Pass, finish: nat, ghost first: real, ghost binMid: nat)
    requires pattern != []
    ensures Going(o, pattern, text, first, binMid, finish, finish, p)
    ensures p.start >= 1 && p.bestLoc == -1
  {
    var threshold := StartThreshold(o, pattern, text);
    first := threshold;
    var stray := Stray(o, |pattern|, 0, |pattern| + |text|, threshold);
    binMid := stray;
    finish := Min(o.location + stray, |text|) + |pattern|;
    LookedNone(o, pattern, text, first, stray, finish);
    p := Pass(0, Max(1, o.location - stray + 1), threshold, -1, 1.0, -1);
  }

  /** The loop body, at position x. */
  method Step(o: Options, patternLen: nat, matchmask: word, charMatch: word, x: nat, p: Pass) returns (q: Pass)
    requires 1 <= patternLen && matchmask == Pow2(patternLen - 1)
    ensures q == NextPass(o, patternLen, charMatch, x, p)
  {
    var bits: word := And(ShiftIn(p.bits), charMatch);
    q := p.(bits := bits);
    if And(bits, matchmask) != 0 {
      var score := Score(o, patternLen, 0, x);
      q := q.(score := score, last := x);
      if score <= p.threshold {
        q := q.(threshold := score, bestLoc := x);
        if x > o.location {
          q := q.(start := Max(1, 2 * o.location - x));
        }
      }
    }
  }

  /** The first pass of search: the place and score of the best occurrence of the pattern.  The score is
      that of the last occurrence looked at, which may be another one. */
  method ExactPass(o: Options, pattern: string, text: string) returns (bestLoc: int, score: real)
    requires 1 <= |pattern| <= 32
    ensures BestInReach(o, pattern, text, o.threshold, bestLoc)
    ensures if o.distance > 0 then IsNearest(o, pattern, text, bestLoc) else IsExpected(o, pattern, text, bestLoc)
    ensures bestLoc != -1 ==> ScoreByDistance(o, LastSeen(o, pattern, text, bestLoc), bestLoc, score)
    ensures bestLoc == -1 && o.threshold >= 0.0 ==> score == 1.0
  {
    var patternAlphabet := CalculatePatternAlphabet(pattern);
    MatchmaskFits(|pattern|);
    var matchmask: word := Pow2(|pattern| - 1);
    var p, finish;
    ghost var first, binMid;
    p, finish, first, binMid := Begin(o, pattern, text);
    var j := finish;
    while j >= p.start
      invariant 0 <= j <= finish && p.start >= 1 && (p.bestLoc == -1 || p.bestLoc > o.location)
      invariant Going(o, pattern, text, first, binMid, finish, j, p)
      decreases j
    {
      var x := j - 1;
      var charMatch: word := if x < |text| && text[x] in patternAlphabet then patternAlphabet[text[x]] else 0;
      LookedNext(o, pattern, text, first, binMid, finish, x, j, patternAlphabet, p);
      p := Step(o, |pattern|, matchmask, charMatch, x, p);
      j := x;
      if p.bestLoc != -1 && p.bestLoc <= o.location {
        break;
      }
    }
    LookedAll(o, pattern, text, first, binMid, finish, j, p);
    FoundAt(o, pattern, text, j, p.bestLoc);
    ScoreFound(o, pattern, text, p.bestLoc);
    return p.bestLoc, p.score;
  }

  lemma FoundAt(o: Options, pattern: string, text: string, x: int, bestLoc: int)
    requires pattern != [] && BestInReach(o, pattern, text, o.threshold, bestLoc)
    requires bestLoc != -1 ==> Settled(o, pattern, text, x, bestLoc)
    ensures if o.distance > 0 then IsNearest(o, pattern, text, bestLoc) else IsExpected(o, pattern, text, bestLoc)
  {
    if o.distance > 0 {
      NearestFound(o, pattern, text, x, bestLoc);
    } else {
      ExpectedFound(o, pattern, text, x, bestLoc);
    }
  }

  /** The score of the last occurrence looked at, by its distance. */
  ghost predicate ScoreByDistance(o: Options, last: int, bestLoc: int, score: real) {
    if o.distance > 0 then score * o.distance as real == Off(o, last) as real
    else score == if bestLoc == o.location then 0.0 else 1.0
  }

  lemma ScoreFound(o: Options, pattern: string, text: string, bestLoc: int)
    requires pattern != []
    ensures var last := LastSeen(o, pattern, text, bestLoc); ScoreByDistance(o, last, bestLoc, Exact(o, pattern, last))
  {
    ExactIs(o, pattern, LastSeen(o, pattern, text, bestLoc));
  }

  lemma LookedNone(o: Options, pattern: string, text: string, first: real, binMid: nat, finish: int)
    requires pattern != [] && Starts(o, pattern, text, first) && Bounds(o, pattern, text, first, binMid, finish)
    ensures Going(o, pattern, text, first, binMid, finish, finish,
      Pass(0, Max(1, o.location - binMid + 1), first, -1, 1.0, -1))
  {
    NoBits(pattern, text, finish);
    NothingBeyond(o, pattern, text, first, binMid, finish);
  }

  lemma MatchmaskFits(n: nat)
    requires 1 <= n <= 32
    ensures Pow2(n - 1) < 0x1_0000_0000
  {
    Pow2Monotone(n - 1, 31);
    Pow2Of32();
    assert Pow2(32) == 2 * Pow2(31);
  }

  lemma NoBits(pattern: string, text: string, finish: int)
    ensures BitsAre(pattern, text, finish, finish, 0)
  {
    forall k: nat | k < 32 ensures !Bit(0, k) {
      ZeroBits(k);
    }
  }

  lemma NothingBeyond(o: Options, pattern: string, text: string, first: real, binMid: nat, finish: int)
    requires pattern != [] && finish == Min(o.location + binMid, |text|) + |pattern|
    requires forall d: nat :: binMid < d <= |pattern| + |text| ==> !Within(o, |pattern|, 0, first, d)
    ensures Best(o, pattern, text, finish, first, first, -1)
  {
    forall y | finish <= y && Occurs(pattern, text, y) ensures Exact(o, pattern, y) > first {
      BeyondFinish(o, pattern, text, first, binMid, finish, y);
    }
  }

  /** The lowered threshold turns nothing away that the options would let in. */
  lemma StartsFair(o: Options, pattern: string, text: string, first: real, bestLoc: int)
    requires pattern != [] && Starts(o, pattern, text, first) && BestInReach(o, pattern, text, first, bestLoc)
    ensures BestInReach(o, pattern, text, o.threshold, bestLoc)
  {
    if bestLoc == -1 {
      assert first == o.threshold;
    }
  }

  // ----- the matched stretches -----

  ghost predicate Covered(r: seq<(int, int)>, i: int) {
    exists k :: 0 <= k < |r| && r[k].0 <= i <= r[k].1
  }

  /** Stretches in ascending order that neither touch nor overlap. */
  ghost predicate Apart(r: seq<(int, int)>, n: int) {
    && (forall k :: 0 <= k < |r| ==> 0 <= r[k].0 <= r[k].1 < n)
    && (forall k, l :: 0 <= k < l < |r| ==> r[k].1 + 1 < r[l].0)
  }

  lemma CoveredMore(r: seq<(int, int)>, s: (int, int), i: int)
    ensures Covered(r + [s], i) <==> Covered(r, i) || s.0 <= i <= s.1
  {
    var r' := r + [s];
    if Covered(r, i) {
      var k :| 0 <= k < |r| && r[k].0 <= i <= r[k].1;
      assert r'[k] == r[k];
    }
    if s.0 <= i <= s.1 {
      assert r'[|r|] == s;
    }
  }

  ghost predicate Marked(matchMask: seq<bool>, r: seq<(int, int)>, n: int) {
    n <= |matchMask| && forall j :: 0 <= j < n ==> (matchMask[j] <==> Covered(r, j))
  }

  /** A stretch is closed. */
  lemma Closed(matchMask: seq<bool>, r: seq<(int, int)>, start: int, i: int)
    requires 0 <= start < i <= |matchMask| && Apart(r, start - 1) && Marked(matchMask, r, start)
    requires forall j :: start <= j < i ==> matchMask[j]
    ensures Apart(r + [(start, i - 1)], i) && Marked(matchMask, r + [(start, i - 1)], i)
  {
    forall j | 0 <= j < i ensures matchMask[j] <==> Covered(r + [(start, i - 1)], j) {
      CoveredMore(r, (start, i - 1), j);
    }
  }

  /** A new stretch does not touch the last one. */
  lemma Opened(matchMask: seq<bool>, r: seq<(int, int)>, i: int)
    requires 0 <= i < |matchMask| && Apart(r, i) && Marked(matchMask, r, i) && (i > 0 ==> !matchMask[i - 1])
    ensures Apart(r, i - 1)
  {
    forall k | 0 <= k < |r| ensures r[k].1 < i - 1 {
      assert r[k].1 == i - 1 ==> Covered(r, i - 1);
    }
  }

  lemma MarkedMore(matchMask: seq<bool>, r: seq<(int, int)>, i: int)
    requires 0 <= i < |matchMask| && Apart(r, i) && Marked(matchMask, r, i) && !matchMask[i]
    ensures Apart(r, i + 1) && Marked(matchMask, r, i + 1)
  {
    assert !Covered(r, i);
  }

  /** The marked places as maximal stretches, which are determined by this. */
  method GetMatchedIndices(matchMask: seq<bool>) returns (matchedIndices: seq<(int, int)>)
    ensures Apart(matchedIndices, |matchMask|) && Marked(matchMask, matchedIndices, |matchMask|)
  {
    matchedIndices := [];
    var start := -1;
    for i := 0 to |matchMask|
      invariant -1 <= start < i && (start != -1) == (i > 0 && matchMask[i - 1])
      invariant start == -1 ==> Apart(matchedIndices, i) && Marked(matchMask, matchedIndices, i)
      invariant start != -1 ==>
        && Apart(matchedIndices, start - 1) && Marked(matchMask, matchedIndices, start)
        && forall j :: start <= j < i ==> matchMask[j]
    {
      var match_ := matchMask[i];
      if match_ && start == -1 {
        Opened(matchMask, matchedIndices, i);
        start := i;
      } else if !match_ && start != -1 {
        Closed(matchMask, matchedIndices, start, i);
        matchedIndices := matchedIndices + [(start, i - 1)];
        start := -1;
      }
      if !match_ {
        MarkedMore(matchMask, matchedIndices, i);
      }
    }
    if start != -1 {
      Closed(matchMask, matchedIndices, start, |matchMask|);
      matchedIndices := matchedIndices + [(start, |matchMask| - 1)];
    }
  }
}
