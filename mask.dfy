/**
 * Mask evaluation (section 7.8.3 of ISO/IEC 18004:2015). Every byte of the
 * module grid carries the eight mask candidates at once: bit i is the module
 * under mask i. The scorer projects the grid into two byte strings, one line
 * after the other, and scores each candidate on strings built from them with
 * byte-wise string operators: N1 from runs of one colour, N2 from runs of
 * neighbouring equal modules, N3 from the finder-like pattern, N4 from the
 * proportion of dark modules. The lowest score wins; a tie goes to the
 * later candidate.
 */
module Masks {
  import opened Bits

  /** The module grid, indexed [x][y]. */
  type Grid = seq<seq<Byte>>

  predicate IsSquare(g: Grid, side: nat)
  {
    |g| == side && forall x :: 0 <= x < side ==> |g[x]| == side
  }

  /** The byte `chunk_split` puts after every line, and that pads the shifted strings. */
  const Separator: Byte := 170

  /** The bytes g[0][k], g[1][k], ..., g[side - 1][k]. */
  function HorizontalLine(g: Grid, side: nat, k: nat): (line: seq<Byte>)
    requires IsSquare(g, side) && k < side
    ensures |line| == side
  {
    seq(side, l requires 0 <= l < side => g[l][k])
  }

  /** The first `n` horizontal lines, one after the other. */
  function Horizontal(g: Grid, side: nat, n: nat): (h: seq<Byte>)
    requires IsSquare(g, side) && n <= side
    ensures |h| == n * side
  {
    if n == 0 then [] else Horizontal(g, side, n - 1) + HorizontalLine(g, side, n - 1)
  }

  /** The first `n` vertical lines g[0], g[1], ..., one after the other. */
  function Vertical(g: Grid, side: nat, n: nat): (v: seq<Byte>)
    requires IsSquare(g, side) && n <= side
    ensures |v| == n * side
  {
    if n == 0 then [] else Vertical(g, side, n - 1) + g[n - 1]
  }

  /** The projections are the grid read both ways: horizontal[k * side + l] = g[l][k], vertical[k * side + l] = g[k][l]. */
  lemma {:induction false} ProjectionsTranspose(g: Grid, side: nat, n: nat, k: nat, l: nat)
    requires IsSquare(g, side) && k < n <= side && l < side
    ensures k * side + l < n * side
    ensures Horizontal(g, side, n)[k * side + l] == g[l][k]
    ensures Vertical(g, side, n)[k * side + l] == g[k][l]
  {
    assert k * side + l < (k + 1) * side <= n * side by {
      MulMonotone(k + 1, n, side);
    }
    if k < n - 1 {
      ProjectionsTranspose(g, side, n - 1, k, l);
    } else {
      assert (n - 1) * side + l == k * side + l;
    }
  }

  lemma MulMonotone(a: nat, b: nat, c: nat)
    requires a <= b
    ensures a * c <= b * c
  {
  }

  /** The candidate's bit `1 << i`. */
  function MaskBit(i: nat): Byte
    requires i < 8
  {
    Pow2Monotone(i, 7);
    assert Pow2(7) == 128;
    Pow2(i)
  }

  /** `(~bit) & 255`: the byte a dark module becomes once masked and complemented. */
  function DarkByte(i: nat): Byte
    requires i < 8
  {
    255 - MaskBit(i)
  }

  /** `s & str_repeat(chr(bit), n)`: each byte and-ed with the bit, cut to the shorter string. */
  function Select(s: seq<Byte>, n: nat, i: nat): (r: seq<Byte>)
    requires i < 8
    ensures |r| == if |s| <= n then |s| else n
  {
    var m := if |s| <= n then |s| else n;
    seq(m, p requires 0 <= p < m => AndByte(s[p], MaskBit(i)))
  }

  /** `~s`, byte by byte. */
  function Not(s: seq<Byte>): (r: seq<Byte>)
    ensures |r| == |s|
  {
    seq(|s|, p requires 0 <= p < |s| => NotByte(s[p]))
  }

  function OrStrings(a: seq<Byte>, b: seq<Byte>): (r: seq<Byte>)
    requires |a| == |b|
    ensures |r| == |a|
  {
    seq(|a|, p requires 0 <= p < |a| => OrByte(a[p], b[p]))
  }

  function AndStrings(a: seq<Byte>, b: seq<Byte>): (r: seq<Byte>)
    requires |a| == |b|
    ensures |r| == |a|
  {
    seq(|a|, p requires 0 <= p < |a| => AndByte(a[p], b[p]))
  }

  function Repeat(c: Byte, n: nat): (r: seq<Byte>)
    ensures |r| == n
  {
    seq(n, p => c)
  }

  /** PHP `chunk_split`: `sep` after every `n` bytes and after the last, shorter chunk. */
  function ChunkSplit(s: seq<Byte>, n: nat, sep: Byte): seq<Byte>
    requires n > 0
    decreases |s|
  {
    if |s| <= n then s + [sep] else s[..n] + [sep] + ChunkSplit(s[n..], n, sep)
  }

  /** What a finished run of length `run` adds: run - minus when it is at least minLen long. */
  function Close(run: nat, minLen: nat, minus: nat): nat
    requires minus <= minLen
  {
    if run >= minLen then run - minus else 0
  }

  /**
   * The sum over the maximal runs of `c` of Close(length), scanning `s` left
   * to right with `run` copies of `c` just before it: what `preg_match_all`
   * with the greedy pattern `c{minLen,}` and the sum over its matches give.
   */
  function RunSum<T(==)>(s: seq<T>, c: T, minLen: nat, minus: nat, run: nat): nat
    requires minus <= minLen
    decreases |s|
  {
    if s == [] then Close(run, minLen, minus)
    else if s[0] == c then RunSum(s[1..], c, minLen, minus, run + 1)
    else Close(run, minLen, minus) + RunSum(s[1..], c, minLen, minus, 0)
  }

  /** PHP `substr_count`: non-overlapping occurrences of `pat`, leftmost first. */
  function CountOccurrences<T(==)>(s: seq<T>, pat: seq<T>): nat
    requires |pat| > 0
    decreases |s|
  {
    if |s| < |pat| then 0
    else if s[..|pat|] == pat then 1 + CountOccurrences(s[|pat|..], pat)
    else CountOccurrences(s[1..], pat)
  }

  /** Dark, light, dark, dark, dark, light, dark, in the complemented bytes of candidate `i`. */
  function FinderPattern(i: nat): seq<Byte>
    requires i < 8
  {
    var d := DarkByte(i);
    [d, 255, d, d, d, 255, d]
  }

  /** The strings candidate `i` is scored on. */
  datatype Views = Views(lines: seq<Byte>, verOr: seq<Byte>, verAnd: seq<Byte>, verLines: seq<Byte>)

  function BuildViews(horizontalMaster: seq<Byte>, verticalMaster: seq<Byte>, side: nat, i: nat): Views
    requires side > 0 && i < 8
  {
    var hor := Select(horizontalMaster, side * side, i);
    var ver := Select(verticalMaster, side * side, i);
    var verShift1, verShift2 := ver + Repeat(Separator, side), Repeat(Separator, side) + ver;
    var verShift1Zero, verShift2Zero := ver + Repeat(0, side), Repeat(0, side) + ver;
    var verOr := ChunkSplit(Not(OrStrings(verShift1, verShift2)), side, Separator);
    var verAnd := ChunkSplit(Not(AndStrings(verShift1Zero, verShift2Zero)), side, Separator);
    var verLines := ChunkSplit(Not(ver), side, Separator);
    var lines := ChunkSplit(Not(hor), side, Separator) + [Separator] + verLines;
    Views(lines, verOr, verAnd, verLines)
  }

  /** N1: each run of five or more light or dark modules in a line adds its length minus 2. */
  function PenaltyN1(w: Views, i: nat): nat
    requires i < 8
  {
    RunSum(w.lines, 255, 5, 2, 0) + RunSum(w.lines, DarkByte(i), 5, 2, 0)
  }

  /** N2: three times the run lengths minus one of neighbouring equal pairs along a line. */
  function PenaltyN2(w: Views, i: nat): nat
    requires i < 8
  {
    3 * (RunSum(w.verAnd, DarkByte(i), 2, 1, 0) + RunSum(w.verOr, 255, 2, 1, 0))
  }

  /** N3: forty per finder-like pattern in the lines. */
  function PenaltyN3(w: Views, i: nat): nat
    requires i < 8
  {
    40 * CountOccurrences(w.lines, FinderPattern(i))
  }

  /** The distance of the dark proportion from one half, floor(|100 d / B - 50| / 5), times ten. */
  function Balance(dark: nat, byteNumber: nat): nat
    requires byteNumber > 0
  {
    var distance: nat := if 2 * dark >= byteNumber then 100 * dark - 50 * byteNumber else 50 * byteNumber - 100 * dark;
    var den: nat := 5 * byteNumber;
    DivNonNegative(distance, den);
    10 * (distance / den)
  }

  /** N4: the balance of the dark modules against `byteNumber`. */
  function PenaltyN4(w: Views, i: nat, byteNumber: nat): nat
    requires i < 8 && byteNumber > 0
  {
    Balance(CountOccurrences(w.verLines, [DarkByte(i)]), byteNumber)
  }

  function Score(horizontalMaster: seq<Byte>, verticalMaster: seq<Byte>, side: nat, byteNumber: nat, i: nat): nat
    requires side > 0 && byteNumber > 0 && i < 8
  {
    var w := BuildViews(horizontalMaster, verticalMaster, side, i);
    PenaltyN1(w, i) + PenaltyN2(w, i) + PenaltyN3(w, i) + PenaltyN4(w, i, byteNumber)
  }

  /** A module is dark for candidate `i` exactly when bit i of its byte is set; 0 is always light, 255 always dark. */
  lemma DarkIffBit(b: Byte, i: nat)
    requires i < 8
    ensures NotByte(AndByte(b, MaskBit(i))) == if BitOf(b, i) then DarkByte(i) else 255
    ensures DarkByte(i) != 255 && DarkByte(i) != Separator
    ensures !BitOf(0, i) && BitOf(255, i)
  {
    AndPow2(b, i);
    assert Pow2(i) != 85 by {
      if i > 0 {
        assert Pow2(i) == 2 * Pow2(i - 1);
      }
    }
    assert 0 / Pow2(i) == 0;
    assert Pow2(8) == 256;
    LowOnesBit(8, i);
  }

  /** Every bit below `n` of `2^n - 1` is set. */
  lemma {:induction false} LowOnesBit(n: nat, i: nat)
    requires i < n
    ensures BitOf(Pow2(n) - 1, i)
    decreases i
  {
    var x, p := Pow2(n) - 1, Pow2(n - 1);
    assert x == 2 * (p - 1) + 1;
    DivModUnique(x, 2, p - 1, 1);
    if i == 0 {
      assert x / Pow2(0) == x;
    } else {
      DivPow2Succ(x, i - 1);
      LowOnesBit(n - 1, i - 1);
    }
  }

  /** A separator byte ends every run of another byte: the lines are scored independently. */
  lemma {:induction false} SeparatorSplitsRuns(a: seq<Byte>, b: seq<Byte>, sep: Byte, c: Byte, minLen: nat, minus: nat, run: nat)
    requires minus <= minLen && c != sep
    ensures RunSum(a + [sep] + b, c, minLen, minus, run) ==
            RunSum(a, c, minLen, minus, run) + RunSum(b, c, minLen, minus, 0)
    decreases |a|
  {
    var s := a + [sep] + b;
    if a == [] {
      assert s[1..] == b;
    } else {
      assert s[1..] == a[1..] + [sep] + b;
      if a[0] == c {
        SeparatorSplitsRuns(a[1..], b, sep, c, minLen, minus, run + 1);
      } else {
        SeparatorSplitsRuns(a[1..], b, sep, c, minLen, minus, 0);
      }
    }
  }

  /** No occurrence of a pattern free of the separator spans a separator. */
  lemma {:induction false} SeparatorSplitsOccurrences(a: seq<Byte>, b: seq<Byte>, sep: Byte, pat: seq<Byte>)
    requires |pat| > 0 && sep !in pat
    ensures CountOccurrences(a + [sep] + b, pat) == CountOccurrences(a, pat) + CountOccurrences(b, pat)
    decreases |a|
  {
    var s := a + [sep] + b;
    if |a| < |pat| {
      if |s| >= |pat| {
        assert s[..|pat|][|a|] == sep;
        assert s[..|pat|] != pat;
      }
      SkipToSeparator(a, b, sep, pat);
    } else if a[..|pat|] == pat {
      assert s[..|pat|] == pat;
      assert s[|pat|..] == a[|pat|..] + [sep] + b;
      SeparatorSplitsOccurrences(a[|pat|..], b, sep, pat);
    } else {
      assert s[..|pat|] == a[..|pat|];
      assert s[1..] == a[1..] + [sep] + b;
      SeparatorSplitsOccurrences(a[1..], b, sep, pat);
    }
  }

  /** Scanning a prefix shorter than the pattern, then the separator, reaches `b` with no occurrence found. */
  lemma {:induction false} SkipToSeparator(a: seq<Byte>, b: seq<Byte>, sep: Byte, pat: seq<Byte>)
    requires |pat| > 0 && sep !in pat && |a| < |pat|
    ensures CountOccurrences(a + [sep] + b, pat) == CountOccurrences(b, pat)
    decreases |a|
  {
    var s := a + [sep] + b;
    if |s| >= |pat| {
      assert s[..|pat|][|a|] == sep;
      assert s[..|pat|] != pat;
      if a == [] {
        assert s[1..] == b;
      } else {
        assert s[1..] == a[1..] + [sep] + b;
        SkipToSeparator(a[1..], b, sep, pat);
      }
    } else {
      assert |b| < |pat|;
    }
  }

  /** The balance penalty is 0 when the dark count is exactly half of `byteNumber`. */
  lemma BalanceZero(dark: nat, byteNumber: nat)
    requires byteNumber > 0 && 2 * dark == byteNumber
    ensures Balance(dark, byteNumber) == 0
  {
  }

  /** The largest-index minimum is unique: at most one index satisfies the selection contract. */
  lemma LargestArgMinUnique(scores: seq<nat>, a: nat, b: nat)
    requires a < |scores| && b < |scores|
    requires forall j :: 0 <= j < |scores| ==> scores[a] <= scores[j] && scores[b] <= scores[j]
    requires forall j :: a < j < |scores| ==> scores[a] < scores[j]
    requires forall j :: b < j < |scores| ==> scores[b] < scores[j]
    ensures a == b
  {
    assert scores[a] == scores[b];
  }

  /** The selection loop's invariant after `i` candidates: `m` is the last minimal one among them. */
  ghost predicate ChosenAmong(scores: seq<nat>, i: nat, m: nat, min: nat)
    requires i <= |scores|
  {
    (i > 0 ==> m < i && min == scores[m]) &&
    (forall j :: 0 <= j < i ==> min <= scores[j]) &&
    (forall j :: m < j < i ==> min < scores[j])
  }

  /** One step of the selection loop: a score at or below the minimum, or the first one, takes over. */
  lemma ChooseStep(scores: seq<nat>, i: nat, m: nat, min: nat)
    requires i < |scores| && ChosenAmong(scores, i, m, min)
    ensures var take := scores[i] <= min || i == 0;
      ChosenAmong(scores, i + 1, if take then i else m, if take then scores[i] else min)
  {
  }

  /** The scores of the eight candidates on the given projections. */
  function Scores(horizontalMaster: seq<Byte>, verticalMaster: seq<Byte>, side: nat, byteNumber: nat): (s: seq<nat>)
    requires side > 0 && byteNumber > 0
    ensures |s| == 8
  {
    seq(8, i requires 0 <= i < 8 => Score(horizontalMaster, verticalMaster, side, byteNumber, i))
  }

  /**
   * The candidate the selection loop ends with, over the first `n` scores:
   * a later score at or below the running minimum takes over.
   */
  function LastMinimum(scores: seq<nat>, n: nat): (m: nat)
    requires 0 < n <= |scores|
    ensures m < n
    ensures forall j :: 0 <= j < n ==> scores[m] <= scores[j]
    ensures forall j :: m < j < n ==> scores[m] < scores[j]
  {
    if n == 1 then 0
    else
      var m := LastMinimum(scores, n - 1);
      if scores[n - 1] <= scores[m] then n - 1 else m
  }

  /** The mask number `Mask` chooses for a grid. */
  function MaskNumberOf(g: Grid, side: nat, byteNumber: nat): (m: nat)
    requires IsSquare(g, side) && side > 0 && byteNumber > 0
    ensures m < 8
  {
    LastMinimum(Scores(Horizontal(g, side, side), Vertical(g, side, side), side, byteNumber), 8)
  }

  /** Any candidate that meets the selection contract is the one `LastMinimum` names. */
  lemma LastMinimumUnique(scores: seq<nat>, m: nat)
    requires m < |scores|
    requires forall j :: 0 <= j < |scores| ==> scores[m] <= scores[j]
    requires forall j :: m < j < |scores| ==> scores[m] < scores[j]
    ensures m == LastMinimum(scores, |scores|)
  {
    LargestArgMinUnique(scores, m, LastMinimum(scores, |scores|));
  }

  class Mask {
    const matrixContent: Grid
    const maxModulesOneSide: nat
    const byteNumber: nat
    var horizontalMaster: seq<Byte>
    var verticalMaster: seq<Byte>
    var maskNumber: nat

    /** The scores of the eight candidates on the current projections. */
    function CurrentScores(): (s: seq<nat>)
      requires maxModulesOneSide > 0 && byteNumber > 0
      reads this
      ensures |s| == 8
    {
      Scores(horizontalMaster, verticalMaster, maxModulesOneSide, byteNumber)
    }

    /** Stores the grid and its sizes and runs `init`. */
    constructor(matrixContent: Grid, maxModulesOneSide: nat, byteNumber: nat)
      requires IsSquare(matrixContent, maxModulesOneSide) && maxModulesOneSide > 0 && byteNumber > 0
      ensures this.matrixContent == matrixContent && this.maxModulesOneSide == maxModulesOneSide
      ensures this.byteNumber == byteNumber
      ensures horizontalMaster == Horizontal(matrixContent, maxModulesOneSide, maxModulesOneSide)
      ensures verticalMaster == Vertical(matrixContent, maxModulesOneSide, maxModulesOneSide)
      ensures maskNumber < 8
      ensures forall j :: 0 <= j < 8 ==> CurrentScores()[maskNumber] <= CurrentScores()[j]
      ensures forall j :: maskNumber < j < 8 ==> CurrentScores()[maskNumber] < CurrentScores()[j]
    {
      this.matrixContent := matrixContent;
      this.maxModulesOneSide := maxModulesOneSide;
      this.byteNumber := byteNumber;
      horizontalMaster, verticalMaster, maskNumber := [], [], 0;
      new;
      Init();
    }

    method GetNumber() returns (n: nat)
      ensures n == maskNumber
    {
      n := maskNumber;
    }

    method GetSelect() returns (h: seq<Byte>, v: seq<Byte>)
      ensures h == horizontalMaster && v == verticalMaster
    {
      h, v := horizontalMaster, verticalMaster;
    }

    /**
     * Appends the projections, then scores the eight candidates: the first
     * score seeds the minimum, and every later score at or below it takes
     * its place, so the last minimal candidate is chosen.
     */
    method Init()
      requires IsSquare(matrixContent, maxModulesOneSide) && maxModulesOneSide > 0 && byteNumber > 0
      modifies this
      ensures horizontalMaster == old(horizontalMaster) + Horizontal(matrixContent, maxModulesOneSide, maxModulesOneSide)
      ensures verticalMaster == old(verticalMaster) + Vertical(matrixContent, maxModulesOneSide, maxModulesOneSide)
      ensures maskNumber < 8
      ensures forall j :: 0 <= j < 8 ==> CurrentScores()[maskNumber] <= CurrentScores()[j]
      ensures forall j :: maskNumber < j < 8 ==> CurrentScores()[maskNumber] < CurrentScores()[j]
    {
      InitSelect();
      var h, v := horizontalMaster, verticalMaster;
      ghost var scores := Scores(h, v, maxModulesOneSide, byteNumber);
      var i := 0;
      maskNumber := 0;
      var minDemeritScore := 0;
      while i < 8
        invariant 0 <= i <= 8 && h == horizontalMaster && v == verticalMaster
        invariant ChosenAmong(scores, i, maskNumber, minDemeritScore)
      {
        var demeritScore := Score(h, v, maxModulesOneSide, byteNumber, i);
        assert demeritScore == scores[i];
        ChooseStep(scores, i, maskNumber, minDemeritScore);
        if demeritScore <= minDemeritScore || i == 0 {
          maskNumber := i;
          minDemeritScore := demeritScore;
        }
        i := i + 1;
      }
    }

    /** Appends the horizontal and vertical projections of the grid, one byte of each per step. */
    method InitSelect()
      requires IsSquare(matrixContent, maxModulesOneSide)
      modifies this
      ensures horizontalMaster == old(horizontalMaster) + Horizontal(matrixContent, maxModulesOneSide, maxModulesOneSide)
      ensures verticalMaster == old(verticalMaster) + Vertical(matrixContent, maxModulesOneSide, maxModulesOneSide)
      ensures maskNumber == old(maskNumber)
    {
      var side := maxModulesOneSide;
      ghost var h0, v0 := horizontalMaster, verticalMaster;
      var k := 0;
      while k < side
        invariant 0 <= k <= side && maskNumber == old(maskNumber)
        invariant horizontalMaster == h0 + Horizontal(matrixContent, side, k)
        invariant verticalMaster == v0 + Vertical(matrixContent, side, k)
      {
        var l := 0;
        while l < side
          invariant 0 <= l <= side && maskNumber == old(maskNumber)
          invariant horizontalMaster == h0 + Horizontal(matrixContent, side, k) + HorizontalLine(matrixContent, side, k)[..l]
          invariant verticalMaster == v0 + Vertical(matrixContent, side, k) + matrixContent[k][..l]
        {
          assert HorizontalLine(matrixContent, side, k)[..l + 1] == HorizontalLine(matrixContent, side, k)[..l] + [matrixContent[l][k]];
          assert matrixContent[k][..l + 1] == matrixContent[k][..l] + [matrixContent[k][l]];
          horizontalMaster := horizontalMaster + [matrixContent[l][k]];
          verticalMaster := verticalMaster + [matrixContent[k][l]];
          l := l + 1;
        }
        assert HorizontalLine(matrixContent, side, k)[..side] == HorizontalLine(matrixContent, side, k);
        assert matrixContent[k][..side] == matrixContent[k];
        k := k + 1;
      }
    }
  }
}
