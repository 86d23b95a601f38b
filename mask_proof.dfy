/**
 * What the mask scorer's byte strings say about the grid. Under candidate i
 * a module is dark when bit i of its byte is set. The strings `init` builds
 * hold the grid's rows, its columns and its pairs of neighbouring columns,
 * each line closed by the separator. No byte the scorer counts is the
 * separator, so every penalty is a sum over those lines, and each line
 * holds the colours of the grid's modules. The four rules of section 7.8.3
 * of ISO/IEC 18004:2015 are then stated on the grid itself.
 */
module MaskProof {
  import opened Bits
  import opened Masks

  // Lines of colours read off the grid.

  /** The colours of row y, left to right (true is dark). */
  function RowColours(g: Grid, side: nat, y: nat, i: nat): (r: seq<bool>)
    requires IsSquare(g, side) && y < side
    ensures |r| == side
  {
    seq(side, x requires 0 <= x < side => BitOf(g[x][y], i))
  }

  /** The colours of column x, top to bottom. */
  function ColumnColours(g: Grid, side: nat, x: nat, i: nat): (r: seq<bool>)
    requires IsSquare(g, side) && x < side
    ensures |r| == side
  {
    seq(side, y requires 0 <= y < side => BitOf(g[x][y], i))
  }

  function Rows(g: Grid, side: nat, i: nat): (ls: seq<seq<bool>>)
    requires IsSquare(g, side)
    ensures |ls| == side
  {
    seq(side, y requires 0 <= y < side => RowColours(g, side, y, i))
  }

  function Columns(g: Grid, side: nat, i: nat): (ls: seq<seq<bool>>)
    requires IsSquare(g, side)
    ensures |ls| == side
  {
    seq(side, x requires 0 <= x < side => ColumnColours(g, side, x, i))
  }

  /** Down columns x and x + 1: whether the two modules of each row both have colour `dark`. */
  function PairColours(g: Grid, side: nat, x: nat, i: nat, dark: bool): (r: seq<bool>)
    requires IsSquare(g, side) && x + 1 < side
    ensures |r| == side
  {
    seq(side, y requires 0 <= y < side => BitOf(g[x][y], i) == dark && BitOf(g[x + 1][y], i) == dark)
  }

  /** The pair lines of the side - 1 neighbouring column pairs. */
  function Pairs(g: Grid, side: nat, i: nat, dark: bool): (ls: seq<seq<bool>>)
    requires IsSquare(g, side) && side > 0
    ensures |ls| == side - 1
  {
    seq(side - 1, x requires 0 <= x < side - 1 => PairColours(g, side, x, i, dark))
  }

  /** Dark, light, dark, dark, dark, light, dark. */
  const FinderColours: seq<bool> := [true, false, true, true, true, false, true]

  /** The dark modules of columns `lo` onwards. */
  function DarkCellsFrom(g: Grid, side: nat, i: nat, lo: nat): set<(nat, nat)>
    requires IsSquare(g, side)
  {
    set x: nat, y: nat | lo <= x < side && y < side && BitOf(g[x][y], i) :: (x, y)
  }

  /** The dark modules of column x from row `lo` down. */
  function DarkColumnFrom(g: Grid, side: nat, i: nat, x: nat, lo: nat): set<(nat, nat)>
    requires IsSquare(g, side) && x < side
  {
    set y: nat | lo <= y < side && BitOf(g[x][y], i) :: (x, y)
  }

  // Sums over lines.

  /** The run sums of the lines, each line scanned on its own. */
  function LinesRunSum<T(==)>(ls: seq<seq<T>>, c: T, minLen: nat, minus: nat): nat
    requires minus <= minLen
  {
    if ls == [] then 0 else RunSum(ls[0], c, minLen, minus, 0) + LinesRunSum(ls[1..], c, minLen, minus)
  }

  /** The occurrence counts of the lines, each line scanned on its own. */
  function LinesOccurrences<T(==)>(ls: seq<seq<T>>, pat: seq<T>): nat
    requires |pat| > 0
  {
    if ls == [] then 0 else CountOccurrences(ls[0], pat) + LinesOccurrences(ls[1..], pat)
  }

  // The four penalties, read on the grid.

  /** N1: each run of five or more modules of one colour in a row or a column adds its length minus 2. */
  function GridN1(g: Grid, side: nat, i: nat): nat
    requires IsSquare(g, side)
  {
    var rows, columns := Rows(g, side, i), Columns(g, side, i);
    LinesRunSum(rows, false, 5, 2) + LinesRunSum(rows, true, 5, 2) +
    LinesRunSum(columns, false, 5, 2) + LinesRunSum(columns, true, 5, 2)
  }

  /**
   * N2: down each pair of neighbouring columns, each run of two or more rows
   * whose two modules are both dark, or both light, adds three times its
   * length minus 1.
   */
  function GridN2(g: Grid, side: nat, i: nat): nat
    requires IsSquare(g, side) && side > 0
  {
    3 * (LinesRunSum(Pairs(g, side, i, true), true, 2, 1) + LinesRunSum(Pairs(g, side, i, false), true, 2, 1))
  }

  /** N3: forty for each finder-like pattern, counted without overlap, in each row and then each column. */
  function GridN3(g: Grid, side: nat, i: nat): nat
    requires IsSquare(g, side)
  {
    40 * (LinesOccurrences(Rows(g, side, i), FinderColours) + LinesOccurrences(Columns(g, side, i), FinderColours))
  }

  /** N4: the balance of the number of dark modules against `byteNumber`. */
  function GridN4(g: Grid, side: nat, byteNumber: nat, i: nat): nat
    requires IsSquare(g, side) && byteNumber > 0
  {
    Balance(|DarkCellsFrom(g, side, i, 0)|, byteNumber)
  }

  function GridScore(g: Grid, side: nat, byteNumber: nat, i: nat): nat
    requires IsSquare(g, side) && side > 0 && byteNumber > 0
  {
    GridN1(g, side, i) + GridN2(g, side, i) + GridN3(g, side, i) + GridN4(g, side, byteNumber, i)
  }

  // Cutting and joining lines.

  /** The pieces `chunk_split` cuts: `n` entries each, the last one possibly shorter. */
  function Chunks<T>(s: seq<T>, n: nat): seq<seq<T>>
    requires n > 0
    decreases |s|
  {
    if |s| <= n then [s] else [s[..n]] + Chunks(s[n..], n)
  }

  /** The lines, each followed by the separator. */
  function Joined(ls: seq<seq<Byte>>): seq<Byte>
  {
    if ls == [] then [] else ls[0] + [Separator] + Joined(ls[1..])
  }

  /** `chunk_split` is the chunks, each closed by the separator. */
  lemma {:induction false} ChunkSplitJoined(s: seq<Byte>, n: nat)
    requires n > 0
    ensures ChunkSplit(s, n, Separator) == Joined(Chunks(s, n))
    decreases |s|
  {
    if |s| > n {
      ChunkSplitJoined(s[n..], n);
      var ls := [s[..n]] + Chunks(s[n..], n);
      assert ls[1..] == Chunks(s[n..], n);
    }
  }

  /** Cutting `m` lines of `n` entries gives `m` chunks of `n` entries. */
  lemma {:induction false} ChunksShape<T>(s: seq<T>, n: nat, m: nat)
    requires n > 0 && m > 0 && |s| == m * n
    ensures |Chunks(s, n)| == m
    ensures forall k :: 0 <= k < m ==> |Chunks(s, n)[k]| == n
    decreases m
  {
    if m > 1 {
      assert |s[n..]| == (m - 1) * n;
      ChunksShape(s[n..], n, m - 1);
      assert Chunks(s, n) == [s[..n]] + Chunks(s[n..], n);
    }
  }

  /** Entry l of chunk k is entry k·n + l of the cut string. */
  lemma {:induction false} ChunkEntry<T>(s: seq<T>, n: nat, m: nat, k: nat, l: nat)
    requires n > 0 && k < m && l < n && |s| == m * n
    ensures k * n + l < |s| && |Chunks(s, n)| == m && |Chunks(s, n)[k]| == n
    ensures Chunks(s, n)[k][l] == s[k * n + l]
    decreases k
  {
    ChunksShape(s, n, m);
    MulMonotone(k + 1, m, n);
    if k > 0 {
      var rest := s[n..];
      assert |rest| == (m - 1) * n;
      assert Chunks(s, n) == [s[..n]] + Chunks(rest, n);
      ChunkEntry(rest, n, m - 1, k - 1, l);
      assert (k - 1) * n + l + n == k * n + l;
    }
  }

  /** A separator ends every run: the run sum of joined lines is the sum over the lines. */
  lemma {:induction false} JoinedRuns(ls: seq<seq<Byte>>, c: Byte, minLen: nat, minus: nat)
    requires minus <= minLen && c != Separator
    ensures RunSum(Joined(ls), c, minLen, minus, 0) == LinesRunSum(ls, c, minLen, minus)
  {
    if ls != [] {
      SeparatorSplitsRuns(ls[0], Joined(ls[1..]), Separator, c, minLen, minus, 0);
      JoinedRuns(ls[1..], c, minLen, minus);
    }
  }

  /** No occurrence spans a separator: the count in joined lines is the sum over the lines. */
  lemma {:induction false} JoinedOccurrences(ls: seq<seq<Byte>>, pat: seq<Byte>)
    requires |pat| > 0 && Separator !in pat
    ensures CountOccurrences(Joined(ls), pat) == LinesOccurrences(ls, pat)
  {
    if ls != [] {
      SeparatorSplitsOccurrences(ls[0], Joined(ls[1..]), Separator, pat);
      JoinedOccurrences(ls[1..], pat);
    }
  }

  /** Run sums of consecutive groups of lines add up. */
  lemma {:induction false} LinesRunSumAppend<T>(a: seq<seq<T>>, b: seq<seq<T>>, c: T, minLen: nat, minus: nat)
    requires minus <= minLen
    ensures LinesRunSum(a + b, c, minLen, minus) == LinesRunSum(a, c, minLen, minus) + LinesRunSum(b, c, minLen, minus)
  {
    if a == [] {
      assert a + b == b;
    } else {
      assert (a + b)[1..] == a[1..] + b;
      LinesRunSumAppend(a[1..], b, c, minLen, minus);
    }
  }

  /** A line without `c` has run sum 0. */
  lemma {:induction false} RunSumAbsent<T>(s: seq<T>, c: T, minLen: nat, minus: nat)
    requires minus <= minLen && minLen > 0
    requires forall j :: 0 <= j < |s| ==> s[j] != c
    ensures RunSum(s, c, minLen, minus, 0) == 0
    decreases |s|
  {
    if s != [] {
      RunSumAbsent(s[1..], c, minLen, minus);
    }
  }

  /** Scanning past a stretch that ends in another entry: its runs are closed before the rest begins. */
  lemma {:induction false} RunSumAfter<T>(a: seq<T>, rest: seq<T>, c: T, minLen: nat, minus: nat, run: nat)
    requires minus <= minLen && a != [] && a[|a| - 1] != c
    ensures RunSum(a + rest, c, minLen, minus, run) == RunSum(a, c, minLen, minus, run) + RunSum(rest, c, minLen, minus, 0)
    decreases |a|
  {
    var next := if a[0] == c then run + 1 else 0;
    assert (a + rest)[1..] == a[1..] + rest;
    if |a| > 1 {
      RunSumAfter(a[1..], rest, c, minLen, minus, next);
    }
  }

  /** `n` copies of `c`. */
  function Copies<T>(c: T, n: nat): (r: seq<T>)
    ensures |r| == n && forall j :: 0 <= j < n ==> r[j] == c
  {
    if n == 0 then [] else [c] + Copies(c, n - 1)
  }

  /** Scanning a run of `c`: the run grows by its length. */
  lemma {:induction false} RunSumCopies<T>(n: nat, b: seq<T>, c: T, minLen: nat, minus: nat, run: nat)
    requires minus <= minLen
    ensures RunSum(Copies(c, n) + b, c, minLen, minus, run) == RunSum(b, c, minLen, minus, run + n)
    decreases n
  {
    if n == 0 {
      assert Copies(c, n) + b == b;
    } else {
      var s := Copies(c, n) + b;
      assert s[0] == c;
      assert s[1..] == Copies(c, n - 1) + b;
      RunSumCopies(n - 1, b, c, minLen, minus, run + 1);
    }
  }

  /** After a run of `n` copies, an entry other than `c`, or the end, closes it. */
  lemma RunSumClosed<T>(b: seq<T>, c: T, minLen: nat, minus: nat, n: nat)
    requires minus <= minLen && (b == [] || b[0] != c)
    ensures RunSum(b, c, minLen, minus, n) == Close(n, minLen, minus) + RunSum(b, c, minLen, minus, 0)
  {
  }

  /**
   * The run rule: a maximal run of `n` copies of `c` adds Close(n), its
   * length minus `minus` when it is at least `minLen` long, to what the
   * entries around it add.
   */
  lemma MaximalRun<T>(a: seq<T>, n: nat, b: seq<T>, c: T, minLen: nat, minus: nat)
    requires minus <= minLen
    requires a == [] || a[|a| - 1] != c
    requires b == [] || b[0] != c
    ensures RunSum(a + Copies(c, n) + b, c, minLen, minus, 0) ==
            RunSum(a, c, minLen, minus, 0) + Close(n, minLen, minus) + RunSum(b, c, minLen, minus, 0)
  {
    var tail := Copies(c, n) + b;
    RunSumCopies(n, b, c, minLen, minus, 0);
    RunSumClosed(b, c, minLen, minus, n);
    assert RunSum(tail, c, minLen, minus, 0) == Close(n, minLen, minus) + RunSum(b, c, minLen, minus, 0);
    assert a + Copies(c, n) + b == a + tail;
    if a == [] {
      assert a + tail == tail;
      assert RunSum(a, c, minLen, minus, 0) == 0;
    } else {
      RunSumAfter(a, tail, c, minLen, minus, 0);
    }
  }

  // Lines that agree on where the counted entries are.

  /** Run sums see only which entries equal the counted one. */
  lemma {:induction false} RunSumAgree<T, U>(s: seq<T>, c: T, t: seq<U>, d: U, minLen: nat, minus: nat, run: nat)
    requires minus <= minLen && |s| == |t|
    requires forall j :: 0 <= j < |s| ==> (s[j] == c <==> t[j] == d)
    ensures RunSum(s, c, minLen, minus, run) == RunSum(t, d, minLen, minus, run)
    decreases |s|
  {
    if s != [] {
      assert s[0] == c <==> t[0] == d;
      RunSumAgree(s[1..], c, t[1..], d, minLen, minus, if s[0] == c then run + 1 else 0);
    }
  }

  /** Two strings entry by entry equal to their patterns at the same places. */
  lemma SameMatch<T, U>(a: seq<T>, p: seq<T>, b: seq<U>, q: seq<U>)
    requires |a| == |p| == |b| == |q|
    requires forall k :: 0 <= k < |a| ==> (a[k] == p[k] <==> b[k] == q[k])
    ensures a == p <==> b == q
  {
    if a == p {
      assert forall k :: 0 <= k < |b| ==> b[k] == q[k];
    }
    if b == q {
      assert forall k :: 0 <= k < |a| ==> a[k] == p[k];
    }
  }

  /** Occurrence counts see only where the entries match the pattern's. */
  lemma {:induction false} OccurrencesAgree<T, U>(s: seq<T>, pat: seq<T>, t: seq<U>, pat': seq<U>)
    requires |s| == |t| && |pat| == |pat'| > 0
    requires forall j, k :: 0 <= j < |s| && 0 <= k < |pat| ==> (s[j] == pat[k] <==> t[j] == pat'[k])
    ensures CountOccurrences(s, pat) == CountOccurrences(t, pat')
    decreases |s|
  {
    var n := |pat|;
    if |s| >= n {
      SameMatch(s[..n], pat, t[..n], pat');
      if s[..n] == pat {
        OccurrencesAgree(s[n..], pat, t[n..], pat');
      } else {
        OccurrencesAgree(s[1..], pat, t[1..], pat');
      }
    }
  }

  /** Line by line, an entry is `c` exactly where the other line's entry is `d`. */
  ghost predicate LinesAgree<T, U>(ls: seq<seq<T>>, c: T, ms: seq<seq<U>>, d: U)
  {
    |ls| == |ms| &&
    forall k :: 0 <= k < |ls| ==>
      |ls[k]| == |ms[k]| && forall j :: 0 <= j < |ls[k]| ==> (ls[k][j] == c <==> ms[k][j] == d)
  }

  lemma {:induction false} LinesRunSumAgree<T, U>(ls: seq<seq<T>>, c: T, ms: seq<seq<U>>, d: U, minLen: nat, minus: nat)
    requires minus <= minLen && LinesAgree(ls, c, ms, d)
    ensures LinesRunSum(ls, c, minLen, minus) == LinesRunSum(ms, d, minLen, minus)
    decreases |ls|
  {
    if ls != [] {
      RunSumAgree(ls[0], c, ms[0], d, minLen, minus, 0);
      assert LinesAgree(ls[1..], c, ms[1..], d) by {
        forall k | 0 <= k < |ls| - 1
          ensures |ls[1..][k]| == |ms[1..][k]|
          ensures forall j :: 0 <= j < |ls[1..][k]| ==> (ls[1..][k][j] == c <==> ms[1..][k][j] == d)
        {
          assert ls[1..][k] == ls[k + 1] && ms[1..][k] == ms[k + 1];
        }
      }
      LinesRunSumAgree(ls[1..], c, ms[1..], d, minLen, minus);
    }
  }

  /** Byte lines holding the shades of colour lines: dark as the candidate's dark byte, light as 255. */
  ghost predicate Shaded(ls: seq<seq<Byte>>, cs: seq<seq<bool>>, i: nat)
    requires i < 8
  {
    |ls| == |cs| &&
    forall k :: 0 <= k < |ls| ==>
      |ls[k]| == |cs[k]| && forall j :: 0 <= j < |ls[k]| ==> ls[k][j] == if cs[k][j] then DarkByte(i) else 255
  }

  /** Shaded lines agree with their colours on dark and on light entries. */
  lemma ShadedAgree(ls: seq<seq<Byte>>, cs: seq<seq<bool>>, i: nat)
    requires i < 8 && Shaded(ls, cs, i)
    ensures LinesAgree(ls, DarkByte(i), cs, true) && LinesAgree(ls, 255, cs, false)
  {
    DarkIffBit(0, i);
  }

  /** A byte pattern shading a colour pattern is found in shaded lines where the colour pattern is found. */
  lemma {:induction false} ShadedOccurrences(ls: seq<seq<Byte>>, cs: seq<seq<bool>>, i: nat, pat: seq<Byte>, pat': seq<bool>)
    requires i < 8 && Shaded(ls, cs, i)
    requires |pat| == |pat'| > 0 && forall k :: 0 <= k < |pat| ==> pat[k] == if pat'[k] then DarkByte(i) else 255
    ensures LinesOccurrences(ls, pat) == LinesOccurrences(cs, pat')
    decreases |ls|
  {
    if ls != [] {
      DarkIffBit(0, i);
      OccurrencesAgree(ls[0], pat, cs[0], pat');
      assert Shaded(ls[1..], cs[1..], i) by {
        forall k | 0 <= k < |ls| - 1
          ensures |ls[1..][k]| == |cs[1..][k]|
          ensures forall j :: 0 <= j < |ls[1..][k]| ==> ls[1..][k][j] == if cs[1..][k][j] then DarkByte(i) else 255
        {
          assert ls[1..][k] == ls[k + 1] && cs[1..][k] == cs[k + 1];
        }
      }
      ShadedOccurrences(ls[1..], cs[1..], i, pat, pat');
    }
  }

  // The strings `init` builds, cut back into lines.

  /** Entry l of line k of a complemented, selected string cut into lines of `n`. */
  lemma SelectedEntry(h: seq<Byte>, n: nat, m: nat, i: nat, k: nat, l: nat)
    requires n > 0 && i < 8 && k < m && l < n && |h| == m * n
    ensures k * n + l < |h|
    ensures var ls := Chunks(Not(Select(h, m * n, i)), n);
      |ls| == m && |ls[k]| == n && ls[k][l] == NotByte(AndByte(h[k * n + l], MaskBit(i)))
  {
    ChunkEntry(Not(Select(h, m * n, i)), n, m, k, l);
  }

  /** The complemented, selected horizontal projection cut into lines, as `init` scores it. */
  function HorizontalLines(g: Grid, side: nat, i: nat): seq<seq<Byte>>
    requires IsSquare(g, side) && side > 0 && i < 8
  {
    Chunks(Not(Select(Horizontal(g, side, side), side * side, i)), side)
  }

  /** The complemented, selected vertical projection cut into lines. */
  function VerticalLines(g: Grid, side: nat, i: nat): seq<seq<Byte>>
    requires IsSquare(g, side) && side > 0 && i < 8
  {
    Chunks(Not(Select(Vertical(g, side, side), side * side, i)), side)
  }

  /** Entry l of horizontal line k is the shade of module (l, k). */
  lemma RowEntry(g: Grid, side: nat, i: nat, k: nat, l: nat)
    requires IsSquare(g, side) && side > 0 && i < 8 && k < side && l < side
    ensures |HorizontalLines(g, side, i)| == side && |HorizontalLines(g, side, i)[k]| == side
    ensures HorizontalLines(g, side, i)[k][l] == if Rows(g, side, i)[k][l] then DarkByte(i) else 255
  {
    SelectedEntry(Horizontal(g, side, side), side, side, i, k, l);
    ProjectionsTranspose(g, side, side, k, l);
    DarkIffBit(g[l][k], i);
    assert Rows(g, side, i)[k] == RowColours(g, side, k, i);
  }

  /** Entry l of vertical line k is the shade of module (k, l). */
  lemma ColumnEntry(g: Grid, side: nat, i: nat, k: nat, l: nat)
    requires IsSquare(g, side) && side > 0 && i < 8 && k < side && l < side
    ensures |VerticalLines(g, side, i)| == side && |VerticalLines(g, side, i)[k]| == side
    ensures VerticalLines(g, side, i)[k][l] == if Columns(g, side, i)[k][l] then DarkByte(i) else 255
  {
    SelectedEntry(Vertical(g, side, side), side, side, i, k, l);
    ProjectionsTranspose(g, side, side, k, l);
    DarkIffBit(g[k][l], i);
    assert Columns(g, side, i)[k] == ColumnColours(g, side, k, i);
  }

  /** The horizontal lines shade the rows. */
  lemma RowsShaded(g: Grid, side: nat, i: nat)
    requires IsSquare(g, side) && side > 0 && i < 8
    ensures Shaded(HorizontalLines(g, side, i), Rows(g, side, i), i)
  {
    var ls, rows := HorizontalLines(g, side, i), Rows(g, side, i);
    RowEntry(g, side, i, 0, 0);
    forall k | 0 <= k < side
      ensures |ls[k]| == |rows[k]| && forall l :: 0 <= l < |ls[k]| ==> ls[k][l] == if rows[k][l] then DarkByte(i) else 255
    {
      RowEntry(g, side, i, k, 0);
      forall l | 0 <= l < side
        ensures ls[k][l] == if rows[k][l] then DarkByte(i) else 255
      {
        RowEntry(g, side, i, k, l);
      }
    }
  }

  /** The vertical lines shade the columns. */
  lemma ColumnsShaded(g: Grid, side: nat, i: nat)
    requires IsSquare(g, side) && side > 0 && i < 8
    ensures Shaded(VerticalLines(g, side, i), Columns(g, side, i), i)
  {
    var ls, columns := VerticalLines(g, side, i), Columns(g, side, i);
    ColumnEntry(g, side, i, 0, 0);
    forall k | 0 <= k < side
      ensures |ls[k]| == |columns[k]| && forall l :: 0 <= l < |ls[k]| ==> ls[k][l] == if columns[k][l] then DarkByte(i) else 255
    {
      ColumnEntry(g, side, i, k, 0);
      forall l | 0 <= l < side
        ensures ls[k][l] == if columns[k][l] then DarkByte(i) else 255
      {
        ColumnEntry(g, side, i, k, l);
      }
    }
  }

  /** Entry k·side + l of the selected vertical projection is the candidate's bit of module (k, l), or 0. */
  lemma SelectedAt(g: Grid, side: nat, i: nat, k: nat, l: nat)
    requires IsSquare(g, side) && i < 8 && k < side && l < side
    ensures k * side + l < side * side
    ensures Select(Vertical(g, side, side), side * side, i)[k * side + l] == if BitOf(g[k][l], i) then MaskBit(i) else 0
  {
    ProjectionsTranspose(g, side, side, k, l);
    AndPow2(g[k][l], i);
  }

  /** The projection and its copy one line later, padded with `pad`, at entry k·side + l: line k and line k - 1. */
  lemma ShiftedAt(g: Grid, side: nat, i: nat, pad: Byte, k: nat, l: nat)
    requires IsSquare(g, side) && i < 8 && k <= side && l < side
    ensures var ver := Select(Vertical(g, side, side), side * side, i);
      var p := k * side + l;
      p < side * side + side &&
      (ver + Repeat(pad, side))[p] == (if k < side then (if BitOf(g[k][l], i) then MaskBit(i) else 0) else pad) &&
      (Repeat(pad, side) + ver)[p] == (if k == 0 then pad else if BitOf(g[k - 1][l], i) then MaskBit(i) else 0)
  {
    var ver := Select(Vertical(g, side, side), side * side, i);
    var p := k * side + l;
    assert |ver| == side * side;
    if k < side {
      SelectedAt(g, side, i, k, l);
    } else {
      assert p == side * side + l;
    }
    if k > 0 {
      SelectedAt(g, side, i, k - 1, l);
      assert p - side == (k - 1) * side + l;
    }
  }

  /** `~(a | b)` is 255 exactly when both bytes are 0. */
  lemma OrBytes(a: Byte, b: Byte)
    ensures NotByte(OrByte(a, b)) == 255 <==> a == 0 && b == 0
  {
    OrZero(a, b);
  }

  /** For bytes that are 0 or the candidate's bit, `~(a & b)` is the dark byte exactly when both are the bit. */
  lemma AndBytes(a: Byte, b: Byte, i: nat)
    requires i < 8 && (a == 0 || a == MaskBit(i)) && (b == 0 || b == MaskBit(i))
    ensures NotByte(AndByte(a, b)) == DarkByte(i) <==> a == MaskBit(i) && b == MaskBit(i)
  {
    assert MaskBit(i) > 0;
    AndSelf(MaskBit(i));
  }

  /** `~(shift1 | shift2)` is 255 exactly inside the grid where modules (k - 1, l) and (k, l) are both light. */
  lemma OrEntry(g: Grid, side: nat, i: nat, k: nat, l: nat)
    requires IsSquare(g, side) && i < 8 && k <= side && l < side
    ensures var ver := Select(Vertical(g, side, side), side * side, i);
      var s := Not(OrStrings(ver + Repeat(Separator, side), Repeat(Separator, side) + ver));
      |s| == (side + 1) * side && k * side + l < |s| &&
      (s[k * side + l] == 255 <==> 0 < k < side && !BitOf(g[k - 1][l], i) && !BitOf(g[k][l], i))
  {
    var ver := Select(Vertical(g, side, side), side * side, i);
    var x, y := ver + Repeat(Separator, side), Repeat(Separator, side) + ver;
    var p := k * side + l;
    ShiftedAt(g, side, i, Separator, k, l);
    assert (side + 1) * side == side * side + side;
    var s := Not(OrStrings(x, y));
    assert s[p] == NotByte(OrByte(x[p], y[p]));
    OrBytes(x[p], y[p]);
  }

  /** `~(shift1 & shift2)` is the dark byte exactly inside the grid where modules (k - 1, l) and (k, l) are both dark. */
  lemma AndEntry(g: Grid, side: nat, i: nat, k: nat, l: nat)
    requires IsSquare(g, side) && i < 8 && k <= side && l < side
    ensures var ver := Select(Vertical(g, side, side), side * side, i);
      var s := Not(AndStrings(ver + Repeat(0, side), Repeat(0, side) + ver));
      |s| == (side + 1) * side && k * side + l < |s| &&
      (s[k * side + l] == DarkByte(i) <==> 0 < k < side && BitOf(g[k - 1][l], i) && BitOf(g[k][l], i))
  {
    var ver := Select(Vertical(g, side, side), side * side, i);
    var x, y := ver + Repeat(0, side), Repeat(0, side) + ver;
    var p := k * side + l;
    ShiftedAt(g, side, i, 0, k, l);
    assert (side + 1) * side == side * side + side;
    var s := Not(AndStrings(x, y));
    assert s[p] == NotByte(AndByte(x[p], y[p]));
    AndBytes(x[p], y[p], i);
  }

  /** Lines that hold `c` only inside, where the pair lines are true, have the pair lines' run sum. */
  lemma PairRuns(g: Grid, side: nat, i: nat, ls: seq<seq<Byte>>, c: Byte, dark: bool)
    requires IsSquare(g, side) && side > 0
    requires |ls| == side + 1 && forall k :: 0 <= k <= side ==> |ls[k]| == side
    requires forall k, l :: 0 <= k <= side && 0 <= l < side ==>
      (ls[k][l] == c <==> 0 < k < side && Pairs(g, side, i, dark)[k - 1][l])
    ensures LinesRunSum(ls, c, 2, 1) == LinesRunSum(Pairs(g, side, i, dark), true, 2, 1)
  {
    var inner := ls[1..side];
    assert ls == [ls[0]] + inner + [ls[side]];
    LinesRunSumAppend([ls[0]] + inner, [ls[side]], c, 2, 1);
    LinesRunSumAppend([ls[0]], inner, c, 2, 1);
    RunSumAbsent(ls[0], c, 2, 1);
    RunSumAbsent(ls[side], c, 2, 1);
    assert LinesAgree(inner, c, Pairs(g, side, i, dark), true) by {
      forall k | 0 <= k < side - 1
        ensures |inner[k]| == |Pairs(g, side, i, dark)[k]|
        ensures forall j :: 0 <= j < |inner[k]| ==> (inner[k][j] == c <==> Pairs(g, side, i, dark)[k][j] == true)
      {
        assert inner[k] == ls[k + 1];
      }
    }
    LinesRunSumAgree(inner, c, Pairs(g, side, i, dark), true, 2, 1);
  }

  /** The column pairs both light are the runs of 255 the scorer finds in `ver_or`. */
  lemma OrPairs(g: Grid, side: nat, i: nat)
    requires IsSquare(g, side) && side > 0 && i < 8
    ensures RunSum(BuildViews(Horizontal(g, side, side), Vertical(g, side, side), side, i).verOr, 255, 2, 1, 0) ==
            LinesRunSum(Pairs(g, side, i, false), true, 2, 1)
  {
    var ver := Select(Vertical(g, side, side), side * side, i);
    var s := Not(OrStrings(ver + Repeat(Separator, side), Repeat(Separator, side) + ver));
    OrEntry(g, side, i, 0, 0);
    ChunkSplitJoined(s, side);
    JoinedRuns(Chunks(s, side), 255, 2, 1);
    ChunksShape(s, side, side + 1);
    forall k, l | 0 <= k <= side && 0 <= l < side
      ensures Chunks(s, side)[k][l] == 255 <==> 0 < k < side && Pairs(g, side, i, false)[k - 1][l]
    {
      ChunkEntry(s, side, side + 1, k, l);
      OrEntry(g, side, i, k, l);
    }
    PairRuns(g, side, i, Chunks(s, side), 255, false);
  }

  /** The column pairs both dark are the runs of the dark byte the scorer finds in `ver_and`. */
  lemma AndPairs(g: Grid, side: nat, i: nat)
    requires IsSquare(g, side) && side > 0 && i < 8
    ensures RunSum(BuildViews(Horizontal(g, side, side), Vertical(g, side, side), side, i).verAnd, DarkByte(i), 2, 1, 0) ==
            LinesRunSum(Pairs(g, side, i, true), true, 2, 1)
  {
    var ver := Select(Vertical(g, side, side), side * side, i);
    var s := Not(AndStrings(ver + Repeat(0, side), Repeat(0, side) + ver));
    AndEntry(g, side, i, 0, 0);
    DarkIffBit(0, i);
    ChunkSplitJoined(s, side);
    JoinedRuns(Chunks(s, side), DarkByte(i), 2, 1);
    ChunksShape(s, side, side + 1);
    forall k, l | 0 <= k <= side && 0 <= l < side
      ensures Chunks(s, side)[k][l] == DarkByte(i) <==> 0 < k < side && Pairs(g, side, i, true)[k - 1][l]
    {
      ChunkEntry(s, side, side + 1, k, l);
      AndEntry(g, side, i, k, l);
    }
    PairRuns(g, side, i, Chunks(s, side), DarkByte(i), true);
  }

  /** The scorer's line strings are the horizontal lines, then the vertical lines, each closed by the separator. */
  lemma ViewsLines(g: Grid, side: nat, i: nat)
    requires IsSquare(g, side) && side > 0 && i < 8
    ensures var w := BuildViews(Horizontal(g, side, side), Vertical(g, side, side), side, i);
      w.verLines == Joined(VerticalLines(g, side, i)) &&
      w.lines == Joined(HorizontalLines(g, side, i)) + [Separator] + Joined(VerticalLines(g, side, i))
  {
    ChunkSplitJoined(Not(Select(Horizontal(g, side, side), side * side, i)), side);
    ChunkSplitJoined(Not(Select(Vertical(g, side, side), side * side, i)), side);
  }

  /** The run sum of `c` in the lines: rows and columns, each scanned on its own. */
  lemma ViewsRuns(g: Grid, side: nat, i: nat, c: Byte, dark: bool)
    requires IsSquare(g, side) && side > 0 && i < 8
    requires c == if dark then DarkByte(i) else 255
    ensures RunSum(BuildViews(Horizontal(g, side, side), Vertical(g, side, side), side, i).lines, c, 5, 2, 0) ==
            LinesRunSum(Rows(g, side, i), dark, 5, 2) + LinesRunSum(Columns(g, side, i), dark, 5, 2)
  {
    var hs, vs := HorizontalLines(g, side, i), VerticalLines(g, side, i);
    ViewsLines(g, side, i);
    DarkIffBit(0, i);
    SeparatorSplitsRuns(Joined(hs), Joined(vs), Separator, c, 5, 2, 0);
    JoinedRuns(hs, c, 5, 2);
    JoinedRuns(vs, c, 5, 2);
    RowsShaded(g, side, i);
    ColumnsShaded(g, side, i);
    ShadedAgree(hs, Rows(g, side, i), i);
    ShadedAgree(vs, Columns(g, side, i), i);
    LinesRunSumAgree(hs, c, Rows(g, side, i), dark, 5, 2);
    LinesRunSumAgree(vs, c, Columns(g, side, i), dark, 5, 2);
  }

  /** N1 of the scorer is N1 of the grid. */
  lemma PenaltyN1OnGrid(g: Grid, side: nat, i: nat)
    requires IsSquare(g, side) && side > 0 && i < 8
    ensures PenaltyN1(BuildViews(Horizontal(g, side, side), Vertical(g, side, side), side, i), i) == GridN1(g, side, i)
  {
    ViewsRuns(g, side, i, 255, false);
    ViewsRuns(g, side, i, DarkByte(i), true);
  }

  /** N2 of the scorer is N2 of the grid. */
  lemma PenaltyN2OnGrid(g: Grid, side: nat, i: nat)
    requires IsSquare(g, side) && side > 0 && i < 8
    ensures PenaltyN2(BuildViews(Horizontal(g, side, side), Vertical(g, side, side), side, i), i) == GridN2(g, side, i)
  {
    OrPairs(g, side, i);
    AndPairs(g, side, i);
  }

  /** N3 of the scorer is N3 of the grid. */
  lemma PenaltyN3OnGrid(g: Grid, side: nat, i: nat)
    requires IsSquare(g, side) && side > 0 && i < 8
    ensures PenaltyN3(BuildViews(Horizontal(g, side, side), Vertical(g, side, side), side, i), i) == GridN3(g, side, i)
  {
    var hs, vs, pat := HorizontalLines(g, side, i), VerticalLines(g, side, i), FinderPattern(i);
    ViewsLines(g, side, i);
    DarkIffBit(0, i);
    assert Separator !in pat;
    SeparatorSplitsOccurrences(Joined(hs), Joined(vs), Separator, pat);
    JoinedOccurrences(hs, pat);
    JoinedOccurrences(vs, pat);
    RowsShaded(g, side, i);
    ColumnsShaded(g, side, i);
    ShadedOccurrences(hs, Rows(g, side, i), i, pat, FinderColours);
    ShadedOccurrences(vs, Columns(g, side, i), i, pat, FinderColours);
  }

  /** N4 of the scorer is N4 of the grid: it counts the dark modules. */
  lemma PenaltyN4OnGrid(g: Grid, side: nat, byteNumber: nat, i: nat)
    requires IsSquare(g, side) && side > 0 && byteNumber > 0 && i < 8
    ensures PenaltyN4(BuildViews(Horizontal(g, side, side), Vertical(g, side, side), side, i), i, byteNumber) ==
            GridN4(g, side, byteNumber, i)
  {
    var vs := VerticalLines(g, side, i);
    ViewsLines(g, side, i);
    DarkIffBit(0, i);
    JoinedOccurrences(vs, [DarkByte(i)]);
    ColumnsShaded(g, side, i);
    ShadedOccurrences(vs, Columns(g, side, i), i, [DarkByte(i)], [true]);
    DarkCount(g, side, i, 0);
    assert Columns(g, side, i)[0..] == Columns(g, side, i);
  }

  /** The dark entries of column x from row `lo` down are the dark modules there. */
  lemma {:induction false} DarkColumnCount(g: Grid, side: nat, i: nat, x: nat, lo: nat)
    requires IsSquare(g, side) && x < side && lo <= side
    ensures CountOccurrences(ColumnColours(g, side, x, i)[lo..], [true]) == |DarkColumnFrom(g, side, i, x, lo)|
    decreases side - lo
  {
    var col := ColumnColours(g, side, x, i);
    if lo == side {
      assert DarkColumnFrom(g, side, i, x, lo) == {};
    } else {
      var t := col[lo..];
      assert t[..1] == [col[lo]];
      assert t[1..] == col[lo + 1..];
      DarkColumnCount(g, side, i, x, lo + 1);
      var rest := DarkColumnFrom(g, side, i, x, lo + 1);
      assert (x, lo) !in rest;
      if BitOf(g[x][lo], i) {
        assert DarkColumnFrom(g, side, i, x, lo) == rest + {(x, lo)};
      } else {
        assert DarkColumnFrom(g, side, i, x, lo) == rest;
      }
    }
  }

  /** The dark entries of columns `lo` onwards are the dark modules there. */
  lemma {:induction false} DarkCount(g: Grid, side: nat, i: nat, lo: nat)
    requires IsSquare(g, side) && lo <= side
    ensures LinesOccurrences(Columns(g, side, i)[lo..], [true]) == |DarkCellsFrom(g, side, i, lo)|
    decreases side - lo
  {
    var cols := Columns(g, side, i);
    if lo == side {
      assert DarkCellsFrom(g, side, i, lo) == {};
    } else {
      assert cols[lo..][0] == ColumnColours(g, side, lo, i) == ColumnColours(g, side, lo, i)[0..];
      assert cols[lo..][1..] == cols[lo + 1..];
      DarkColumnCount(g, side, i, lo, 0);
      DarkCount(g, side, i, lo + 1);
      var rest, column := DarkCellsFrom(g, side, i, lo + 1), DarkColumnFrom(g, side, i, lo, 0);
      assert rest !! column;
      assert DarkCellsFrom(g, side, i, lo) == rest + column;
    }
  }

  /** The scorer's score of candidate i is the score of the grid. */
  lemma ScoreOnGrid(g: Grid, side: nat, byteNumber: nat, i: nat)
    requires IsSquare(g, side) && side > 0 && byteNumber > 0 && i < 8
    ensures Score(Horizontal(g, side, side), Vertical(g, side, side), side, byteNumber, i) == GridScore(g, side, byteNumber, i)
  {
    PenaltyN1OnGrid(g, side, i);
    PenaltyN2OnGrid(g, side, i);
    PenaltyN3OnGrid(g, side, i);
    PenaltyN4OnGrid(g, side, byteNumber, i);
  }

  /** The eight scores of the grid. */
  function GridScores(g: Grid, side: nat, byteNumber: nat): (s: seq<nat>)
    requires IsSquare(g, side) && side > 0 && byteNumber > 0
    ensures |s| == 8
  {
    seq(8, i requires 0 <= i < 8 => GridScore(g, side, byteNumber, i))
  }

  /** The chosen mask is the last of the candidates with the lowest grid score. */
  lemma MaskNumberOnGrid(g: Grid, side: nat, byteNumber: nat)
    requires IsSquare(g, side) && side > 0 && byteNumber > 0
    ensures Scores(Horizontal(g, side, side), Vertical(g, side, side), side, byteNumber) == GridScores(g, side, byteNumber)
    ensures MaskNumberOf(g, side, byteNumber) == LastMinimum(GridScores(g, side, byteNumber), 8)
  {
    forall i | 0 <= i < 8
      ensures Scores(Horizontal(g, side, side), Vertical(g, side, side), side, byteNumber)[i] == GridScores(g, side, byteNumber)[i]
    {
      ScoreOnGrid(g, side, byteNumber, i);
    }
  }
}
