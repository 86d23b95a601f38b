/**
 * The symbol grid: `getMatrixContent` places the codeword and remainder bits
 * at the coordinates the version's data file lists, each XOR-ed with its
 * mask byte, and `formatInformation` writes the two copies of the 15-bit
 * format word.
 *
 * A grid byte carries all eight mask candidates at once: bit t of a cell is
 * the module's colour under mask t. The grid is indexed [x][y] as in the
 * source.
 */
module Matrix {
  import opened Bits
  import opened Masks
  import opened Codewords

  // ---------------------------------------------------------------------
  // Writes into a grid
  // ---------------------------------------------------------------------

  /** The assignment `$matrix_content[x][y] = v`. */
  datatype Write = Write(x: nat, y: nat, v: Byte)

  /** One assignment; the grid keeps its shape. */
  function Assign(g: Grid, w: Write): (r: Grid)
    ensures |r| == |g| && forall x :: 0 <= x < |g| ==> |r[x]| == |g[x]|
  {
    if w.x < |g| && w.y < |g[w.x]| then
      var row: seq<Byte> := g[w.x][w.y := w.v];
      g[w.x := row]
    else g
  }

  /** Only cell [w.x][w.y] changes. */
  lemma AssignCell(g: Grid, w: Write, x: nat, y: nat)
    requires x < |g| && y < |g[x]|
    ensures Assign(g, w)[x][y] == if x == w.x && y == w.y then w.v else g[x][y]
  {
  }

  /** The assignments `ws` carried out in order. */
  function Apply(g: Grid, ws: seq<Write>): (r: Grid)
    ensures |r| == |g| && forall x :: 0 <= x < |g| ==> |r[x]| == |g[x]|
  {
    if ws == [] then g else Assign(Apply(g, ws[..|ws| - 1]), ws[|ws| - 1])
  }

  /** Carrying out one more assignment. */
  lemma ApplySnoc(g: Grid, ws: seq<Write>, w: Write)
    ensures Apply(g, ws + [w]) == Assign(Apply(g, ws), w)
  {
    assert (ws + [w])[..|ws|] == ws;
  }

  /** One more in-place assignment inside a square grid continues the run of assignments. */
  lemma ApplyStep(g0: Grid, ws: seq<Write>, w: Write, g: Grid, side: nat, row: seq<Byte>)
    requires g == Apply(g0, ws) && IsSquare(g, side)
    requires w.x < side && w.y < side && row == g[w.x][w.y := w.v]
    ensures g[w.x := row] == Apply(g0, ws + [w]) && IsSquare(g[w.x := row], side)
  {
    ApplySnoc(g0, ws, w);
  }

  /** A cell no assignment names keeps its value. */
  lemma {:induction false} ApplyMiss(g: Grid, ws: seq<Write>, x: nat, y: nat)
    requires x < |g| && y < |g[x]|
    requires forall k :: 0 <= k < |ws| ==> !(ws[k].x == x && ws[k].y == y)
    ensures Apply(g, ws)[x][y] == g[x][y]
  {
    if ws != [] {
      ApplyMiss(g, ws[..|ws| - 1], x, y);
      AssignCell(Apply(g, ws[..|ws| - 1]), ws[|ws| - 1], x, y);
    }
  }

  /** A cell holds the value of the last assignment that names it. */
  lemma {:induction false} ApplyHit(g: Grid, ws: seq<Write>, k: nat)
    requires k < |ws| && ws[k].x < |g| && ws[k].y < |g[ws[k].x]|
    requires forall j :: k < j < |ws| ==> !(ws[j].x == ws[k].x && ws[j].y == ws[k].y)
    ensures Apply(g, ws)[ws[k].x][ws[k].y] == ws[k].v
  {
    var init := ws[..|ws| - 1];
    if k < |ws| - 1 {
      assert init[k] == ws[k];
      ApplyHit(g, init, k);
    }
    AssignCell(Apply(g, init), ws[|ws| - 1], ws[k].x, ws[k].y);
  }

  // ---------------------------------------------------------------------
  // The blank grid
  // ---------------------------------------------------------------------

  function ZeroRow(n: nat): (row: seq<Byte>)
    ensures |row| == n && forall y :: 0 <= y < n ==> row[y] == 0
  {
    seq(n, _ => 0)
  }

  /** The side x side grid of zeros. */
  function Blank(side: nat): (g: Grid)
    ensures IsSquare(g, side)
  {
    seq(side, _ => ZeroRow(side))
  }

  lemma BlankCell(side: nat, x: nat, y: nat)
    requires x < side && y < side
    ensures Blank(side)[x][y] == 0
  {
  }

  /**
   * The first loops of `getMatrixContent`: for each column i, every row j
   * gets `$matrix_content[$j][$i] = 0`. The rows PHP creates on first use
   * are present from the start, empty.
   */
  method FlashMatrix(side: nat) returns (g: Grid)
    ensures g == Blank(side)
  {
    g := seq(side, _ => []);
    var i := 0;
    while i < side
      invariant 0 <= i <= side && |g| == side
      invariant forall r :: 0 <= r < side ==> g[r] == ZeroRow(i)
    {
      var j := 0;
      while j < side
        invariant 0 <= j <= side && |g| == side
        invariant forall r :: 0 <= r < side ==> g[r] == ZeroRow(if r < j then i + 1 else i)
      {
        assert ZeroRow(i) + [0] == ZeroRow(i + 1);
        g := g[j := g[j] + [0]];
        j := j + 1;
      }
      i := i + 1;
    }
    assert forall r :: 0 <= r < side ==> g[r] == Blank(side)[r];
  }

  // ---------------------------------------------------------------------
  // The version's data file
  // ---------------------------------------------------------------------

  /**
   * The tables of `qrv<version>_<ecc>.dat`: the placement coordinates and
   * mask bytes of the codeword and remainder modules (position p, counted
   * from 1, is entry p - 1), the coordinates of the second format-word
   * copy, the error-correction codewords per block and the block sizes.
   */
  datatype Layout = Layout(
    matX: seq<Byte>, matY: seq<Byte>, masks: seq<Byte>,
    fiX: seq<Byte>, fiY: seq<Byte>,
    rsEccCodewords: Byte, order: seq<Byte>)

  /** The placement tables have `n` entries or more. */
  predicate Covers(lay: Layout, n: nat)
  {
    |lay.matX| >= n && |lay.matY| >= n && |lay.masks| >= n
  }

  /** The first `n` placement coordinates lie in the side x side grid. */
  predicate InSquare(lay: Layout, n: nat, side: nat)
    requires Covers(lay, n)
  {
    forall q :: 0 <= q < n ==> lay.matX[q] < side && lay.matY[q] < side
  }

  /** The first `n` placement coordinates name `n` different cells. */
  predicate DistinctCells(lay: Layout, n: nat)
    requires Covers(lay, n)
  {
    forall a, b :: 0 <= a < b < n ==> lay.matX[a] != lay.matX[b] || lay.matY[a] != lay.matY[b]
  }

  // ---------------------------------------------------------------------
  // Placement of the codeword and remainder bits
  // ---------------------------------------------------------------------

  /**
   * The position written at step `k`: codeword i covers positions 8i + 8
   * down to 8i + 1, then the remainder positions follow from the last one
   * down.
   */
  function Position(maxCodewords: nat, remain: nat, k: nat): (p: nat)
    requires k < 8 * maxCodewords + remain
    ensures 1 <= p <= 8 * maxCodewords + remain
    ensures p <= 8 * maxCodewords <==> k < 8 * maxCodewords
  {
    if k < 8 * maxCodewords then 8 * (k / 8) + 8 - k % 8
    else 8 * maxCodewords + remain - (k - 8 * maxCodewords)
  }

  /** The step at which position `p` is written. */
  function StepOf(maxCodewords: nat, remain: nat, p: nat): (k: nat)
    requires 1 <= p <= 8 * maxCodewords + remain
    ensures k < 8 * maxCodewords + remain && Position(maxCodewords, remain, k) == p
  {
    if p <= 8 * maxCodewords then
      var q, r := (p - 1) / 8, (p - 1) % 8;
      DivModUnique(8 * q + 7 - r, 8, q, 7 - r);
      8 * q + 7 - r
    else 8 * maxCodewords + (8 * maxCodewords + remain - p)
  }

  /** Every position is written at exactly one step. */
  lemma PositionInjective(maxCodewords: nat, remain: nat, k: nat)
    requires k < 8 * maxCodewords + remain
    ensures StepOf(maxCodewords, remain, Position(maxCodewords, remain, k)) == k
  {
    var p := Position(maxCodewords, remain, k);
    if k < 8 * maxCodewords {
      var q, r := k / 8, k % 8;
      assert p - 1 == 8 * q + (7 - r);
      DivModUnique(p - 1, 8, q, 7 - r);
    }
  }

  /** Bit t of codeword i; a codeword past the end reads as 0, as PHP's null does. */
  function CodewordBit(codewords: seq<nat>, i: nat, t: nat): (b: nat)
    ensures b < 2
  {
    Shr(Get(codewords, i), t) % 2
  }

  /**
   * The byte at position p: for a codeword position, 255 times the
   * codeword's bit (bit 7 at 8i + 1 down to bit 0 at 8i + 8) XOR the mask
   * byte; for a remainder position, 255 XOR the mask byte.
   */
  function PositionValue(codewords: seq<nat>, lay: Layout, maxCodewords: nat, p: nat): Byte
    requires 1 <= p <= |lay.masks|
  {
    if p <= 8 * maxCodewords then
      XorByte(255 * CodewordBit(codewords, (p - 1) / 8, 7 - (p - 1) % 8), lay.masks[p - 1])
    else XorByte(255, lay.masks[p - 1])
  }

  function PlacementWrite(codewords: seq<nat>, lay: Layout, maxCodewords: nat, p: nat): Write
    requires 1 <= p && Covers(lay, p)
  {
    Write(lay.matX[p - 1], lay.matY[p - 1], PositionValue(codewords, lay, maxCodewords, p))
  }

  /** The first `n` assignments of `getMatrixContent`, in the order it makes them. */
  function PlacementWrites(codewords: seq<nat>, lay: Layout, maxCodewords: nat, remain: nat, n: nat): (ws: seq<Write>)
    requires n <= 8 * maxCodewords + remain && Covers(lay, 8 * maxCodewords + remain)
    ensures |ws| == n
  {
    if n == 0 then []
    else
      PlacementWrites(codewords, lay, maxCodewords, remain, n - 1) +
      [PlacementWrite(codewords, lay, maxCodewords, Position(maxCodewords, remain, n - 1))]
  }

  /** Assignment k of the run writes the byte of the position of step k. */
  lemma {:induction false} PlacementWritesAt(codewords: seq<nat>, lay: Layout, maxCodewords: nat, remain: nat, n: nat, k: nat)
    requires n <= 8 * maxCodewords + remain && Covers(lay, 8 * maxCodewords + remain) && k < n
    ensures PlacementWrites(codewords, lay, maxCodewords, remain, n)[k] ==
      PlacementWrite(codewords, lay, maxCodewords, Position(maxCodewords, remain, k))
  {
    if k < n - 1 {
      PlacementWritesAt(codewords, lay, maxCodewords, remain, n - 1, k);
    }
  }

  /** The grid `getMatrixContent` returns. */
  function MatrixContent(codewords: seq<nat>, lay: Layout, side: nat, maxCodewords: nat, remain: nat): (g: Grid)
    requires Covers(lay, 8 * maxCodewords + remain)
    ensures IsSquare(g, side)
  {
    Apply(Blank(side), PlacementWrites(codewords, lay, maxCodewords, remain, 8 * maxCodewords + remain))
  }

  /** `$codeword_i & 1` is the lowest bit. */
  lemma AndOne(c: nat)
    ensures And(c, 1) == c % 2
  {
    AndLowMask(c, 1);
    assert Pow2(1) == 2;
  }

  /** Step k = 8i + 8 - j of the codeword loop writes position 8i + j with bit 8 - j of codeword i. */
  lemma CodewordStep(codewords: seq<nat>, lay: Layout, maxCodewords: nat, remain: nat, i: nat, j: nat, k: nat, pos: nat, c: nat)
    requires Covers(lay, 8 * maxCodewords + remain)
    requires i < maxCodewords && 1 <= j <= 8 && k == 8 * i + 8 - j && pos == 8 * i + j
    requires c == Shr(Get(codewords, i), 8 - j)
    ensures k < 8 * maxCodewords && 1 <= pos <= 8 * maxCodewords && And(c, 1) < 2
    ensures PlacementWrites(codewords, lay, maxCodewords, remain, k + 1) ==
      PlacementWrites(codewords, lay, maxCodewords, remain, k) +
      [Write(lay.matX[pos - 1], lay.matY[pos - 1], XorByte(255 * And(c, 1), lay.masks[pos - 1]))]
  {
    DivModUnique(k, 8, i, 8 - j);
    assert Position(maxCodewords, remain, k) == pos;
    DivModUnique(pos - 1, 8, i, j - 1);
    AndOne(c);
  }

  /** Step k = 8M + R - m of the remainder loop writes position m + 8M with 255. */
  lemma RemainderStep(codewords: seq<nat>, lay: Layout, maxCodewords: nat, remain: nat, m: nat, k: nat, pos: nat)
    requires Covers(lay, 8 * maxCodewords + remain) && 1 <= m <= remain
    requires k == 8 * maxCodewords + remain - m && pos == m + 8 * maxCodewords
    ensures 1 <= pos <= 8 * maxCodewords + remain
    ensures PlacementWrites(codewords, lay, maxCodewords, remain, k + 1) ==
      PlacementWrites(codewords, lay, maxCodewords, remain, k) +
      [Write(lay.matX[pos - 1], lay.matY[pos - 1], XorByte(255, lay.masks[pos - 1]))]
  {
  }

  /** One pass of the remainder loop body extends the applied prefix by one write. */
  lemma PlaceRemainderBit(codewords: seq<nat>, lay: Layout, side: nat, maxCodewords: nat, remain: nat, m: nat, k: nat, k': nat, pos: nat, matrix: Grid, row: seq<Byte>)
    requires Covers(lay, 8 * maxCodewords + remain) && InSquare(lay, 8 * maxCodewords + remain, side)
    requires 1 <= m <= remain && k == 8 * maxCodewords + remain - m && pos == m + 8 * maxCodewords && k' == k + 1
    requires IsSquare(matrix, side)
    requires matrix == Apply(Blank(side), PlacementWrites(codewords, lay, maxCodewords, remain, k))
    requires row == matrix[lay.matX[pos - 1]][lay.matY[pos - 1] := XorByte(255, lay.masks[pos - 1])]
    ensures matrix[lay.matX[pos - 1] := row] == Apply(Blank(side), PlacementWrites(codewords, lay, maxCodewords, remain, k'))
    ensures IsSquare(matrix[lay.matX[pos - 1] := row], side)
  {
    RemainderStep(codewords, lay, maxCodewords, remain, m, k, pos);
    ApplyStep(Blank(side), PlacementWrites(codewords, lay, maxCodewords, remain, k),
      Write(lay.matX[pos - 1], lay.matY[pos - 1], XorByte(255, lay.masks[pos - 1])), matrix, side, row);
  }

  /** One pass of the inner loop body extends the applied prefix by one write. */
  lemma PlaceCodewordBit(codewords: seq<nat>, lay: Layout, side: nat, maxCodewords: nat, remain: nat, i: nat, j: nat, k: nat, k': nat, pos: nat, c: nat, matrix: Grid, row: seq<Byte>)
    requires Covers(lay, 8 * maxCodewords + remain) && InSquare(lay, 8 * maxCodewords + remain, side)
    requires i < maxCodewords && 1 <= j <= 8 && k == 8 * i + 8 - j && pos == 8 * i + j && k' == k + 1
    requires c == Shr(Get(codewords, i), 8 - j) && IsSquare(matrix, side)
    requires matrix == Apply(Blank(side), PlacementWrites(codewords, lay, maxCodewords, remain, k))
    requires 1 <= pos <= 8 * maxCodewords && And(c, 1) < 2
    requires row == matrix[lay.matX[pos - 1]][lay.matY[pos - 1] := XorByte(255 * And(c, 1), lay.masks[pos - 1])]
    ensures matrix[lay.matX[pos - 1] := row] == Apply(Blank(side), PlacementWrites(codewords, lay, maxCodewords, remain, k'))
    ensures IsSquare(matrix[lay.matX[pos - 1] := row], side)
  {
    CodewordStep(codewords, lay, maxCodewords, remain, i, j, k, pos, c);
    ApplyStep(Blank(side), PlacementWrites(codewords, lay, maxCodewords, remain, k),
      Write(lay.matX[pos - 1], lay.matY[pos - 1], XorByte(255 * And(c, 1), lay.masks[pos - 1])), matrix, side, row);
  }

  /**
   * The inner loop of `getMatrixContent` for codeword i: its eight bits,
   * from the most significant, placed at positions 8i + 8 down to 8i + 1
   * (steps `start` = 8i to `stop` = 8i + 8 of the placement order).
   */
  method PlaceCodeword(codewords: seq<nat>, lay: Layout, side: nat, maxCodewords: nat, remain: nat, i: nat,
                       ghost start: nat, ghost stop: nat, matrix0: Grid)
    returns (matrix: Grid)
    requires Covers(lay, 8 * maxCodewords + remain) && InSquare(lay, 8 * maxCodewords + remain, side)
    requires i < maxCodewords && IsSquare(matrix0, side) && start == 8 * i && stop == start + 8
    requires matrix0 == Apply(Blank(side), PlacementWrites(codewords, lay, maxCodewords, remain, start))
    ensures IsSquare(matrix, side)
    ensures matrix == Apply(Blank(side), PlacementWrites(codewords, lay, maxCodewords, remain, stop))
  {
    matrix := matrix0;
    var codewordI := Get(codewords, i);
    ghost var t, k := 0, start;
    var j := 8;
    while j >= 1
      invariant 0 <= j <= 8 && t == 8 - j && k == 8 * i + t && IsSquare(matrix, side)
      invariant codewordI == Shr(Get(codewords, i), t)
      invariant matrix == Apply(Blank(side), PlacementWrites(codewords, lay, maxCodewords, remain, k))
    {
      var pos := 8 * i + j;
      CodewordStep(codewords, lay, maxCodewords, remain, i, j, k, pos, codewordI);
      var x, y := lay.matX[pos - 1], lay.matY[pos - 1];
      var value := XorByte(255 * And(codewordI, 1), lay.masks[pos - 1]);
      var row: seq<Byte> := matrix[x][y := value];
      ghost var t', k' := t + 1, k + 1;
      PlaceCodewordBit(codewords, lay, side, maxCodewords, remain, i, j, k, k', pos, codewordI, matrix, row);
      matrix := matrix[x := row];
      ShrSucc(Get(codewords, i), t, t');
      codewordI := Shr(codewordI, 1);
      j, t, k := j - 1, t', k';
    }
    assert k == stop;
  }

  /**
   * The remainder loop of `getMatrixContent`: the remainder positions from
   * 8M + R down to 8M + 1 get `255` XOR their mask bytes (steps `start` =
   * 8M to `stop` = 8M + R of the placement order).
   */
  method PlaceRemainder(codewords: seq<nat>, lay: Layout, side: nat, maxCodewords: nat, remain: nat,
                        ghost start: nat, ghost stop: nat, matrix0: Grid)
    returns (matrix: Grid)
    requires Covers(lay, 8 * maxCodewords + remain) && InSquare(lay, 8 * maxCodewords + remain, side)
    requires IsSquare(matrix0, side) && start == 8 * maxCodewords && stop == start + remain
    requires matrix0 == Apply(Blank(side), PlacementWrites(codewords, lay, maxCodewords, remain, start))
    ensures IsSquare(matrix, side)
    ensures matrix == Apply(Blank(side), PlacementWrites(codewords, lay, maxCodewords, remain, stop))
  {
    matrix := matrix0;
    ghost var k := start;
    var matrixRemain := remain;
    while matrixRemain > 0
      invariant 0 <= matrixRemain <= remain && k == stop - matrixRemain
      invariant IsSquare(matrix, side)
      invariant matrix == Apply(Blank(side), PlacementWrites(codewords, lay, maxCodewords, remain, k))
    {
      var remainBitTemp := matrixRemain + 8 * maxCodewords;
      RemainderStep(codewords, lay, maxCodewords, remain, matrixRemain, k, remainBitTemp);
      var x, y := lay.matX[remainBitTemp - 1], lay.matY[remainBitTemp - 1];
      var row: seq<Byte> := matrix[x][y := XorByte(255, lay.masks[remainBitTemp - 1])];
      ghost var k' := k + 1;
      PlaceRemainderBit(codewords, lay, side, maxCodewords, remain, matrixRemain, k, k', remainBitTemp, matrix, row);
      matrix := matrix[x := row];
      matrixRemain, k := matrixRemain - 1, k';
    }
    assert k == stop;
  }

  /**
   * `getMatrixContent`: a blank grid, then for each codeword i and j = 8
   * down to 1 the module at position 8i + j gets `255 * (c & 1)` XOR its
   * mask byte while c shifts right, then the remainder modules from the
   * last one down get `255` XOR their mask bytes.
   */
  method GetMatrixContent(codewords: seq<nat>, lay: Layout, side: nat, maxCodewords: nat, remain: nat)
    returns (matrix: Grid)
    requires Covers(lay, 8 * maxCodewords + remain) && InSquare(lay, 8 * maxCodewords + remain, side)
    ensures matrix == MatrixContent(codewords, lay, side, maxCodewords, remain)
  {
    ghost var n := 8 * maxCodewords + remain;
    matrix := FlashMatrix(side);
    ghost var k := 0;
    var i := 0;
    while i < maxCodewords
      invariant 0 <= i <= maxCodewords && k == 8 * i && IsSquare(matrix, side)
      invariant matrix == Apply(Blank(side), PlacementWrites(codewords, lay, maxCodewords, remain, k))
    {
      ghost var k' := k + 8;
      matrix := PlaceCodeword(codewords, lay, side, maxCodewords, remain, i, k, k', matrix);
      i, k := i + 1, k';
    }
    ghost var n' := n;
    matrix := PlaceRemainder(codewords, lay, side, maxCodewords, remain, k, n', matrix);
    assert n' == n;
  }

  /** The cell of position p holds that position's byte once no later write lands on it. */
  lemma PositionCell(codewords: seq<nat>, lay: Layout, side: nat, maxCodewords: nat, remain: nat, p: nat)
    requires Covers(lay, 8 * maxCodewords + remain) && InSquare(lay, 8 * maxCodewords + remain, side)
    requires DistinctCells(lay, 8 * maxCodewords + remain) && 1 <= p <= 8 * maxCodewords + remain
    ensures MatrixContent(codewords, lay, side, maxCodewords, remain)[lay.matX[p - 1]][lay.matY[p - 1]] ==
      PositionValue(codewords, lay, maxCodewords, p)
  {
    var n := 8 * maxCodewords + remain;
    var ws := PlacementWrites(codewords, lay, maxCodewords, remain, n);
    var k := StepOf(maxCodewords, remain, p);
    PlacementWritesAt(codewords, lay, maxCodewords, remain, n, k);
    forall j | k < j < n
      ensures !(ws[j].x == ws[k].x && ws[j].y == ws[k].y)
    {
      var p' := Position(maxCodewords, remain, j);
      PlacementWritesAt(codewords, lay, maxCodewords, remain, n, j);
      PositionInjective(maxCodewords, remain, j);
      assert p' != p;
      if p' < p {
        assert lay.matX[p' - 1] != lay.matX[p - 1] || lay.matY[p' - 1] != lay.matY[p - 1];
      } else {
        assert lay.matX[p - 1] != lay.matX[p' - 1] || lay.matY[p - 1] != lay.matY[p' - 1];
      }
    }
    ApplyHit(Blank(side), ws, k);
  }

  /** A cell that no position names keeps its 0. */
  lemma UnplacedCell(codewords: seq<nat>, lay: Layout, side: nat, maxCodewords: nat, remain: nat, x: nat, y: nat)
    requires Covers(lay, 8 * maxCodewords + remain) && x < side && y < side
    requires forall q :: 0 <= q < 8 * maxCodewords + remain ==> !(lay.matX[q] == x && lay.matY[q] == y)
    ensures MatrixContent(codewords, lay, side, maxCodewords, remain)[x][y] == 0
  {
    var n := 8 * maxCodewords + remain;
    var ws := PlacementWrites(codewords, lay, maxCodewords, remain, n);
    forall k | 0 <= k < n
      ensures !(ws[k].x == x && ws[k].y == y)
    {
      var p := Position(maxCodewords, remain, k);
      PlacementWritesAt(codewords, lay, maxCodewords, remain, n, k);
      assert ws[k].x == lay.matX[p - 1] && ws[k].y == lay.matY[p - 1];
    }
    ApplyMiss(Blank(side), ws, x, y);
    BlankCell(side, x, y);
  }

  /**
   * With distinct coordinates, the cell of every position holds that
   * position's byte, and every cell no position names stays 0.
   */
  lemma MatrixCells(codewords: seq<nat>, lay: Layout, side: nat, maxCodewords: nat, remain: nat)
    requires Covers(lay, 8 * maxCodewords + remain) && InSquare(lay, 8 * maxCodewords + remain, side)
    requires DistinctCells(lay, 8 * maxCodewords + remain)
    ensures forall p :: 1 <= p <= 8 * maxCodewords + remain ==>
      MatrixContent(codewords, lay, side, maxCodewords, remain)[lay.matX[p - 1]][lay.matY[p - 1]] ==
      PositionValue(codewords, lay, maxCodewords, p)
    ensures forall x, y ::
      (0 <= x < side && 0 <= y < side &&
       forall q :: 0 <= q < 8 * maxCodewords + remain ==> !(lay.matX[q] == x && lay.matY[q] == y)) ==>
      MatrixContent(codewords, lay, side, maxCodewords, remain)[x][y] == 0
  {
    forall p | 1 <= p <= 8 * maxCodewords + remain
      ensures MatrixContent(codewords, lay, side, maxCodewords, remain)[lay.matX[p - 1]][lay.matY[p - 1]] ==
        PositionValue(codewords, lay, maxCodewords, p)
    {
      PositionCell(codewords, lay, side, maxCodewords, remain, p);
    }
    forall x, y | 0 <= x < side && 0 <= y < side &&
      (forall q :: 0 <= q < 8 * maxCodewords + remain ==> !(lay.matX[q] == x && lay.matY[q] == y))
      ensures MatrixContent(codewords, lay, side, maxCodewords, remain)[x][y] == 0
    {
      UnplacedCell(codewords, lay, side, maxCodewords, remain, x, y);
    }
  }

  /**
   * Under mask t a placed module is its data bit flipped where the mask
   * byte's bit t is set: bit t of the byte is set exactly when the data bit
   * differs from the mask byte's bit t. A remainder module counts as a data
   * bit 1.
   */
  lemma PositionBits(codewords: seq<nat>, lay: Layout, maxCodewords: nat, p: nat, t: nat)
    requires 1 <= p <= |lay.masks| && t < 8
    ensures var data := p > 8 * maxCodewords || CodewordBit(codewords, (p - 1) / 8, 7 - (p - 1) % 8) == 1;
      BitOf(PositionValue(codewords, lay, maxCodewords, p), t) == (data != BitOf(lay.masks[p - 1], t))
  {
    var bit := if p > 8 * maxCodewords then 1 else CodewordBit(codewords, (p - 1) / 8, 7 - (p - 1) % 8);
    XorBit(255 * bit, lay.masks[p - 1], t);
    assert Pow2(8) == 256;
    LowOnesBit(8, t);
    assert 0 / Pow2(t) == 0;
  }

  // ---------------------------------------------------------------------
  // Format information
  // ---------------------------------------------------------------------

  /** The 15-bit format words, indexed by (ecc << 3) | mask. */
  const FormatInformationArray: seq<string> := [
    "101010000010010", "101000100100101", "101111001111100", "101101101001011",
    "100010111111001", "100000011001110", "100111110010111", "100101010100000",
    "111011111000100", "111001011110011", "111110110101010", "111100010011101",
    "110011000101111", "110001100011000", "110110001000001", "110100101110110",
    "001011010001001", "001001110111110", "001110011100111", "001100111010000",
    "000011101100010", "000001001010101", "000110100001100", "000100000111011",
    "011010101011111", "011000001101000", "011111100110001", "011101000000110",
    "010010010110100", "010000110000011", "010111011011010", "010101111101101"
  ]

  /** The fixed cells of the first copy, around the top-left finder pattern. */
  const FormatX1: seq<nat> := [0, 1, 2, 3, 4, 5, 7, 8, 8, 8, 8, 8, 8, 8, 8]
  const FormatY1: seq<nat> := [8, 8, 8, 8, 8, 8, 8, 8, 7, 5, 4, 3, 2, 1, 0]

  /** `(ecc << 3) | mask`. */
  function FormatValue(eccCharacter: nat, maskNumber: nat): nat
  {
    Or(Shl(eccCharacter, 3), maskNumber)
  }

  /** The two fields do not overlap, so the value indexes the 32 format words. */
  lemma FormatValueIndex(eccCharacter: nat, maskNumber: nat)
    requires eccCharacter < 4 && maskNumber < 8
    ensures FormatValue(eccCharacter, maskNumber) == 8 * eccCharacter + maskNumber
    ensures FormatValue(eccCharacter, maskNumber) < 32
  {
    assert Pow2(3) == 8 by {
      assert Pow2(1) == 2 && Pow2(2) == 4;
    }
    assert Shl(eccCharacter, 3) == 8 * eccCharacter by {
      ShlMul(eccCharacter, 3);
    }
    ShlOr(eccCharacter, 3, maskNumber);
  }

  /** `$content * 255` for a character of a format word. */
  function ContentByte(c: char): (b: Byte)
    ensures b == if c == '1' then 255 else 0
  {
    if c == '1' then 255 else 0
  }

  /** There are 32 format words of 15 digits each. */
  lemma FormatWordsShape()
    ensures |FormatInformationArray| == 32
    ensures forall d :: 0 <= d < 32 ==> |FormatInformationArray[d]| == 15
  {
  }

  /** Digit i of the word, as 0 or 255, at fixed cell i. */
  function FixedWrite(word: string, i: nat): Write
    requires i < 15 && |word| >= 15
  {
    Write(FormatX1[i], FormatY1[i], ContentByte(word[i]))
  }

  /** Digit i of the word, as 0 or 255, at table cell i. */
  function TableWrite(fiX: seq<Byte>, fiY: seq<Byte>, word: string, i: nat): Write
    requires i < 15 && |fiX| >= 15 && |fiY| >= 15 && |word| >= 15
  {
    Write(fiX[i], fiY[i], ContentByte(word[i]))
  }

  /** The assignments of `formatInformation` for the first `n` digits: fixed cell i, then table cell i. */
  function FormatWrites(fiX: seq<Byte>, fiY: seq<Byte>, word: string, n: nat): (ws: seq<Write>)
    requires n <= 15 && |fiX| >= 15 && |fiY| >= 15 && |word| >= 15
    ensures |ws| == 2 * n
  {
    if n == 0 then []
    else FormatWrites(fiX, fiY, word, n - 1) + [FixedWrite(word, n - 1), TableWrite(fiX, fiY, word, n - 1)]
  }

  /** Assignment k writes digit k / 2: to the fixed cell when k is even, to the table cell when odd. */
  lemma {:induction false} FormatWritesAt(fiX: seq<Byte>, fiY: seq<Byte>, word: string, n: nat, k: nat)
    requires n <= 15 && |fiX| >= 15 && |fiY| >= 15 && |word| >= 15 && k < 2 * n
    ensures FormatWrites(fiX, fiY, word, n)[k] ==
      if k % 2 == 0 then FixedWrite(word, k / 2) else TableWrite(fiX, fiY, word, k / 2)
  {
    if k < 2 * n - 2 {
      FormatWritesAt(fiX, fiY, word, n - 1, k);
    } else if k == 2 * n - 2 {
      DivModUnique(k, 2, n - 1, 0);
    } else {
      DivModUnique(k, 2, n - 1, 1);
    }
  }

  /** The format-word cells lie in the grid. */
  predicate FormatFits(fiX: seq<Byte>, fiY: seq<Byte>, side: nat)
  {
    side > 8 && |fiX| >= 15 && |fiY| >= 15 && forall i :: 0 <= i < 15 ==> fiX[i] < side && fiY[i] < side
  }

  /** The table cells are 15 different cells, none of them a fixed cell. */
  predicate FormatCellsDistinct(fiX: seq<Byte>, fiY: seq<Byte>)
    requires |fiX| >= 15 && |fiY| >= 15
  {
    (forall a, b :: 0 <= a < b < 15 ==> fiX[a] != fiX[b] || fiY[a] != fiY[b]) &&
    (forall a, b :: 0 <= a < 15 && 0 <= b < 15 ==> FormatX1[a] != fiX[b] || FormatY1[a] != fiY[b])
  }

  /** The fixed cells of the first copy are 15 different cells. */
  lemma FixedFormatCellsDistinct()
    ensures forall a, b :: 0 <= a < b < 15 ==> FormatX1[a] != FormatX1[b] || FormatY1[a] != FormatY1[b]
  {
  }

  /**
   * `formatInformation` after the mask choice: digit i of format word
   * `value` goes, as 0 or 255, to fixed cell i and to table cell i.
   */
  method WriteFormatInformation(matrixContent: Grid, side: nat, fiX: seq<Byte>, fiY: seq<Byte>, value: nat)
    returns (matrix: Grid)
    requires IsSquare(matrixContent, side) && FormatFits(fiX, fiY, side) && value < 32
    ensures matrix == Apply(matrixContent, FormatWrites(fiX, fiY, FormatInformationArray[value], 15))
  {
    FormatWordsShape();
    var word := FormatInformationArray[value];
    matrix := matrixContent;
    var i := 0;
    while i < 15
      invariant 0 <= i <= 15 && IsSquare(matrix, side)
      invariant matrix == Apply(matrixContent, FormatWrites(fiX, fiY, word, i))
    {
      var content := ContentByte(word[i]);
      ghost var done := FormatWrites(fiX, fiY, word, i);
      var row: seq<Byte> := matrix[FormatX1[i]][FormatY1[i] := content];
      ApplyStep(matrixContent, done, FixedWrite(word, i), matrix, side, row);
      matrix := matrix[FormatX1[i] := row];
      row := matrix[fiX[i]][fiY[i] := content];
      ApplyStep(matrixContent, done + [FixedWrite(word, i)], TableWrite(fiX, fiY, word, i), matrix, side, row);
      matrix := matrix[fiX[i] := row];
      assert done + [FixedWrite(word, i)] + [TableWrite(fiX, fiY, word, i)] == FormatWrites(fiX, fiY, word, i + 1);
      i := i + 1;
    }
  }

  /**
   * With 30 different cells, each format cell holds its digit as 0 or 255
   * and every other cell keeps its value.
   */
  lemma FormatCells(matrixContent: Grid, side: nat, fiX: seq<Byte>, fiY: seq<Byte>, value: nat)
    requires IsSquare(matrixContent, side) && FormatFits(fiX, fiY, side) && value < 32
    requires FormatCellsDistinct(fiX, fiY)
    ensures var g := Apply(matrixContent, FormatWrites(fiX, fiY, FormatInformationArray[value], 15));
      forall i :: 0 <= i < 15 ==>
        g[FormatX1[i]][FormatY1[i]] == ContentByte(FormatInformationArray[value][i]) &&
        g[fiX[i]][fiY[i]] == ContentByte(FormatInformationArray[value][i])
    ensures var g := Apply(matrixContent, FormatWrites(fiX, fiY, FormatInformationArray[value], 15));
      forall x, y ::
        (0 <= x < side && 0 <= y < side &&
         forall i :: 0 <= i < 15 ==> !(FormatX1[i] == x && FormatY1[i] == y) && !(fiX[i] == x && fiY[i] == y)) ==>
        g[x][y] == matrixContent[x][y]
  {
    FormatWordsShape();
    var word := FormatInformationArray[value];
    var ws := FormatWrites(fiX, fiY, word, 15);
    FixedFormatCellsDistinct();
    forall i | 0 <= i < 15
      ensures Apply(matrixContent, ws)[FormatX1[i]][FormatY1[i]] == ContentByte(word[i])
      ensures Apply(matrixContent, ws)[fiX[i]][fiY[i]] == ContentByte(word[i])
    {
      FormatHit(matrixContent, side, fiX, fiY, word, 2 * i);
      FormatHit(matrixContent, side, fiX, fiY, word, 2 * i + 1);
      FormatWritesAt(fiX, fiY, word, 15, 2 * i);
      FormatWritesAt(fiX, fiY, word, 15, 2 * i + 1);
      DivModUnique(2 * i, 2, i, 0);
      DivModUnique(2 * i + 1, 2, i, 1);
    }
    forall x, y |
      (0 <= x < side && 0 <= y < side &&
       forall i :: 0 <= i < 15 ==> !(FormatX1[i] == x && FormatY1[i] == y) && !(fiX[i] == x && fiY[i] == y))
      ensures Apply(matrixContent, ws)[x][y] == matrixContent[x][y]
    {
      forall k | 0 <= k < 30
        ensures !(ws[k].x == x && ws[k].y == y)
      {
        FormatWritesAt(fiX, fiY, word, 15, k);
      }
      ApplyMiss(matrixContent, ws, x, y);
    }
  }

  /** No later assignment names the cell of assignment k, so it keeps its value. */
  lemma FormatHit(matrixContent: Grid, side: nat, fiX: seq<Byte>, fiY: seq<Byte>, word: string, k: nat)
    requires IsSquare(matrixContent, side) && FormatFits(fiX, fiY, side) && |word| >= 15 && k < 30
    requires FormatCellsDistinct(fiX, fiY)
    requires forall a, b :: 0 <= a < b < 15 ==> FormatX1[a] != FormatX1[b] || FormatY1[a] != FormatY1[b]
    ensures var ws := FormatWrites(fiX, fiY, word, 15);
      ws[k].x < side && ws[k].y < side && Apply(matrixContent, ws)[ws[k].x][ws[k].y] == ws[k].v
  {
    var ws := FormatWrites(fiX, fiY, word, 15);
    FormatWritesAt(fiX, fiY, word, 15, k);
    forall j | k < j < 30
      ensures !(ws[j].x == ws[k].x && ws[j].y == ws[k].y)
    {
      FormatWritesAt(fiX, fiY, word, 15, j);
    }
    ApplyHit(matrixContent, ws, k);
  }
}
