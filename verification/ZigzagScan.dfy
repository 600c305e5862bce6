/** The zigzag order in which the codeword bits of a symbol are laid out. */
module ZigzagScan {
  import opened Common

  /** A module's coordinates. */
  datatype Cell = Cell(x: int, y: int)

  /** A symbol has an odd number of modules on each side. */
  predicate IsSize(size: int) {
    7 <= size && size % 2 == 1
  }

  /** The right column of the column pair number `p`; column 6 belongs to no pair. */
  function RightColumn(size: int, p: nat): int {
    var right := size - 1 - 2 * p;
    if right <= 6 then right - 1 else right
  }

  /** The cell in row number `vert` and column `j` of a pair, counted in scan order. */
  function PairCell(size: int, right: int, vert: int, j: int): Cell {
    var upward := (right + 1) / 2 % 2 == 0;
    Cell(right - j, if upward then size - 1 - vert else vert)
  }

  /** The cells of the first `n` rows of a column pair. */
  function PairCells(size: int, right: int, n: nat): (s: seq<Cell>)
    ensures |s| == 2 * n
  {
    if n == 0 then []
    else PairCells(size, right, n - 1) + [PairCell(size, right, n - 1, 0), PairCell(size, right, n - 1, 1)]
  }

  lemma PairCellsUnfold(size: int, right: int, n: nat)
    ensures PairCells(size, right, 0) == []
    ensures PairCells(size, right, n + 1)
      == PairCells(size, right, n) + [PairCell(size, right, n, 0), PairCell(size, right, n, 1)]
  {}

  /** The cells of the first `n` column pairs. */
  function ScanPairs(size: nat, n: nat): seq<Cell> {
    if n == 0 then [] else ScanPairs(size, n - 1) + PairCells(size, RightColumn(size, n - 1), size)
  }

  /** All cells in scan order. */
  function Scan(size: nat): seq<Cell> {
    ScanPairs(size, size / 2)
  }

  lemma DistinctConcat<T>(a: seq<T>, b: seq<T>)
    requires Distinct(a) && Distinct(b) && forall c :: c in a ==> c !in b
    ensures Distinct(a + b)
  {
    var s := a + b;
    forall i, j | 0 <= i < j < |s|
      ensures s[i] != s[j]
    {
      if i < |a| {
        assert s[i] in a;
        if j >= |a| {
          assert s[j] in b;
        }
      }
    }
  }

  /** The first `n` rows of a pair are scanned once each, in both columns of the pair. */
  lemma {:induction false} PairCellsExact(size: int, right: int, n: nat)
    requires n <= size
    ensures Distinct(PairCells(size, right, n))
    ensures forall c: Cell :: c in PairCells(size, right, n) <==>
      right - 1 <= c.x <= right && (if (right + 1) / 2 % 2 == 0 then size - n <= c.y < size else 0 <= c.y < n)
  {
    if n > 0 {
      PairCellsExact(size, right, n - 1);
      var a, b := PairCells(size, right, n - 1), [PairCell(size, right, n - 1, 0), PairCell(size, right, n - 1, 1)];
      hide PairCells;
      DistinctConcat(a, b);
      assert forall c :: c in a + b <==> c in a || c == b[0] || c == b[1];
    }
  }

  /** The leftmost column of the first `n` pairs. */
  function LeftColumn(size: int, n: nat): int {
    if size - 2 * n > 6 then size - 2 * n else size - 1 - 2 * n
  }

  lemma LeftColumnStep(size: int, n: nat)
    requires IsSize(size) && n < size / 2
    ensures RightColumn(size, n) == (if LeftColumn(size, n) == 7 then 5 else LeftColumn(size, n) - 1)
    ensures LeftColumn(size, n + 1) == RightColumn(size, n) - 1 && 1 <= RightColumn(size, n) < size
    ensures LeftColumn(size, 0) == size && LeftColumn(size, size / 2) == 0
    ensures LeftColumn(size, n) != 6 && RightColumn(size, n) != 6 && RightColumn(size, n) != 7
  {}

  lemma PairExact(size: int, right: int)
    requires 0 <= size
    ensures Distinct(PairCells(size, right, size))
    ensures forall c: Cell :: c in PairCells(size, right, size) <==> right - 1 <= c.x <= right && 0 <= c.y < size
  {
    PairCellsExact(size, right, size);
  }

  /** The first `n` pairs cover their columns, each cell once. */
  lemma {:induction false} ScanPairsExact(size: nat, n: nat)
    requires IsSize(size) && n <= size / 2
    ensures Distinct(ScanPairs(size, n))
    ensures forall c: Cell :: c in ScanPairs(size, n) <==>
      0 <= c.y < size && LeftColumn(size, n) <= c.x < size && c.x != 6
  {
    hide *;
    if n == 0 {
      ScanOfNone(size);
    } else {
      var right, left := RightColumn(size, n - 1), LeftColumn(size, n - 1);
      LeftColumnStep(size, n - 1);
      ScanPairsExact(size, n - 1);
      PairExact(size, right);
      ScanPairsUnfold(size, n - 1);
      var a, b := ScanPairs(size, n - 1), PairCells(size, right, size);
      DistinctConcat(a, b);
      forall c: Cell
        ensures c in a + b <==> 0 <= c.y < size && right - 1 <= c.x < size && c.x != 6
      {
        assert c in a + b <==> c in a || c in b;
        assert c in a <==> 0 <= c.y < size && left <= c.x < size && c.x != 6;
        assert c in b <==> right - 1 <= c.x <= right && 0 <= c.y < size;
      }
    }
  }

  lemma ScanOfNone(size: nat)
    requires IsSize(size)
    ensures Distinct(ScanPairs(size, 0)) && LeftColumn(size, 0) == size
    ensures forall c: Cell :: c !in ScanPairs(size, 0)
  {}

  lemma ScanPairsUnfold(size: nat, n: nat)
    ensures ScanPairs(size, n + 1) == ScanPairs(size, n) + PairCells(size, RightColumn(size, n), size)
  {}

  /** For every odd size the scan visits every cell outside column 6 exactly once, and no other cell. */
  lemma ScanExact(size: nat)
    requires IsSize(size)
    ensures Distinct(Scan(size))
    ensures forall c: Cell :: c in Scan(size) <==> 0 <= c.x < size && 0 <= c.y < size && c.x != 6
  {
    ScanPairsExact(size, size / 2);
    LeftColumnStep(size, 0);
  }

  lemma {:induction false} PairCellsAt(size: int, right: int, n: nat, v: nat)
    requires v < n
    ensures PairCells(size, right, n)[2 * v] == PairCell(size, right, v, 0)
    ensures PairCells(size, right, n)[2 * v + 1] == PairCell(size, right, v, 1)
  {
    hide PairCells, PairCell;
    PairCellsUnfold(size, right, n - 1);
    if v < n - 1 {
      PairCellsAt(size, right, n - 1, v);
    }
  }

  /** The place in the scan at which a column pair starts. */
  function PairStart(size: nat, p: nat): nat {
    if p == 0 then 0 else PairStart(size, p - 1) + 2 * size
  }

  lemma {:induction false} PairStartRises(size: nat, p: nat, n: nat)
    requires p < n
    ensures PairStart(size, p) + 2 * size == PairStart(size, p + 1) <= PairStart(size, n)
  {
    if p < n - 1 {
      PairStartRises(size, p, n - 1);
    }
  }

  lemma {:induction false} ScanLength(size: nat, n: nat)
    ensures |ScanPairs(size, n)| == PairStart(size, n)
  {
    if n > 0 {
      ScanLength(size, n - 1);
      ScanPairsUnfold(size, n - 1);
      hide ScanPairs, PairCells;
    }
  }

  lemma {:induction false} ScanPairsAt(size: nat, n: nat, p: nat, i: nat)
    requires p < n && i < 2 * size
    ensures PairStart(size, p) + i < |ScanPairs(size, n)| == PairStart(size, n)
    ensures ScanPairs(size, n)[PairStart(size, p) + i] == PairCells(size, RightColumn(size, p), size)[i]
  {
    hide *;
    ScanLength(size, n);
    ScanLength(size, n - 1);
    ScanPairsUnfold(size, n - 1);
    PairStartRises(size, p, n);
    if p < n - 1 {
      PairStartRises(size, p, n - 1);
      ScanPairsAt(size, n - 1, p, i);
    }
  }

  /** The scan goes upward in a column pair. */
  predicate GoesUp(size: nat, p: nat) {
    p % 2 == 0 <==> size % 4 == 1
  }

  lemma PairDirection(size: nat, p: nat)
    requires IsSize(size) && p < size / 2
    ensures (RightColumn(size, p) + 1) / 2 % 2 == 0 <==> GoesUp(size, p)
  {
    var h := size / 2;
    assert size == 2 * h + 1 && (size % 4 == 1 <==> h % 2 == 0);
    assert (RightColumn(size, p) + 1) / 2 == h - p;
    assert (h - p) % 2 == 0 <==> h % 2 == p % 2;
  }

  lemma CellsAtPlace(size: nat, p: nat, v: nat)
    requires IsSize(size) && p < size / 2 && v < size
    ensures PairStart(size, p) + 2 * v + 1 < |Scan(size)| == PairStart(size, size / 2)
    ensures var y, k := if GoesUp(size, p) then size - 1 - v else v, PairStart(size, p) + 2 * v;
      Scan(size)[k] == Cell(RightColumn(size, p), y) && Scan(size)[k + 1] == Cell(RightColumn(size, p) - 1, y)
  {
    ScanPairsAt(size, size / 2, p, 2 * v);
    ScanPairsAt(size, size / 2, p, 2 * v + 1);
    PairCellsAt(size, RightColumn(size, p), size, v);
    PairDirection(size, p);
    hide ScanPairs, PairCells, PairStart, RightColumn, GoesUp;
  }

  /** The scan starts in the last column, at the bottom if the size leaves 1 modulo 4, as all symbol sizes do. */
  lemma ScanStarts(size: nat)
    requires IsSize(size) && size > 7
    ensures |Scan(size)| > 0 && Scan(size)[0] == Cell(size - 1, if size % 4 == 1 then size - 1 else 0)
  {
    CellsAtPlace(size, 0, 0);
    hide Scan;
  }

  /** In every row of a column pair, the right module is followed by its left neighbour, and this by the right module of
      the next row, upward in the first pair and then in turn. */
  lemma ScanOrder(size: nat, p: nat, v: nat)
    requires IsSize(size) && p < size / 2 && v < size
    ensures var k := PairStart(size, p) + 2 * v; k + 1 < |Scan(size)|
    ensures var k := PairStart(size, p) + 2 * v; Scan(size)[k + 1] == Cell(Scan(size)[k].x - 1, Scan(size)[k].y)
    ensures var k := PairStart(size, p) + 2 * v;
      v + 1 < size ==>
        k + 2 < |Scan(size)|
        && Scan(size)[k + 2] == Cell(Scan(size)[k].x, Scan(size)[k].y + if GoesUp(size, p) then -1 else 1)
  {
    CellsAtPlace(size, p, v);
    if v + 1 < size {
      CellsAtPlace(size, p, v + 1);
    }
    hide *;
  }

  /** At the end of a column pair, the scan goes on in the same row of the next pair, whose right column is two further
      left, or three where that passes over column 6; at the end of the last pair it ends. */
  lemma ScanTurns(size: nat, p: nat)
    requires IsSize(size) && p < size / 2
    ensures var k := PairStart(size, p) + 2 * (size - 1);
      && k + 2 == PairStart(size, p + 1)
      && k + 1 < |Scan(size)|
      && if p + 1 == size / 2 then k + 2 == |Scan(size)| else
         && k + 2 < |Scan(size)|
         && Scan(size)[k + 2] == Cell(if Scan(size)[k].x == 8 then 5 else Scan(size)[k].x - 2, Scan(size)[k].y)
  {
    CellsAtPlace(size, p, size - 1);
    PairStartRises(size, p, p + 1);
    if p + 1 < size / 2 {
      CellsAtPlace(size, p + 1, 0);
      NextRightColumn(size, p);
    }
    hide *;
  }

  lemma NextRightColumn(size: nat, p: nat)
    requires IsSize(size) && p + 1 < size / 2
    ensures RightColumn(size, p + 1) == if RightColumn(size, p) == 8 then 5 else RightColumn(size, p) - 2
    ensures GoesUp(size, p + 1) <==> !GoesUp(size, p)
  {}

  /** The loop variable of the scan at the start of pair `p`, before column 6 is passed over. */
  function LoopColumn(size: int, p: nat): int {
    var right := size - 1 - 2 * p;
    if right < 6 then right - 1 else right
  }

  lemma LoopColumnStep(size: int, p: nat)
    requires IsSize(size) && p <= size / 2
    ensures LoopColumn(size, 0) == size - 1
    ensures LoopColumn(size, p) >= 1 <==> p < size / 2
    ensures p < size / 2 ==> (if LoopColumn(size, p) == 6 then 5 else LoopColumn(size, p)) == RightColumn(size, p)
    ensures p < size / 2 ==> LoopColumn(size, p + 1) == RightColumn(size, p) - 2 && 1 <= RightColumn(size, p) < size
  {}
}
