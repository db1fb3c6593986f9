/**
  The content-band detector of a rasterised report page.

  A page is a grid of grey levels, one row per pixel line, every row as long
  as the page is wide. The detector drops a fixed header and footer margin,
  then finds the band of rows between the first solid dark separator line
  and the last one, and returns the crop box of that band, full width.
 */
module ContentBand {
  import RealFacts

  /** A grey level of an 8-bit greyscale image. */
  type Grey = x: int | 0 <= x <= 255

  type Row = seq<Grey>

  /** Pixels strictly below this level count as black. */
  const BlackLevel: Grey := 153

  /** The level of a pure white pixel. */
  const White: Grey := 255

  /** The fixed trim keeps rows from 16 % to 95 % of the page height. */
  const TopTrimPercent: nat := 16
  const BottomTrimPercent: nat := 95

  /** The non-white scan starts this many rows above the last dark row. */
  const BorderSkip: nat := 3

  /** Rows shaved off each side of the detected band. */
  const Margin: nat := 2

  /** A crop box in the image library's order: left, upper, right, lower (lower exclusive). */
  datatype Box = Box(left: int, upper: int, right: int, lower: int)

  /** A raster image of width `w`: at least one column, every row `w` pixels long. */
  predicate IsGrid(g: seq<Row>, w: nat)
  {
    w > 0 && forall y | 0 <= y < |g| :: |g[y]| == w
  }

  // ---------------------------------------------------------------------------
  // Row classification

  /** The number of pixels of `row` below the black level, counted left to right. */
  function DarkCount(row: Row): (n: nat)
    ensures n <= |row|
  {
    if row == [] then 0
    else DarkCount(row[..|row| - 1]) + (if row[|row| - 1] < BlackLevel then 1 else 0)
  }

  /** The positions of `row` holding a pixel below the black level. */
  function DarkPositions(row: Row): set<int>
  {
    set i | 0 <= i < |row| && row[i] < BlackLevel
  }

  /** The count is the number of dark positions. */
  lemma {:induction false} DarkCountIsCardinality(row: Row)
    ensures DarkCount(row) == |DarkPositions(row)|
  {
    if row != [] {
      var n := |row| - 1;
      var front := row[..n];
      DarkCountIsCardinality(front);
      var extra: set<int> := if row[n] < BlackLevel then {n} else {};
      assert DarkPositions(row) == DarkPositions(front) + extra by {
        forall i | i in DarkPositions(row) ensures i in DarkPositions(front) + extra {
          if i < n { assert front[i] == row[i]; }
        }
        forall i | i in DarkPositions(front) ensures i in DarkPositions(row) {
          assert front[i] == row[i];
        }
      }
      assert n !in DarkPositions(front);
    }
  }

  /** A row is dark when more than 60 % of the image width is below the black level. */
  predicate IsDark(row: Row, w: nat)
  {
    5 * DarkCount(row) > 3 * w
  }

  /** The integer test is the source's ratio test `count / width > 0.6`, read over exact reals. */
  lemma DarkIsSixtyPercent(row: Row, w: nat)
    requires w > 0
    ensures IsDark(row, w) <==> (DarkCount(row) as real) / (w as real) > 0.6
  {
    RatioAboveThreeFifths(DarkCount(row) as real, w as real);
    ScaledComparison(DarkCount(row), w);
  }

  lemma RatioAboveThreeFifths(c: real, r: real)
    requires r > 0.0
    ensures c / r > 0.6 <==> 5.0 * c > 3.0 * r
  {
    var q := c / r;
    assert q * r == c;
    RealFacts.MulPositive(q - 0.6, r);
    assert (q - 0.6) * r == c - 0.6 * r;
  }

  lemma ScaledComparison(n: int, m: int)
    ensures 5 * n > 3 * m <==> 5.0 * (n as real) > 3.0 * (m as real)
  {
  }

  /** Every pixel of the row is pure white. */
  predicate AllWhite(row: Row)
  {
    forall i | 0 <= i < |row| :: row[i] == White
  }

  /** A dark row holds at least one black pixel, so it is not pure white. */
  lemma DarkRowIsNotWhite(row: Row, w: nat)
    requires IsDark(row, w)
    ensures exists i | 0 <= i < |row| :: row[i] < BlackLevel
    ensures !AllWhite(row)
  {
    DarkCountIsCardinality(row);
    var i :| i in DarkPositions(row);
    assert row[i] < BlackLevel;
  }

  /** A pure white row is never dark, whatever the width. */
  lemma WhiteRowIsNotDark(row: Row, w: nat)
    requires AllWhite(row)
    ensures DarkCount(row) == 0
    ensures !IsDark(row, w)
  {
    DarkCountIsCardinality(row);
    assert DarkPositions(row) == {};
  }

  // ---------------------------------------------------------------------------
  // The fixed trim

  /** First row kept by the fixed trim: floor(16 % of the height). */
  function TrimTop(h: nat): (t: nat)
    ensures t * 100 <= TopTrimPercent * h < (t + 1) * 100
  {
    h * TopTrimPercent / 100
  }

  /** First row dropped by the fixed trim: floor(95 % of the height). */
  function TrimBottom(h: nat): (b: nat)
    ensures b * 100 <= BottomTrimPercent * h < (b + 1) * 100
    ensures TrimTop(h) <= b <= h
  {
    h * BottomTrimPercent / 100
  }

  /** The rows the fixed trim keeps, each at full width. */
  function Trim(page: seq<Row>): (t: seq<Row>)
    ensures |t| == TrimBottom(|page|) - TrimTop(|page|)
    ensures forall y | 0 <= y < |t| :: t[y] == page[TrimTop(|page|) + y]
  {
    page[TrimTop(|page|)..TrimBottom(|page|)]
  }

  // ---------------------------------------------------------------------------
  // Specification of the three scans

  /** Some row of the grid is dark. */
  predicate AnyDark(g: seq<Row>, w: nat)
  {
    exists y | 0 <= y < |g| :: IsDark(g[y], w)
  }

  /** The top-down scan from row `y`: the first dark row at or below `y`, or 0 when there is none. */
  function FirstDarkFrom(g: seq<Row>, w: nat, y: nat): (r: nat)
    requires y <= |g|
    ensures (exists z | y <= z < |g| :: IsDark(g[z], w)) ==>
              y <= r < |g| && IsDark(g[r], w) && forall z | y <= z < r :: !IsDark(g[z], w)
    ensures (forall z | y <= z < |g| :: !IsDark(g[z], w)) ==> r == 0
    decreases |g| - y
  {
    if y == |g| then 0
    else if IsDark(g[y], w) then y
    else FirstDarkFrom(g, w, y + 1)
  }

  /** The top of the band: the first dark row, or 0 when no row is dark. */
  function UpperBound(g: seq<Row>, w: nat): (u: nat)
    ensures AnyDark(g, w) ==> u < |g| && IsDark(g[u], w) && forall y | 0 <= y < u :: !IsDark(g[y], w)
    ensures !AnyDark(g, w) ==> u == 0
  {
    FirstDarkFrom(g, w, 0)
  }

  /** The bottom-up scan from row `y`: the last dark row at or above `y`, or `|g|` when there is none. */
  function LastDarkFrom(g: seq<Row>, w: nat, y: int): (r: nat)
    requires -1 <= y < |g|
    ensures (exists z | 0 <= z <= y :: IsDark(g[z], w)) ==>
              r <= y && IsDark(g[r], w) && forall z | r < z <= y :: !IsDark(g[z], w)
    ensures (forall z | 0 <= z <= y :: !IsDark(g[z], w)) ==> r == |g|
    decreases y + 1
  {
    if y < 0 then |g|
    else if IsDark(g[y], w) then y
    else LastDarkFrom(g, w, y - 1)
  }

  /** The bottom separator: the last dark row, or the trimmed height when no row is dark. */
  function LowerBlackBound(g: seq<Row>, w: nat): (b: nat)
    ensures b <= |g|
    ensures AnyDark(g, w) ==> b < |g| && IsDark(g[b], w) && forall y | b < y < |g| :: !IsDark(g[y], w)
    ensures !AnyDark(g, w) ==> b == |g|
  {
    LastDarkFrom(g, w, |g| - 1)
  }

  /** Whenever some row is dark, the top of the band is not below the bottom separator. */
  lemma UpperNotBelowLowerBlack(g: seq<Row>, w: nat)
    requires AnyDark(g, w)
    ensures UpperBound(g, w) <= LowerBlackBound(g, w)
  {
  }

  /** The upward scan from row `y`: the last row at or above `y` that is not pure white, else `default`. */
  function LastNonWhiteFrom(g: seq<Row>, y: int, default: int): (r: int)
    requires y < |g|
    ensures (exists z | 0 <= z <= y :: !AllWhite(g[z])) ==>
              0 <= r <= y && !AllWhite(g[r]) && forall z | r < z <= y :: AllWhite(g[z])
    ensures (forall z | 0 <= z <= y :: AllWhite(g[z])) ==> r == default
    decreases y + 1
  {
    if y < 0 then default
    else if !AllWhite(g[y]) then y
    else LastNonWhiteFrom(g, y - 1, default)
  }

  /**
    The bottom of the band, found from the bottom separator `lowerBlack`:
    scanning upwards from `lowerBlack - 3`, the first row that is not pure
    white; `lowerBlack - 3` itself when every row scanned is white.
   */
  function LowerBound(g: seq<Row>, lowerBlack: nat): (l: int)
    requires lowerBlack <= |g|
    ensures l <= lowerBlack - BorderSkip < |g|
    ensures var start := lowerBlack - BorderSkip;
            (exists y | 0 <= y <= start :: !AllWhite(g[y])) ==>
              0 <= l && !AllWhite(g[l]) && forall y | l < y <= start :: AllWhite(g[y])
    ensures var start := lowerBlack - BorderSkip;
            (forall y | 0 <= y <= start :: AllWhite(g[y])) ==> l == start
  {
    LastNonWhiteFrom(g, lowerBlack - BorderSkip, lowerBlack - BorderSkip)
  }

  /**
    The crop box of the band on the trimmed grid: full width, from two rows
    below the top separator to two rows above the bottom of the content.
    It never reaches above row 2 or below row |g| - 5, so a box that is not
    inverted lies inside the grid; it is inverted or empty exactly when the
    content bottom is fewer than four rows below the top separator.
   */
  function CropBox(g: seq<Row>, w: nat): (box: Box)
    ensures box.left == 0 && box.right == w
    ensures box.upper - Margin == UpperBound(g, w)
    ensures box.lower + Margin == LowerBound(g, LowerBlackBound(g, w))
    ensures Margin <= box.upper && box.lower <= |g| - BorderSkip - Margin
    ensures box.upper <= box.lower <==> UpperBound(g, w) + 2 * Margin <= LowerBound(g, LowerBlackBound(g, w))
  {
    Box(0, UpperBound(g, w) + Margin, w, LowerBound(g, LowerBlackBound(g, w)) - Margin)
  }

  /**
    When the content bottom is scanned from at or below the top separator,
    the scan cannot pass above it: the top separator is dark, hence not white.
   */
  lemma LowerNotAboveUpper(g: seq<Row>, w: nat)
    requires AnyDark(g, w)
    requires UpperBound(g, w) + BorderSkip <= LowerBlackBound(g, w)
    ensures UpperBound(g, w) <= LowerBound(g, LowerBlackBound(g, w))
  {
    var u := UpperBound(g, w);
    var start := LowerBlackBound(g, w) - BorderSkip;
    DarkRowIsNotWhite(g[u], w);
    assert 0 <= u <= start && !AllWhite(g[u]);
  }

  /** A pure white trimmed grid of height h is cut to rows [2, h - 5). */
  lemma AllWhiteCropBox(g: seq<Row>, w: nat)
    requires forall y | 0 <= y < |g| :: AllWhite(g[y])
    ensures CropBox(g, w) == Box(0, Margin, w, |g| - BorderSkip - Margin)
  {
    forall y | 0 <= y < |g| ensures !IsDark(g[y], w) {
      WhiteRowIsNotDark(g[y], w);
    }
    assert !AnyDark(g, w);
  }

  /**
    A page with a single separator line: the top scan and the bottom scan
    both stop on it, the content scan starts above it on white rows, and the
    box comes out inverted.
   */
  lemma SingleSeparatorInvertsBox()
    ensures var g: seq<Row> := [[White], [White], [White], [0], [White], [White]];
            CropBox(g, 1) == Box(0, 5, 1, -2) && CropBox(g, 1).lower < CropBox(g, 1).upper
  {
    var g: seq<Row> := [[White], [White], [White], [0], [White], [White]];
    assert IsDark(g[3], 1);
    assert forall y | 0 <= y < 3 :: !IsDark(g[y], 1) by {
      WhiteRowIsNotDark(g[0], 1);
      WhiteRowIsNotDark(g[1], 1);
      WhiteRowIsNotDark(g[2], 1);
    }
    assert forall y | 3 < y < 6 :: !IsDark(g[y], 1) by {
      WhiteRowIsNotDark(g[4], 1);
      WhiteRowIsNotDark(g[5], 1);
    }
    assert UpperBound(g, 1) == 3;
    assert LowerBlackBound(g, 1) == 3;
    assert AllWhite(g[0]);
    assert LowerBound(g, 3) == 0;
  }

  // ---------------------------------------------------------------------------
  // The detector, scanning row by row

  /** Counts the black pixels of one row, adding one per pixel. */
  method CountDarkPixels(row: Row) returns (n: nat)
    ensures n == DarkCount(row)
  {
    n := 0;
    var x := 0;
    while x < |row|
      invariant 0 <= x <= |row|
      invariant n == DarkCount(row[..x])
    {
      assert row[..x + 1][..x] == row[..x];
      if row[x] < BlackLevel {
        n := n + 1;
      }
      x := x + 1;
    }
    assert row[..|row|] == row;
  }

  /** The smallest grey level of a non-empty row; it is below white exactly when the row is not pure white. */
  method RowMin(row: Row) returns (m: Grey)
    requires |row| > 0
    ensures exists i | 0 <= i < |row| :: row[i] == m
    ensures forall i | 0 <= i < |row| :: m <= row[i]
    ensures m < White <==> !AllWhite(row)
  {
    m := row[0];
    var x := 1;
    while x < |row|
      invariant 1 <= x <= |row|
      invariant exists i | 0 <= i < x :: row[i] == m
      invariant forall i | 0 <= i < x :: m <= row[i]
    {
      if row[x] < m {
        m := row[x];
      }
      x := x + 1;
    }
  }

  /** Scans top-down for the first dark row; 0 when there is none. */
  method FindUpperBound(g: seq<Row>, w: nat) returns (upper: nat)
    requires IsGrid(g, w)
    ensures upper == UpperBound(g, w)
  {
    upper := 0;
    var y := 0;
    while y < |g|
      invariant 0 <= y <= |g|
      invariant forall z | 0 <= z < y :: !IsDark(g[z], w)
    {
      var black := CountDarkPixels(g[y]);
      if 5 * black > 3 * w {
        upper := y;
        break;
      }
      y := y + 1;
    }
    if y < |g| {
      assert IsDark(g[y], w);
      var u := UpperBound(g, w);
      assert u < |g| && IsDark(g[u], w);
    } else {
      assert !AnyDark(g, w);
    }
  }

  /** Scans bottom-up for the last dark row; the grid height when there is none. */
  method FindLowerBlackBound(g: seq<Row>, w: nat) returns (lowerBlack: nat)
    requires IsGrid(g, w)
    ensures lowerBlack == LowerBlackBound(g, w)
  {
    lowerBlack := |g|;
    var y := |g| - 1;
    while y >= 0
      invariant -1 <= y < |g|
      invariant forall z | y < z < |g| :: !IsDark(g[z], w)
    {
      var black := CountDarkPixels(g[y]);
      if 5 * black > 3 * w {
        lowerBlack := y;
        break;
      }
      y := y - 1;
    }
    if y >= 0 {
      assert IsDark(g[y], w);
      var b := LowerBlackBound(g, w);
      assert b < |g| && IsDark(g[b], w);
    } else {
      assert !AnyDark(g, w);
    }
  }

  /**
    Scans upwards from `lowerBlack - 3` for the first row that is not pure
    white. Every row it reads lies in [0, |g|).
   */
  method FindLowerBound(g: seq<Row>, w: nat, lowerBlack: nat) returns (lower: int)
    requires IsGrid(g, w)
    requires lowerBlack <= |g|
    ensures lower == LowerBound(g, lowerBlack)
  {
    var start := lowerBlack - BorderSkip;
    lower := start;
    var y := start;
    while y >= 0
      invariant y <= start
      invariant forall z | 0 <= z && y < z <= start :: AllWhite(g[z])
    {
      var least := RowMin(g[y]);
      if least < White {
        lower := y;
        break;
      }
      y := y - 1;
    }
    if y >= 0 {
      var l := LowerBound(g, lowerBlack);
      assert 0 <= l && !AllWhite(g[l]);
    }
  }

  /**
    The whole detector on a page of width `w`: the fixed trim, the three
    scans on the trimmed rows, and the crop box of the band.
   */
  method ProcessImage(page: seq<Row>, w: nat) returns (trimmed: seq<Row>, box: Box)
    requires IsGrid(page, w)
    ensures trimmed == Trim(page)
    ensures box == CropBox(trimmed, w)
  {
    trimmed := page[TrimTop(|page|)..TrimBottom(|page|)];
    assert IsGrid(trimmed, w) by {
      forall y | 0 <= y < |trimmed| ensures |trimmed[y]| == w {
        assert trimmed[y] == page[TrimTop(|page|) + y];
      }
    }
    var upper := FindUpperBound(trimmed, w);
    var lowerBlack := FindLowerBlackBound(trimmed, w);
    var lower := FindLowerBound(trimmed, w, lowerBlack);
    box := Box(0, upper + Margin, w, lower - Margin);
  }
}
