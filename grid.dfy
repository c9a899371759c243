/**
  Boolean images as values: the pure specification of erosion and of the
  sums the centroid is computed from (src/mask.cc, `BitGrid::erode` and
  `BitGrid::centroid`).
*/
module Grid {

  /** A boolean image stored as rows: `g[y][x]` is column x of row y. */
  type Grid = seq<seq<bool>>

  /** `g` has `h` rows of `w` pixels each. */
  predicate IsGrid(g: Grid, w: nat, h: nat) {
    |g| == h && forall y :: 0 <= y < h ==> |g[y]| == w
  }

  /** Pixel (x, y); every cell outside the grid reads as unset. */
  predicate At(g: Grid, x: int, y: int) {
    0 <= y < |g| && 0 <= x < |g[y]| && g[y][x]
  }

  // ---------------------------------------------------------------------
  // Erosion
  // ---------------------------------------------------------------------

  /**
    The eight neighbours of (x, y) in order around it, clockwise from the
    upper-left: ul, u, ur, r, lr, d, ll, l.
  */
  function Neighbours(g: Grid, x: int, y: int): (n: seq<bool>)
    ensures |n| == 8
  {
    [At(g, x - 1, y - 1), At(g, x, y - 1), At(g, x + 1, y - 1), At(g, x + 1, y),
     At(g, x + 1, y + 1), At(g, x, y + 1), At(g, x - 1, y + 1), At(g, x - 1, y)]
  }

  /** Ring entry `i` and the one after it (wrapping round) are both set. */
  predicate PairSet(n: seq<bool>, i: int)
    requires |n| == 8 && 0 <= i < 8
  {
    n[i] && n[(i + 1) % 8]
  }

  /** Some two neighbours that are next to each other on the ring are both set. */
  predicate HasSetPair(g: Grid, x: int, y: int) {
    exists i :: 0 <= i < 8 && PairSet(Neighbours(g, x, y), i)
  }

  /** Pixel (x, y) is kept by erosion: it is set and has a set pair of neighbours. */
  predicate Survives(g: Grid, x: int, y: int) {
    At(g, x, y) && HasSetPair(g, x, y)
  }

  /** The grid after one erosion, every pixel judged on the grid before it. */
  function Eroded(g: Grid): (e: Grid)
    ensures |e| == |g| && forall y :: 0 <= y < |g| ==> |e[y]| == |g[y]|
    ensures forall y, x :: 0 <= y < |g| && 0 <= x < |g[y]| && e[y][x] ==> g[y][x]
  {
    seq(|g|, y requires 0 <= y < |g| => seq(|g[y]|, x => Survives(g, x, y)))
  }

  /**
    The ring formulation of the survival rule agrees with the eight
    explicit pair tests that the erosion loop evaluates.
  */
  lemma SurvivesByPairs(g: Grid, x: int, y: int)
    ensures Survives(g, x, y) <==>
      var ul, u, ur := At(g, x - 1, y - 1), At(g, x, y - 1), At(g, x + 1, y - 1);
      var l, r := At(g, x - 1, y), At(g, x + 1, y);
      var ll, d, lr := At(g, x - 1, y + 1), At(g, x, y + 1), At(g, x + 1, y + 1);
      At(g, x, y) &&
      ((ul && u) || (u && ur) || (ur && r) || (r && lr) ||
       (lr && d) || (d && ll) || (ll && l) || (l && ul))
  {
    var n := Neighbours(g, x, y);
    if n[0] && n[1] { assert PairSet(n, 0); }
    if n[1] && n[2] { assert PairSet(n, 1); }
    if n[2] && n[3] { assert PairSet(n, 2); }
    if n[3] && n[4] { assert PairSet(n, 3); }
    if n[4] && n[5] { assert PairSet(n, 4); }
    if n[5] && n[6] { assert PairSet(n, 5); }
    if n[6] && n[7] { assert PairSet(n, 6); }
    if n[7] && n[0] { assert PairSet(n, 7); }
  }

  /** Every pixel of `g` is set. */
  predicate AllSet(g: Grid) {
    forall y, x :: 0 <= y < |g| && 0 <= x < |g[y]| ==> g[y][x]
  }

  /** No pixel of `g` is set. */
  predicate NoneSet(g: Grid) {
    forall y, x :: 0 <= y < |g| && 0 <= x < |g[y]| ==> !g[y][x]
  }

  /**
    Erosion leaves a fully set grid of at least 2×2 pixels unchanged: every
    pixel, corners included, lies in a 2×2 block of set pixels.
  */
  lemma ErodeKeepsFullGrid(g: Grid, w: nat, h: nat)
    requires IsGrid(g, w, h) && w >= 2 && h >= 2 && AllSet(g)
    ensures Eroded(g) == g
  {
    var e := Eroded(g);
    forall y | 0 <= y < h ensures e[y] == g[y] {
      forall x | 0 <= x < w ensures e[y][x] == g[y][x] {
        var n := Neighbours(g, x, y);
        if x + 1 < w && y + 1 < h {
          assert PairSet(n, 3);       // r, lr
        } else if y + 1 < h {
          assert PairSet(n, 5);       // d, ll
        } else if x + 1 < w {
          assert PairSet(n, 1);       // u, ur
        } else {
          assert PairSet(n, 7);       // l, ul
        }
      }
    }
  }

  /** A grid one pixel wide or one pixel high is cleared entirely by erosion. */
  lemma ErodeClearsThinGrid(g: Grid, w: nat, h: nat)
    requires IsGrid(g, w, h) && (w < 2 || h < 2)
    ensures NoneSet(Eroded(g))
  {
    var e := Eroded(g);
    forall y, x | 0 <= y < h && 0 <= x < w ensures !e[y][x] {
      var n := Neighbours(g, x, y);
      if w < 2 {
        assert !n[0] && !n[2] && !n[3] && !n[4] && !n[6] && !n[7];
      } else {
        assert !n[0] && !n[1] && !n[2] && !n[4] && !n[5] && !n[6];
      }
      if HasSetPair(g, x, y) {
        var i :| 0 <= i < 8 && PairSet(n, i);
        assert false;
      }
    }
  }

  /** `g1` has the shape of `g2` and every pixel set in `g1` is set in `g2`. */
  predicate SubGrid(g1: Grid, g2: Grid) {
    |g1| == |g2| &&
    (forall y :: 0 <= y < |g1| ==> |g1[y]| == |g2[y]|) &&
    forall y, x :: 0 <= y < |g1| && 0 <= x < |g1[y]| && g1[y][x] ==> g2[y][x]
  }

  /** Erosion is monotone: eroding a subset of the pixels keeps a subset. */
  lemma ErodeMonotone(g1: Grid, g2: Grid)
    requires SubGrid(g1, g2)
    ensures SubGrid(Eroded(g1), Eroded(g2))
  {
    forall y, x | 0 <= y < |g1| && 0 <= x < |g1[y]| && Survives(g1, x, y)
      ensures Survives(g2, x, y)
    {
      var n1, n2 := Neighbours(g1, x, y), Neighbours(g2, x, y);
      var i :| 0 <= i < 8 && PairSet(n1, i);
      assert PairSet(n2, i);
    }
  }

  // ---------------------------------------------------------------------
  // Centroid sums, accumulated in scan order (row by row, left to right)
  // ---------------------------------------------------------------------

  /** Number of set pixels in a row. */
  function RowCount(r: seq<bool>): nat {
    if r == [] then 0 else RowCount(r[..|r| - 1]) + (if r[|r| - 1] then 1 else 0)
  }

  /** Sum of the columns of the set pixels in a row. */
  function RowSumX(r: seq<bool>): nat {
    if r == [] then 0 else RowSumX(r[..|r| - 1]) + (if r[|r| - 1] then |r| - 1 else 0)
  }

  /** Sum, over the set pixels of a row, of that row's index `y`. */
  function RowSumY(r: seq<bool>, y: nat): nat {
    if r == [] then 0 else RowSumY(r[..|r| - 1], y) + (if r[|r| - 1] then y else 0)
  }

  /** Number of set pixels in the grid. */
  function Count(g: Grid): nat {
    if g == [] then 0 else Count(g[..|g| - 1]) + RowCount(g[|g| - 1])
  }

  /** Sum of the x coordinates of the set pixels. */
  function SumX(g: Grid): nat {
    if g == [] then 0 else SumX(g[..|g| - 1]) + RowSumX(g[|g| - 1])
  }

  /** Sum of the y coordinates of the set pixels. */
  function SumY(g: Grid): nat {
    if g == [] then 0 else SumY(g[..|g| - 1]) + RowSumY(g[|g| - 1], |g| - 1)
  }

  lemma {:induction false} RowCountPositive(r: seq<bool>, x: nat)
    requires x < |r| && r[x]
    ensures RowCount(r) > 0
    decreases |r|
  {
    if x < |r| - 1 {
      RowCountPositive(r[..|r| - 1], x);
    }
  }

  lemma {:induction false} RowCountPositiveHasPixel(r: seq<bool>) returns (x: nat)
    requires RowCount(r) > 0
    ensures x < |r| && r[x]
    decreases |r|
  {
    if r[|r| - 1] {
      x := |r| - 1;
    } else {
      x := RowCountPositiveHasPixel(r[..|r| - 1]);
    }
  }

  /** The count of set pixels is positive exactly when some pixel is set. */
  lemma {:induction false} CountPositiveIffSomeSet(g: Grid)
    ensures Count(g) > 0 <==> exists y, x :: 0 <= y < |g| && 0 <= x < |g[y]| && g[y][x]
    decreases |g|
  {
    if g != [] {
      var p := g[..|g| - 1];
      var last := g[|g| - 1];
      CountPositiveIffSomeSet(p);
      if Count(g) > 0 {
        if RowCount(last) > 0 {
          var x := RowCountPositiveHasPixel(last);
          assert g[|g| - 1][x];
        } else {
          var y, x :| 0 <= y < |p| && 0 <= x < |p[y]| && p[y][x];
          assert g[y][x];
        }
      }
      if exists y, x :: 0 <= y < |g| && 0 <= x < |g[y]| && g[y][x] {
        var y, x :| 0 <= y < |g| && 0 <= x < |g[y]| && g[y][x];
        if y == |g| - 1 {
          RowCountPositive(last, x);
        } else {
          assert p[y][x];
        }
      }
    }
  }

  lemma {:induction false} RowSumsOfUnsetRow(r: seq<bool>, y: nat)
    requires forall x :: 0 <= x < |r| ==> !r[x]
    ensures RowCount(r) == 0 && RowSumX(r) == 0 && RowSumY(r, y) == 0
    decreases |r|
  {
    if r != [] {
      RowSumsOfUnsetRow(r[..|r| - 1], y);
    }
  }

  lemma {:induction false} RowSumsOfSinglePixel(r: seq<bool>, y: nat, px: nat)
    requires px < |r| && forall x :: 0 <= x < |r| ==> (r[x] <==> x == px)
    ensures RowCount(r) == 1 && RowSumX(r) == px && RowSumY(r, y) == y
    decreases |r|
  {
    var p := r[..|r| - 1];
    if px == |r| - 1 {
      RowSumsOfUnsetRow(p, y);
    } else {
      RowSumsOfSinglePixel(p, y, px);
    }
  }

  /** Exactly one pixel of `g`, the one at (px, py), is set. */
  predicate OnlyPixel(g: Grid, px: nat, py: nat) {
    py < |g| && px < |g[py]| &&
    forall y, x :: 0 <= y < |g| && 0 <= x < |g[y]| ==> (g[y][x] <==> x == px && y == py)
  }

  /**
    With a single set pixel at (px, py) the sums are px and py and the count
    is one, so the centroid is that pixel.
  */
  lemma {:induction false} SumsOfSinglePixel(g: Grid, px: nat, py: nat)
    requires OnlyPixel(g, px, py)
    ensures Count(g) == 1 && SumX(g) == px && SumY(g) == py
    decreases |g|
  {
    var p := g[..|g| - 1];
    var last := g[|g| - 1];
    if py == |g| - 1 {
      RowSumsOfSinglePixel(last, |g| - 1, px);
      SumsOfNoPixel(p);
    } else {
      RowSumsOfUnsetRow(last, |g| - 1);
      assert OnlyPixel(p, px, py);
      SumsOfSinglePixel(p, px, py);
    }
  }

  lemma {:induction false} SumsOfNoPixel(g: Grid)
    requires NoneSet(g)
    ensures Count(g) == 0 && SumX(g) == 0 && SumY(g) == 0
    decreases |g|
  {
    if g != [] {
      SumsOfNoPixel(g[..|g| - 1]);
      RowSumsOfUnsetRow(g[|g| - 1], |g| - 1);
    }
  }

  /** Each set pixel of a row contributes at most the last column to the sum. */
  lemma {:induction false} RowSumXBound(r: seq<bool>)
    ensures RowSumX(r) <= (|r| - 1) * RowCount(r)
    decreases |r|
  {
    if r != [] {
      var p := r[..|r| - 1];
      RowSumXBound(p);
      assert (|r| - 1) * RowCount(p) == (|p| - 1) * RowCount(p) + RowCount(p);
      assert (|r| - 1) * RowCount(r) == (|r| - 1) * RowCount(p) + (if r[|r| - 1] then |r| - 1 else 0);
    }
  }

  lemma {:induction false} RowSumYIsMultiple(r: seq<bool>, y: nat)
    ensures RowSumY(r, y) == y * RowCount(r)
    decreases |r|
  {
    if r != [] {
      RowSumYIsMultiple(r[..|r| - 1], y);
      assert y * RowCount(r) == y * RowCount(r[..|r| - 1]) + (if r[|r| - 1] then y else 0);
    }
  }

  /** The column sum of a grid `w` wide is at most the last column times the count. */
  lemma {:induction false} SumXBounded(g: Grid, w: nat)
    requires forall y :: 0 <= y < |g| ==> |g[y]| == w
    ensures SumX(g) <= (w - 1) * Count(g)
    decreases |g|
  {
    if g != [] {
      var p := g[..|g| - 1];
      var last := g[|g| - 1];
      SumXBounded(p, w);
      RowSumXBound(last);
      Distrib(w - 1, Count(p), RowCount(last));
    }
  }

  /** The row sum is at most the last row index times the count. */
  lemma {:induction false} SumYBounded(g: Grid)
    ensures SumY(g) <= (|g| - 1) * Count(g)
    decreases |g|
  {
    if g != [] {
      var p := g[..|g| - 1];
      var last := g[|g| - 1];
      SumYBounded(p);
      var n, c, k := |g| - 1, Count(p), RowCount(last);
      RowSumYIsMultiple(last, n);
      assert SumY(g) == SumY(p) + n * k;
      assert Count(g) == c + k;
      Distrib(n, c, k);
      Distrib(c, n - 1, 1);
      assert SumY(p) <= (n - 1) * c;
      assert (n - 1) * c + c == n * c;
    }
  }

  lemma Distrib(a: int, b: int, c: int)
    ensures a * (b + c) == a * b + a * c
  {
  }

  /**
    The centroid of a grid with a set pixel lies inside the grid: its
    coordinates are between 0 and the last column and row.
  */
  lemma CentroidInside(g: Grid, w: nat, h: nat)
    requires IsGrid(g, w, h) && Count(g) > 0
    ensures 0.0 <= SumX(g) as real / Count(g) as real <= (w - 1) as real
    ensures 0.0 <= SumY(g) as real / Count(g) as real <= (h - 1) as real
  {
    SumXBounded(g, w);
    SumYBounded(g);
    QuotientAtMost(SumX(g), w - 1, Count(g));
    QuotientAtMost(SumY(g), h - 1, Count(g));
  }

  lemma QuotientAtMost(a: nat, b: int, c: nat)
    requires c > 0 && a <= b * c
    ensures 0.0 <= a as real / c as real <= b as real
  {
    assert (a as real / c as real) * c as real == a as real;
    assert b as real * c as real == (b * c) as real;
  }
}
