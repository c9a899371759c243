/**
  The boolean pixel mask `BitGrid` (src/mask.cc: `erode`, `centroid`), as a
  class over a two-dimensional array addressed `bits[x, y]`.
*/
module BitGrids {
  import opened Grid
  import opened Polygon

  class BitGrid {
    const w: nat
    const h: nat
    const bits: array2<bool>

    ghost predicate Valid() {
      bits.Length0 == w && bits.Length1 == h
    }

    /** The pixels as a value, row by row. */
    ghost function Cells(): (g: Grid)
      reads bits
      requires Valid()
      ensures IsGrid(g, w, h)
      ensures forall y, x :: 0 <= y < h && 0 <= x < w ==> g[y][x] == bits[x, y]
    {
      seq(h, y requires 0 <= y < h reads bits =>
        seq(w, x requires 0 <= x < w reads bits => bits[x, y]))
    }

    /** A `width`×`height` grid; its pixels are not initialised. */
    constructor (width: nat, height: nat)
      ensures Valid() && w == width && h == height && fresh(bits)
    {
      w, h := width, height;
      bits := new bool[width, height];
    }

    function Get(x: nat, y: nat): (b: bool)
      reads bits
      requires Valid() && x < w && y < h
      ensures b == Cells()[y][x]
    {
      bits[x, y]
    }

    method Set(x: nat, y: nat, v: bool)
      requires Valid() && x < w && y < h
      modifies bits
      ensures bits[x, y] == v
      ensures forall i, j :: 0 <= i < w && 0 <= j < h && (i != x || j != y) ==>
                bits[i, j] == old(bits[i, j])
    {
      bits[x, y] := v;
    }

    /** Clear every pixel. */
    method Zero()
      requires Valid()
      modifies bits
      ensures forall i, j :: 0 <= i < w && 0 <= j < h ==> !bits[i, j]
    {
      forall i, j | 0 <= i < w && 0 <= j < h {
        bits[i, j] := false;
      }
    }

    /**
      Erode the mask in place: a pixel stays set only if two neighbours next
      to each other around it are set, judged on the grid before erosion.
      Three row buffers hold the original rows above, at and below the row
      being written, and are rotated after each row; cells outside the grid
      read as unset.
    */
    method Erode()
      requires Valid()
      modifies bits
      ensures forall x, y :: 0 <= x < w && 0 <= y < h ==> bits[x, y] == Survives(old(Cells()), x, y)
      ensures Cells() == Eroded(old(Cells()))
    {
      ghost var g := Cells();
      var rowu := new bool[w];
      var rowm := new bool[w];
      var rowl := new bool[w];
      for i := 0 to w
        invariant forall k :: 0 <= k < i ==> !rowm[k]
        invariant unchanged(bits)
      {
        rowm[i] := false;
      }
      FillRow(rowl, 0);

      for y := 0 to h
        invariant fresh(rowu) && fresh(rowm) && fresh(rowl)
        invariant rowu != rowm && rowm != rowl && rowl != rowu
        invariant rowu.Length == w && rowm.Length == w && rowl.Length == w
        invariant forall k :: 0 <= k < w ==> rowm[k] == At(g, k, y - 1) && rowl[k] == At(g, k, y)
        invariant forall i, j :: 0 <= i < w && 0 <= j < h ==>
                    bits[i, j] == if j < y then Survives(g, i, j) else g[j][i]
      {
        rowu, rowm, rowl := rowm, rowl, rowu;
        FillRow(rowl, y + 1);
        ErodeRow(g, y, rowu, rowm, rowl);
      }

      ghost var e := Eroded(g);
      forall y | 0 <= y < h ensures Cells()[y] == e[y] {
        assert forall x :: 0 <= x < w ==> Cells()[y][x] == e[y][x];
      }
    }

    /** Copy row `y` of the grid into `row`; a row outside the grid reads as unset. */
    method FillRow(row: array<bool>, y: int)
      requires Valid() && row.Length == w
      modifies row
      ensures forall k :: 0 <= k < w ==> row[k] == (0 <= y < h && bits[k, y])
    {
      for i := 0 to w
        invariant forall k :: 0 <= k < i ==> row[k] == (0 <= y < h && bits[k, y])
      {
        row[i] := if 0 <= y < h then Get(i, y) else false;
      }
    }

    /**
      Erode row `y` from the three buffered original rows, shifting the six
      neighbour values left by one pixel per step.
    */
    method ErodeRow(ghost g: Grid, y: nat, rowu: array<bool>, rowm: array<bool>, rowl: array<bool>)
      requires Valid() && IsGrid(g, w, h) && y < h
      requires rowu.Length == w && rowm.Length == w && rowl.Length == w
      requires forall k :: 0 <= k < w ==>
                 rowu[k] == At(g, k, y - 1) && rowm[k] == At(g, k, y) && rowl[k] == At(g, k, y + 1)
      requires forall i :: 0 <= i < w ==> bits[i, y] == g[y][i]
      modifies bits
      ensures forall i, j :: 0 <= i < w && 0 <= j < h ==>
                bits[i, j] == if j == y then Survives(g, i, j) else old(bits[i, j])
    {
      var ul, um := false, if 0 < w then rowu[0] else false;
      var ml, mm := false, if 0 < w then rowm[0] else false;
      var ll, lm := false, if 0 < w then rowl[0] else false;
      for x := 0 to w
        invariant ul == At(g, x - 1, y - 1) && um == At(g, x, y - 1)
        invariant ml == At(g, x - 1, y) && mm == At(g, x, y)
        invariant ll == At(g, x - 1, y + 1) && lm == At(g, x, y + 1)
        invariant forall i, j :: 0 <= i < w && 0 <= j < h ==>
                    bits[i, j] == if j == y && i < x then Survives(g, i, j) else old(bits[i, j])
      {
        var ur := if x + 1 < w then rowu[x + 1] else false;
        var mr := if x + 1 < w then rowm[x + 1] else false;
        var lr := if x + 1 < w then rowl[x + 1] else false;

        SurvivesByPairs(g, x, y);
        if !((ul && um) || (um && ur) || (ur && mr) || (mr && lr) ||
             (lr && lm) || (lm && ll) || (ll && ml) || (ml && ul)) {
          Set(x, y, false);
        }

        ul, ml, ll := um, mm, lm;
        um, mm, lm := ur, mr, lr;
      }
    }

    /**
      The centroid of the set pixels: the sums of their x and y coordinates
      divided by their number, a point inside the grid. It is defined only
      when some pixel is set.
    */
    method Centroid() returns (c: Vertex)
      requires Valid()
      requires exists x, y :: 0 <= x < w && 0 <= y < h && bits[x, y]
      ensures Count(Cells()) > 0
      ensures c == Vertex(SumX(Cells()) as real / Count(Cells()) as real,
                          SumY(Cells()) as real / Count(Cells()) as real)
      ensures 0.0 <= c.x <= (w - 1) as real && 0.0 <= c.y <= (h - 1) as real
    {
      ghost var g := Cells();
      var accumX, accumY, cnt := 0, 0, 0;
      for y := 0 to h
        invariant accumX == SumX(g[..y]) && accumY == SumY(g[..y]) && cnt == Count(g[..y])
      {
        for x := 0 to w
          invariant accumX == SumX(g[..y]) + RowSumX(g[y][..x])
          invariant accumY == SumY(g[..y]) + RowSumY(g[y][..x], y)
          invariant cnt == Count(g[..y]) + RowCount(g[y][..x])
        {
          assert g[y][..x + 1][..x] == g[y][..x];
          if Get(x, y) {
            accumX := accumX + x;
            accumY := accumY + y;
            cnt := cnt + 1;
          }
        }
        assert g[y][..w] == g[y];
        assert g[..y + 1][..y] == g[..y];
      }
      assert g[..h] == g;
      var x0, y0 :| 0 <= x0 < w && 0 <= y0 < h && bits[x0, y0];
      assert g[y0][x0];
      CountPositiveIffSomeSet(g);
      CentroidInside(g, w, h);
      c := Vertex(accumX as real / cnt as real, accumY as real / cnt as real);
    }
  }
}
