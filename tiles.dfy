/**
  Walking an image in its native tiles (src/mask.cc), and row-major
  addressing of flat pixel buffers.
*/
module Tiles {

  /**
    Extent of the tile that starts at `offset` along an axis of length
    `extent`, when native tiles are `block` long: the last tile is clamped to
    the image edge.
  */
  function TileSize(offset: nat, block: nat, extent: nat): (size: nat)
    requires offset < extent
    ensures size <= block && offset + size <= extent
    ensures size == block || offset + size == extent
    ensures block > 0 ==> size > 0
  {
    if block + offset > extent then extent - offset else block
  }

  /** Position of pixel (x, y) in a row-major buffer of rows `w` wide. */
  function Index(w: nat, h: nat, x: nat, y: nat): (k: nat)
    requires x < w && y < h
    ensures k < w * h
    ensures k / w == y && k % w == x
  {
    RowMajorBounds(w, h, x, y);
    w * y + x
  }

  lemma RowMajorBounds(w: nat, h: nat, x: nat, y: nat)
    requires x < w && y < h
    ensures w * y + x < w * h
    ensures (w * y + x) / w == y && (w * y + x) % w == x
  {
    assert w * y + w == w * (y + 1);
    MulMonotone(w, y + 1, h);
    DivModUnique(w * y + x, w, y, x);
  }

  lemma MulMonotone(a: nat, b: nat, c: nat)
    requires b <= c
    ensures a * b <= a * c
  {
  }

  lemma DivModUnique(n: int, d: int, q: int, r: int)
    requires d > 0 && 0 <= r < d && n == d * q + r
    ensures n / d == q && n % d == r
  {
    var q', r' := n / d, n % d;
    assert n == d * q' + r' && 0 <= r' < d;
    var m := q - q';
    assert d * m == r' - r;
    MulAtLeast(d, m);
    MulAtLeast(d, -m);
  }

  lemma MulAtLeast(d: int, m: int)
    ensures d > 0 && m >= 1 ==> d * m >= d
  {
    if d > 0 && m >= 1 {
      assert d * m == d * (m - 1) + d;
      MulMonotone(d, 0, m - 1);
    }
  }

  /** The offsets of the tiles from `offset` on, `block` apart, up to `extent`. */
  function TileStarts(extent: nat, block: nat, offset: nat): (ts: seq<nat>)
    requires block > 0
    ensures forall i :: 0 <= i < |ts| ==> offset <= ts[i] < extent
    decreases extent - offset
  {
    if offset >= extent then [] else [offset] + TileStarts(extent, block, offset + block)
  }

  /** Pixel `p` lies in the tile that starts at `start`. */
  predicate InTile(start: nat, block: nat, extent: nat, p: nat)
    requires start < extent
  {
    start <= p < start + TileSize(start, block, extent)
  }

  /**
    The clamped tiles partition the axis: each pixel at or after the first
    offset lies in exactly one tile, whose position in the walk is returned.
  */
  lemma {:induction false} TilesCoverOnce(extent: nat, block: nat, offset: nat, p: nat)
    returns (i: nat)
    requires block > 0 && offset <= p < extent
    ensures i < |TileStarts(extent, block, offset)|
    ensures InTile(TileStarts(extent, block, offset)[i], block, extent, p)
    ensures forall j :: (0 <= j < |TileStarts(extent, block, offset)| &&
                         InTile(TileStarts(extent, block, offset)[j], block, extent, p)) ==> j == i
    decreases extent - offset
  {
    var ts := TileStarts(extent, block, offset);
    var size := TileSize(offset, block, extent);
    if p < offset + size {
      i := 0;
      forall j | 0 < j < |ts| ensures !InTile(ts[j], block, extent, p) {
        assert ts[j] == TileStarts(extent, block, offset + block)[j - 1];
      }
    } else {
      var rest := TileStarts(extent, block, offset + block);
      var i' := TilesCoverOnce(extent, block, offset + block, p);
      i := i' + 1;
      assert ts == [offset] + rest;
      forall j | 0 < j < |ts| && InTile(ts[j], block, extent, p) ensures j == i {
        assert ts[j] == rest[j - 1];
      }
    }
  }

  /** The tiles of one tile row, at row offset `y`, left to right. */
  function RowWalk(y: nat, xs: seq<nat>): (r: seq<(nat, nat)>)
    ensures |r| == |xs|
    ensures forall j :: 0 <= j < |xs| ==> r[j] == (xs[j], y)
  {
    seq(|xs|, j requires 0 <= j < |xs| => (xs[j], y))
  }

  /**
    The (column, row) offsets of the tiles, in the order the nested tile loops visit
    them: tile rows top to bottom, each left to right.
  */
  function TileWalk(ys: seq<nat>, xs: seq<nat>): seq<(nat, nat)>
    decreases |ys|
  {
    if ys == [] then [] else RowWalk(ys[0], xs) + TileWalk(ys[1..], xs)
  }

  lemma {:induction false} TileWalkLength(ys: seq<nat>, xs: seq<nat>)
    ensures |TileWalk(ys, xs)| == |xs| * |ys|
    decreases |ys|
  {
    if ys != [] {
      TileWalkLength(ys[1..], xs);
      assert |xs| * |ys| == |xs| * (|ys| - 1) + |xs|;
    }
  }

  /** Walking one more tile of a tile row. */
  lemma RowWalkStep(y: nat, a: nat, rest: seq<nat>)
    ensures RowWalk(y, [a] + rest) == [(a, y)] + RowWalk(y, rest)
  {
    var l, r := RowWalk(y, [a] + rest), [(a, y)] + RowWalk(y, rest);
    forall j | 0 <= j < |l| ensures l[j] == r[j] {
      if j > 0 {
        assert ([a] + rest)[j] == rest[j - 1];
      }
    }
  }

  /** Walking one more tile row. */
  lemma TileWalkStep(y: nat, rest: seq<nat>, xs: seq<nat>)
    ensures TileWalk([y] + rest, xs) == RowWalk(y, xs) + TileWalk(rest, xs)
  {
    assert ([y] + rest)[1..] == rest;
  }

  /** Tile row i, tile column j of the walk is at position |xs|·i + j. */
  lemma {:induction false} TileWalkAt(ys: seq<nat>, xs: seq<nat>, i: nat, j: nat)
    requires i < |ys| && j < |xs|
    ensures |xs| * i + j < |TileWalk(ys, xs)|
    ensures TileWalk(ys, xs)[|xs| * i + j] == (xs[j], ys[i])
    decreases |ys|
  {
    var n := |xs|;
    TileWalkLength(ys[1..], xs);
    if i > 0 {
      TileWalkAt(ys[1..], xs, i - 1, j);
      MulSucc(n, i - 1);
      assert ys[1..][i - 1] == ys[i];
    }
  }

  lemma MulSucc(n: int, i: int)
    ensures n * (i + 1) == n * i + n
  {
  }

  /** Every position below |xs|·|ys| is |xs|·i + j for a tile row i and column j. */
  lemma Split(t: nat, n: nat, m: nat) returns (i: nat, j: nat)
    requires t < n * m
    ensures i < m && j < n && t == n * i + j
  {
    i, j := t / n, t % n;
    if i >= m {
      MulMonotone(n, m, i);
    }
  }

  /** Pixel (x, y) lies in the tile at offsets `tile` (column, row). */
  predicate InTileXY(tile: (nat, nat), blockX: nat, w: nat, blockY: nat, h: nat, x: nat, y: nat)
  {
    tile.0 < w && tile.1 < h && InTile(tile.0, blockX, w, x) && InTile(tile.1, blockY, h, y)
  }

  /** The tile walk of a `w`×`h` image with blocks of `blockX`×`blockY`. */
  function ImageWalk(w: nat, blockX: nat, h: nat, blockY: nat): seq<(nat, nat)>
    requires blockX > 0 && blockY > 0
  {
    TileWalk(TileStarts(h, blockY, 0), TileStarts(w, blockX, 0))
  }

  /** A position of the walk whose tile holds (x, y) is |xs|·i + j for the tiles i, j that hold it on each axis. */
  lemma WalkPositionOf(w: nat, blockX: nat, h: nat, blockY: nat, x: nat, y: nat, t: nat)
    returns (i: nat, j: nat)
    requires blockX > 0 && blockY > 0 && x < w && y < h
    requires t < |ImageWalk(w, blockX, h, blockY)|
    requires InTileXY(ImageWalk(w, blockX, h, blockY)[t], blockX, w, blockY, h, x, y)
    ensures i < |TileStarts(h, blockY, 0)| && j < |TileStarts(w, blockX, 0)|
    ensures t == |TileStarts(w, blockX, 0)| * i + j
    ensures InTile(TileStarts(h, blockY, 0)[i], blockY, h, y)
    ensures InTile(TileStarts(w, blockX, 0)[j], blockX, w, x)
  {
    var ys, xs := TileStarts(h, blockY, 0), TileStarts(w, blockX, 0);
    TileWalkLength(ys, xs);
    i, j := Split(t, |xs|, |ys|);
    TileWalkAt(ys, xs, i, j);
  }

  /**
    For positive block sizes the tile walk of a `w`×`h` image covers every
    pixel exactly once: one position of the walk holds it, and no other does.
  */
  lemma TileWalkCoversOnce(w: nat, blockX: nat, h: nat, blockY: nat, x: nat, y: nat) returns (t: nat)
    requires blockX > 0 && blockY > 0 && x < w && y < h
    ensures t < |ImageWalk(w, blockX, h, blockY)|
    ensures InTileXY(ImageWalk(w, blockX, h, blockY)[t], blockX, w, blockY, h, x, y)
    ensures forall t' :: (0 <= t' < |ImageWalk(w, blockX, h, blockY)| &&
                          InTileXY(ImageWalk(w, blockX, h, blockY)[t'], blockX, w, blockY, h, x, y)) ==> t' == t
  {
    var ys, xs := TileStarts(h, blockY, 0), TileStarts(w, blockX, 0);
    var i := TilesCoverOnce(h, blockY, 0, y);
    var j := TilesCoverOnce(w, blockX, 0, x);
    TileWalkAt(ys, xs, i, j);
    t := |xs| * i + j;
    forall t' | 0 <= t' < |ImageWalk(w, blockX, h, blockY)| &&
                InTileXY(ImageWalk(w, blockX, h, blockY)[t'], blockX, w, blockY, h, x, y)
      ensures t' == t
    {
      var i', j' := WalkPositionOf(w, blockX, h, blockY, x, y, t');
    }
  }
}
