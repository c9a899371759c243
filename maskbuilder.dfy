/**
  Building pixel masks from rasters (src/mask.cc): the equality mask over an
  8-bit image, the tiled read of one band into a flat buffer, and the
  multi-band no-data combination.
*/
module MaskBuilder {
  import opened Common
  import opened BitGrids
  import opened Tiles

  /**
    A raster dataset as the mask builder sees it: its size, its number of
    bands, each band's native tile size, and each band's samples (band, x, y)
    converted to 8 bits.
  */
  datatype Dataset = Dataset(width: nat, height: nat, bandCount: nat,
                             blockSize: nat -> (nat, nat),
                             sample: (nat, nat, nat) -> byte)

  /** Bands are numbered from 1. */
  predicate ValidBand(ds: Dataset, b: int) {
    1 <= b <= ds.bandCount
  }

  /** Every band reports a native tile of at least one pixel. */
  predicate TiledBands(ds: Dataset) {
    forall b :: 1 <= b <= ds.bandCount ==> ds.blockSize(b).0 > 0 && ds.blockSize(b).1 > 0
  }

  /** (x, y) lies in the rectangle of size sx×sy at (x0, y0). */
  predicate InRect(x: nat, y: nat, x0: nat, y0: nat, sx: nat, sy: nat) {
    x0 <= x < x0 + sx && y0 <= y < y0 + sy
  }

  // ---------------------------------------------------------------------
  // Equality mask over an 8-bit image
  // ---------------------------------------------------------------------

  /**
    The mask of the pixels of a row-major `w`×`h` byte image that equal
    `wanted`.
  */
  method GetBitgridFor8bitRaster(w: nat, h: nat, raster: seq<byte>, wanted: byte)
    returns (mask: BitGrid)
    requires w * h <= |raster|
    ensures fresh(mask) && fresh(mask.bits) && mask.Valid() && mask.w == w && mask.h == h
    ensures forall x, y :: 0 <= x < w && 0 <= y < h ==>
              mask.bits[x, y] == (raster[Index(w, h, x, y)] == wanted)
  {
    mask := new BitGrid(w, h);
    var p := 0;
    for y := 0 to h
      invariant p == w * y
      invariant forall i, j :: 0 <= i < w && 0 <= j < y ==>
                  mask.bits[i, j] == (raster[Index(w, h, i, j)] == wanted)
    {
      for x := 0 to w
        invariant p == w * y + x
        invariant forall i, j :: 0 <= i < w && 0 <= j < h && (j < y || (j == y && i < x)) ==>
                    mask.bits[i, j] == (raster[Index(w, h, i, j)] == wanted)
      {
        assert p == Index(w, h, x, y);
        mask.Set(x, y, raster[p] == wanted);
        p := p + 1;
      }
      assert w * y + w == w * (y + 1);
    }
  }

  // ---------------------------------------------------------------------
  // Reading one band into a flat 8-bit buffer
  // ---------------------------------------------------------------------

  /** Value `v` is the sample of band `b` at some pixel. */
  ghost predicate Occurs(ds: Dataset, b: nat, v: byte) {
    exists x, y :: 0 <= x < ds.width && 0 <= y < ds.height && ds.sample(b, x, y) == v
  }

  /** The bsizeX×bsizeY tile at (boffX, boffY) of band `b`, row-major, as the raster read returns it. */
  function ReadTile(ds: Dataset, b: nat, boffX: nat, boffY: nat, bsizeX: nat, bsizeY: nat): (t: seq<byte>)
    requires bsizeX > 0
    ensures |t| == bsizeX * bsizeY
    ensures forall i, j :: 0 <= i < bsizeX && 0 <= j < bsizeY ==>
              t[Index(bsizeX, bsizeY, i, j)] == ds.sample(b, boffX + i, boffY + j)
  {
    seq(bsizeX * bsizeY, n requires 0 <= n < bsizeX * bsizeY =>
      ds.sample(b, boffX + n % bsizeX, boffY + n / bsizeX))
  }

  /**
    Read band `bandIdx` tile by tile into a row-major buffer, recording in
    `usage` which byte values occur. A band number outside 1..bandCount is a
    fatal error (`None`), reported after the table has been cleared. The
    ghost `walk` records the tiles in the order the loops visit them: it is
    the clamped tile walk of the image, which covers every pixel exactly once.
  */
  method ReadDataset8bit(ds: Dataset, bandIdx: int, usage: array<byte>)
    returns (r: Option<seq<byte>>, ghost walk: seq<(nat, nat)>)
    requires usage.Length == 256 && TiledBands(ds)
    modifies usage
    ensures r.None? <==> !ValidBand(ds, bandIdx)
    ensures r.Some? ==> walk == ImageWalk(ds.width, ds.blockSize(bandIdx).0, ds.height, ds.blockSize(bandIdx).1)
    ensures r.None? ==> forall v :: 0 <= v < 256 ==> usage[v] == 0
    ensures r.Some? ==> |r.value| == ds.width * ds.height
    ensures r.Some? ==> forall x, y :: 0 <= x < ds.width && 0 <= y < ds.height ==>
              r.value[Index(ds.width, ds.height, x, y)] == ds.sample(bandIdx, x, y)
    ensures r.Some? ==> forall v :: 0 <= v < 256 ==>
              (usage[v] == 0 || usage[v] == 1) && (usage[v] == 1 <==> Occurs(ds, bandIdx, v as byte))
  {
    for i := 0 to 256
      invariant forall k :: 0 <= k < i ==> usage[k] == 0
    {
      usage[i] := 0;
    }
    walk := [];
    if bandIdx < 1 || bandIdx > ds.bandCount {
      return None, walk;
    }

    var w, h := ds.width, ds.height;
    var (blockX, blockY) := ds.blockSize(bandIdx);
    ghost var xs := TileStarts(w, blockX, 0);
    var outbuf := new byte[w * h](_ => 0);
    var boffY := 0;
    while boffY < h
      invariant walk + TileWalk(TileStarts(h, blockY, boffY), xs) == TileWalk(TileStarts(h, blockY, 0), xs)
      invariant forall x, y :: 0 <= x < w && 0 <= y < h && y < boffY ==>
                  outbuf[Index(w, h, x, y)] == ds.sample(bandIdx, x, y) &&
                  usage[ds.sample(bandIdx, x, y)] == 1
      invariant forall v :: 0 <= v < 256 ==> usage[v] == 0 || usage[v] == 1
      invariant forall v :: 0 <= v < 256 && usage[v] == 1 ==>
                  exists x, y :: 0 <= x < w && 0 <= y < h && y < boffY && ds.sample(bandIdx, x, y) == v as byte
    {
      var bsizeY := TileSize(boffY, blockY, h);
      ghost var row := ReadTileRow(ds, bandIdx, outbuf, usage, blockX, boffY, bsizeY);
      TileWalkStep(boffY, TileStarts(h, blockY, boffY + blockY), xs);
      walk := walk + row;
      boffY := boffY + blockY;
    }
    r := Some(outbuf[..]);
  }

  /**
    Read the tile row of height `bsizeY` at `boffY` into the flat buffer,
    tile by tile from the left; `row` records the tiles visited.
  */
  method ReadTileRow(ds: Dataset, b: nat, outbuf: array<byte>, usage: array<byte>,
                     blockX: nat, boffY: nat, bsizeY: nat)
    returns (ghost row: seq<(nat, nat)>)
    requires outbuf.Length == ds.width * ds.height && usage.Length == 256 && outbuf != usage
    requires blockX > 0 && boffY + bsizeY <= ds.height
    modifies outbuf, usage
    ensures row == RowWalk(boffY, TileStarts(ds.width, blockX, 0))
    ensures forall x, y :: 0 <= x < ds.width && 0 <= y < ds.height ==>
              outbuf[Index(ds.width, ds.height, x, y)] ==
                if boffY <= y < boffY + bsizeY then ds.sample(b, x, y)
                else old(outbuf[Index(ds.width, ds.height, x, y)])
    ensures forall x, y :: InRect(x, y, 0, boffY, ds.width, bsizeY) ==> usage[ds.sample(b, x, y)] == 1
    ensures forall v :: 0 <= v < 256 ==> usage[v] == old(usage[v]) || usage[v] == 1
    ensures forall v :: 0 <= v < 256 && usage[v] == 1 && old(usage[v]) != 1 ==>
              exists x, y :: InRect(x, y, 0, boffY, ds.width, bsizeY) && ds.sample(b, x, y) == v as byte
  {
    var w, h := ds.width, ds.height;
    row := [];
    var boffX := 0;
    while boffX < w
      invariant row + RowWalk(boffY, TileStarts(w, blockX, boffX)) == RowWalk(boffY, TileStarts(w, blockX, 0))
      invariant forall x, y :: 0 <= x < w && 0 <= y < h ==>
                  outbuf[Index(w, h, x, y)] ==
                    if InRect(x, y, 0, boffY, boffX, bsizeY) then ds.sample(b, x, y)
                    else old(outbuf[Index(w, h, x, y)])
      invariant forall x: nat, y: nat :: InRect(x, y, 0, boffY, boffX, bsizeY) && x < w ==> usage[ds.sample(b, x, y)] == 1
      invariant forall v :: 0 <= v < 256 ==> usage[v] == old(usage[v]) || usage[v] == 1
      invariant forall v :: 0 <= v < 256 && usage[v] == 1 && old(usage[v]) != 1 ==>
                  exists x: nat, y: nat :: InRect(x, y, 0, boffY, boffX, bsizeY) && x < w && ds.sample(b, x, y) == v as byte
    {
      var bsizeX := TileSize(boffX, blockX, w);
      var tile := ReadTile(ds, b, boffX, boffY, bsizeX, bsizeY);
      CopyTile(ds, b, tile, outbuf, usage, boffX, boffY, bsizeX, bsizeY);
      RowWalkStep(boffY, boffX, TileStarts(w, blockX, boffX + blockX));
      row := row + [(boffX, boffY)];
      boffX := boffX + blockX;
    }
  }

  /**
    Copy one tile into the flat buffer, walking the tile and the output row
    with two moving positions, and mark each copied value in `usage`.
  */
  method CopyTile(ds: Dataset, b: nat, tile: seq<byte>, outbuf: array<byte>, usage: array<byte>,
                  boffX: nat, boffY: nat, bsizeX: nat, bsizeY: nat)
    requires outbuf.Length == ds.width * ds.height && usage.Length == 256 && outbuf != usage
    requires 0 < bsizeX && boffX + bsizeX <= ds.width && boffY + bsizeY <= ds.height
    requires tile == ReadTile(ds, b, boffX, boffY, bsizeX, bsizeY)
    modifies outbuf, usage
    ensures forall x, y :: 0 <= x < ds.width && 0 <= y < ds.height ==>
              outbuf[Index(ds.width, ds.height, x, y)] ==
                if InRect(x, y, boffX, boffY, bsizeX, bsizeY) then ds.sample(b, x, y)
                else old(outbuf[Index(ds.width, ds.height, x, y)])
    ensures forall x, y :: InRect(x, y, boffX, boffY, bsizeX, bsizeY) ==> usage[ds.sample(b, x, y)] == 1
    ensures forall v :: 0 <= v < 256 ==> usage[v] == old(usage[v]) || usage[v] == 1
    ensures forall v :: 0 <= v < 256 && usage[v] == 1 && old(usage[v]) != 1 ==>
              exists x, y :: InRect(x, y, boffX, boffY, bsizeX, bsizeY) && ds.sample(b, x, y) == v as byte
  {
    var pIn := 0;
    for j := 0 to bsizeY
      invariant pIn == bsizeX * j
      invariant forall x, y :: 0 <= x < ds.width && 0 <= y < ds.height ==>
                  outbuf[Index(ds.width, ds.height, x, y)] ==
                    if InRect(x, y, boffX, boffY, bsizeX, j) then ds.sample(b, x, y)
                    else old(outbuf[Index(ds.width, ds.height, x, y)])
      invariant forall x, y :: InRect(x, y, boffX, boffY, bsizeX, j) ==> usage[ds.sample(b, x, y)] == 1
      invariant forall v :: 0 <= v < 256 ==> usage[v] == old(usage[v]) || usage[v] == 1
      invariant forall v :: 0 <= v < 256 && usage[v] == 1 && old(usage[v]) != 1 ==>
                  exists x, y :: InRect(x, y, boffX, boffY, bsizeX, j) && ds.sample(b, x, y) == v as byte
    {
      pIn := CopyRow(ds, b, tile, outbuf, usage, boffX, boffY, bsizeX, bsizeY, j, pIn);
      assert bsizeX * j + bsizeX == bsizeX * (j + 1);
    }
  }

  /**
    Copy row `j` of a tile to row `boffY + j` of the flat buffer: the row is
    one contiguous span of the tile, from `pIn`, and of the buffer, from
    `pOut`. The position after the row in the tile is returned.
  */
  method CopyRow(ds: Dataset, b: nat, tile: seq<byte>, outbuf: array<byte>, usage: array<byte>,
                 boffX: nat, boffY: nat, bsizeX: nat, bsizeY: nat, j: nat, pIn: nat)
    returns (pInNext: nat)
    requires outbuf.Length == ds.width * ds.height && usage.Length == 256 && outbuf != usage
    requires 0 < bsizeX && boffX + bsizeX <= ds.width && boffY + bsizeY <= ds.height
    requires tile == ReadTile(ds, b, boffX, boffY, bsizeX, bsizeY)
    requires j < bsizeY && pIn == bsizeX * j
    modifies outbuf, usage
    ensures pInNext == pIn + bsizeX
    ensures forall x, y :: 0 <= x < ds.width && 0 <= y < ds.height ==>
              outbuf[Index(ds.width, ds.height, x, y)] ==
                if InRect(x, y, boffX, boffY + j, bsizeX, 1) then ds.sample(b, x, y)
                else old(outbuf[Index(ds.width, ds.height, x, y)])
    ensures forall x, y :: InRect(x, y, boffX, boffY + j, bsizeX, 1) ==> usage[ds.sample(b, x, y)] == 1
    ensures forall v :: 0 <= v < 256 ==> usage[v] == old(usage[v]) || usage[v] == 1
    ensures forall v :: 0 <= v < 256 && usage[v] == 1 && old(usage[v]) != 1 ==>
              exists x, y :: InRect(x, y, boffX, boffY + j, bsizeX, 1) && ds.sample(b, x, y) == v as byte
  {
    var w, h := ds.width, ds.height;
    var y := j + boffY;
    var pOut := w * y + boffX;
    RowMajorBounds(w, h, boffX + bsizeX - 1, y);
    RowMajorBounds(bsizeX, bsizeY, bsizeX - 1, j);
    CopySpan(tile, outbuf, usage, pIn, pOut, bsizeX);
    pInNext := pIn + bsizeX;

    forall x, y' | 0 <= x < w && 0 <= y' < h
      ensures outbuf[Index(w, h, x, y')] ==
                if InRect(x, y', boffX, y, bsizeX, 1) then ds.sample(b, x, y')
                else old(outbuf[Index(w, h, x, y')])
    {
      RowSpan(w, h, x, y', y, boffX, bsizeX);
      if InRect(x, y', boffX, y, bsizeX, 1) {
        assert Index(bsizeX, bsizeY, x - boffX, j) == pIn + (Index(w, h, x, y') - pOut);
      }
    }
    forall x: nat, y': nat | InRect(x, y', boffX, y, bsizeX, 1)
      ensures usage[ds.sample(b, x, y')] == 1
    {
      assert Index(bsizeX, bsizeY, x - boffX, j) == pIn + (x - boffX);
    }
    forall v | 0 <= v < 256 && usage[v] == 1 && old(usage[v]) != 1
      ensures exists x, y' :: InRect(x, y', boffX, y, bsizeX, 1) && ds.sample(b, x, y') == v as byte
    {
      var k :| pIn <= k < pInNext && tile[k] == v as byte;
      assert Index(bsizeX, bsizeY, k - pIn, j) == k;
      assert InRect(boffX + (k - pIn), y, boffX, y, bsizeX, 1);
    }
  }

  /**
    Copy `n` bytes from position `pIn` of `tile` to position `pOut` of
    `outbuf`, marking each copied value in `usage`.
  */
  method CopySpan(tile: seq<byte>, outbuf: array<byte>, usage: array<byte>, pIn: nat, pOut: nat, n: nat)
    requires usage.Length == 256 && outbuf != usage
    requires pIn + n <= |tile| && pOut + n <= outbuf.Length
    modifies outbuf, usage
    ensures forall k :: 0 <= k < outbuf.Length ==>
              outbuf[k] == if pOut <= k < pOut + n then tile[pIn + (k - pOut)] else old(outbuf[k])
    ensures forall k :: pIn <= k < pIn + n ==> usage[tile[k]] == 1
    ensures forall v :: 0 <= v < 256 ==> usage[v] == old(usage[v]) || usage[v] == 1
    ensures forall v :: 0 <= v < 256 && usage[v] == 1 && old(usage[v]) != 1 ==>
              exists k :: pIn <= k < pIn + n && tile[k] == v as byte
  {
    var src, dst := pIn, pOut;
    for i := 0 to n
      invariant src == pIn + i && dst == pOut + i
      invariant forall k :: 0 <= k < outbuf.Length ==>
                  outbuf[k] == if pOut <= k < dst then tile[pIn + (k - pOut)] else old(outbuf[k])
      invariant forall k :: pIn <= k < src ==> usage[tile[k]] == 1
      invariant forall v :: 0 <= v < 256 ==> usage[v] == old(usage[v]) || usage[v] == 1
      invariant forall v :: 0 <= v < 256 && usage[v] == 1 && old(usage[v]) != 1 ==>
                  exists k :: pIn <= k < src && tile[k] == v as byte
    {
      var val := tile[src];
      src := src + 1;
      outbuf[dst] := val;
      dst := dst + 1;
      usage[val as int] := 1;
    }
  }

  /**
    Within a row-major buffer, the positions from (x0, y) to (x0 + sx - 1, y)
    are those of the pixels of row y between x0 and x0 + sx - 1.
  */
  lemma RowSpan(w: nat, h: nat, x: nat, y': nat, y: nat, x0: nat, sx: nat)
    requires x < w && y' < h && y < h && x0 + sx <= w
    ensures (w * y + x0 <= Index(w, h, x, y') < w * y + x0 + sx) <==> (y' == y && x0 <= x < x0 + sx)
  {
    if y' < y {
      MulMonotone(w, y' + 1, y);
      assert w * (y' + 1) == w * y' + w;
    } else if y' > y {
      MulMonotone(w, y + 1, y');
      assert w * (y + 1) == w * y + w;
    }
  }

  // ---------------------------------------------------------------------
  // Combining the no-data flags of several bands
  // ---------------------------------------------------------------------

  /**
    The new mask bit of a pixel when band position `k` is applied to it: the
    first band sets it to "valid"; later bands add valid pixels, or, when the
    no-data definition is inverted, remove no-data pixels.
  */
  function Step(k: nat, prev: bool, isNdv: bool, invert: bool): bool {
    if k == 0 then !isNdv
    else if invert then (if isNdv then false else prev)
    else (if !isNdv then true else prev)
  }

  /**
    The mask bit of pixel (x, y) after the first `n` bands of the list, where
    `ndv(k, x, y)` says whether the pixel is no-data in the band at list
    position k. Before any band the mask is all clear.
  */
  function MaskAfter(ndv: (nat, nat, nat) -> bool, invert: bool, n: nat, x: nat, y: nat): bool {
    if n == 0 then false
    else Step(n - 1, MaskAfter(ndv, invert, n - 1, x, y), ndv(n - 1, x, y), invert)
  }

  /** Without inversion the mask is the union of the bands' valid pixels. */
  lemma {:induction false} MaskIsUnion(ndv: (nat, nat, nat) -> bool, n: nat, x: nat, y: nat)
    ensures MaskAfter(ndv, false, n, x, y) <==> exists k :: 0 <= k < n && !ndv(k, x, y)
  {
    if n > 0 {
      MaskIsUnion(ndv, n - 1, x, y);
      if MaskAfter(ndv, false, n - 1, x, y) {
        var k :| 0 <= k < n - 1 && !ndv(k, x, y);
        assert 0 <= k < n && !ndv(k, x, y);
      }
    }
  }

  /**
    With inversion the mask is the intersection of the bands' valid pixels
    (when there is at least one band).
  */
  lemma {:induction false} MaskIsIntersection(ndv: (nat, nat, nat) -> bool, n: nat, x: nat, y: nat)
    requires n > 0
    ensures MaskAfter(ndv, true, n, x, y) <==> forall k :: 0 <= k < n ==> !ndv(k, x, y)
  {
    if n > 1 {
      MaskIsIntersection(ndv, n - 1, x, y);
    }
  }

  /**
    Later bands only add pixels without inversion and only remove pixels
    with it: the mask after `m` bands (m ≥ 1) and after `n ≥ m` bands are
    ordered accordingly.
  */
  lemma {:induction false} LaterBandsMonotone(ndv: (nat, nat, nat) -> bool, invert: bool, m: nat, n: nat, x: nat, y: nat)
    requires 1 <= m <= n
    ensures !invert ==> (MaskAfter(ndv, invert, m, x, y) ==> MaskAfter(ndv, invert, n, x, y))
    ensures invert ==> (MaskAfter(ndv, invert, n, x, y) ==> MaskAfter(ndv, invert, m, x, y))
    decreases n
  {
    if m < n {
      LaterBandsMonotone(ndv, invert, m, n - 1, x, y);
    }
  }

  /**
    The mask of the bands in `bandlist`, in order, over the whole raster. Any
    band number outside 1..bandCount is a fatal error (`None`): no mask is
    returned, even if earlier bands were already applied.
  */
  method GetBitgridForDataset(ds: Dataset, bandlist: seq<nat>, ndv: (nat, nat, nat) -> bool, invert: bool)
    returns (r: Option<BitGrid>)
    requires TiledBands(ds)
    ensures r.None? <==> exists k :: 0 <= k < |bandlist| && !ValidBand(ds, bandlist[k])
    ensures r.Some? ==> fresh(r.value) && fresh(r.value.bits) && r.value.Valid()
    ensures r.Some? ==> r.value.w == ds.width && r.value.h == ds.height
    ensures r.Some? ==> forall x, y :: 0 <= x < ds.width && 0 <= y < ds.height ==>
              r.value.bits[x, y] == MaskAfter(ndv, invert, |bandlist|, x, y)
  {
    var mask := new BitGrid(ds.width, ds.height);
    mask.Zero();
    for k := 0 to |bandlist|
      invariant fresh(mask) && fresh(mask.bits) && mask.Valid()
      invariant mask.w == ds.width && mask.h == ds.height
      invariant forall j :: 0 <= j < k ==> ValidBand(ds, bandlist[j])
      invariant forall x, y :: 0 <= x < mask.w && 0 <= y < mask.h ==>
                  mask.bits[x, y] == MaskAfter(ndv, invert, k, x, y)
    {
      var bandIdx := bandlist[k];
      if bandIdx < 1 || bandIdx > ds.bandCount {
        return None;
      }
      var (blockX, blockY) := ds.blockSize(bandIdx);
      ghost var walk := ApplyBand(mask, k, blockX, blockY, ndv, invert);
    }
    r := Some(mask);
  }

  /**
    Apply band position `k` to every pixel, tile by tile. The ghost `walk`
    records the tiles in the order the loops visit them: it is the clamped
    tile walk of the image, which covers every pixel exactly once.
  */
  method ApplyBand(mask: BitGrid, k: nat, blockX: nat, blockY: nat, ndv: (nat, nat, nat) -> bool, invert: bool)
    returns (ghost walk: seq<(nat, nat)>)
    requires mask.Valid() && blockX > 0 && blockY > 0
    modifies mask.bits
    ensures walk == ImageWalk(mask.w, blockX, mask.h, blockY)
    ensures forall x, y :: 0 <= x < mask.w && 0 <= y < mask.h ==>
              mask.bits[x, y] == Step(k, old(mask.bits[x, y]), ndv(k, x, y), invert)
  {
    var w, h := mask.w, mask.h;
    ghost var xs := TileStarts(w, blockX, 0);
    walk := [];
    var boffY := 0;
    while boffY < h
      invariant walk + TileWalk(TileStarts(h, blockY, boffY), xs) == TileWalk(TileStarts(h, blockY, 0), xs)
      invariant forall x, y :: 0 <= x < w && 0 <= y < h ==>
                  mask.bits[x, y] == if y < boffY then Step(k, old(mask.bits[x, y]), ndv(k, x, y), invert)
                                     else old(mask.bits[x, y])
    {
      var bsizeY := TileSize(boffY, blockY, h);
      ghost var row := ApplyTileRow(mask, k, blockX, boffY, bsizeY, ndv, invert);
      TileWalkStep(boffY, TileStarts(h, blockY, boffY + blockY), xs);
      walk := walk + row;
      boffY := boffY + blockY;
    }
  }

  /**
    Apply band position `k` to the tile row of height `bsizeY` at `boffY`,
    tile by tile from the left; `row` records the tiles visited.
  */
  method ApplyTileRow(mask: BitGrid, k: nat, blockX: nat, boffY: nat, bsizeY: nat,
                      ndv: (nat, nat, nat) -> bool, invert: bool)
    returns (ghost row: seq<(nat, nat)>)
    requires mask.Valid() && blockX > 0 && boffY + bsizeY <= mask.h
    modifies mask.bits
    ensures row == RowWalk(boffY, TileStarts(mask.w, blockX, 0))
    ensures forall x, y :: 0 <= x < mask.w && 0 <= y < mask.h ==>
              mask.bits[x, y] == if boffY <= y < boffY + bsizeY
                                 then Step(k, old(mask.bits[x, y]), ndv(k, x, y), invert)
                                 else old(mask.bits[x, y])
  {
    var w := mask.w;
    row := [];
    var boffX := 0;
    while boffX < w
      invariant row + RowWalk(boffY, TileStarts(w, blockX, boffX)) == RowWalk(boffY, TileStarts(w, blockX, 0))
      invariant forall x, y :: 0 <= x < w && 0 <= y < mask.h ==>
                  mask.bits[x, y] == if InRect(x, y, 0, boffY, boffX, bsizeY)
                                     then Step(k, old(mask.bits[x, y]), ndv(k, x, y), invert)
                                     else old(mask.bits[x, y])
    {
      var bsizeX := TileSize(boffX, blockX, w);
      ApplyTile(mask, k, boffX, boffY, bsizeX, bsizeY, ndv, invert);
      RowWalkStep(boffY, boffX, TileStarts(w, blockX, boffX + blockX));
      row := row + [(boffX, boffY)];
      boffX := boffX + blockX;
    }
  }

  /** Apply band position `k` to one tile, row by row. */
  method ApplyTile(mask: BitGrid, k: nat, boffX: nat, boffY: nat, bsizeX: nat, bsizeY: nat,
                   ndv: (nat, nat, nat) -> bool, invert: bool)
    requires mask.Valid() && boffX + bsizeX <= mask.w && boffY + bsizeY <= mask.h
    modifies mask.bits
    ensures forall x, y :: 0 <= x < mask.w && 0 <= y < mask.h ==>
              mask.bits[x, y] == if InRect(x, y, boffX, boffY, bsizeX, bsizeY)
                                 then Step(k, old(mask.bits[x, y]), ndv(k, x, y), invert)
                                 else old(mask.bits[x, y])
  {
    for j := 0 to bsizeY
      invariant forall x, y :: 0 <= x < mask.w && 0 <= y < mask.h ==>
                  mask.bits[x, y] == if InRect(x, y, boffX, boffY, bsizeX, j)
                                     then Step(k, old(mask.bits[x, y]), ndv(k, x, y), invert)
                                     else old(mask.bits[x, y])
    {
      var y := j + boffY;
      var rowNdv := seq(bsizeX, i requires 0 <= i < bsizeX => ndv(k, boffX + i, y));
      ApplyRow(mask, k, boffX, y, rowNdv, invert);
    }
  }

  /**
    Apply band position `k` to `|rowNdv|` pixels of row `y` from column
    `boffX`, given their no-data flags.
  */
  method ApplyRow(mask: BitGrid, k: nat, boffX: nat, y: nat, rowNdv: seq<bool>, invert: bool)
    requires mask.Valid() && boffX + |rowNdv| <= mask.w && y < mask.h
    modifies mask.bits
    ensures forall x, y' :: 0 <= x < mask.w && 0 <= y' < mask.h ==>
              mask.bits[x, y'] == if y' == y && boffX <= x < boffX + |rowNdv|
                                  then Step(k, old(mask.bits[x, y']), rowNdv[x - boffX], invert)
                                  else old(mask.bits[x, y'])
  {
    if k == 0 {
      for i := 0 to |rowNdv|
        invariant forall x, y' :: 0 <= x < mask.w && 0 <= y' < mask.h ==>
                    mask.bits[x, y'] == if y' == y && boffX <= x < boffX + i
                                        then Step(k, old(mask.bits[x, y']), rowNdv[x - boffX], invert)
                                        else old(mask.bits[x, y'])
      {
        mask.Set(boffX + i, y, !rowNdv[i]);
      }
    } else if invert {
      for i := 0 to |rowNdv|
        invariant forall x, y' :: 0 <= x < mask.w && 0 <= y' < mask.h ==>
                    mask.bits[x, y'] == if y' == y && boffX <= x < boffX + i
                                        then Step(k, old(mask.bits[x, y']), rowNdv[x - boffX], invert)
                                        else old(mask.bits[x, y'])
      {
        if rowNdv[i] {
          mask.Set(boffX + i, y, false);
        }
      }
    } else {
      for i := 0 to |rowNdv|
        invariant forall x, y' :: 0 <= x < mask.w && 0 <= y' < mask.h ==>
                    mask.bits[x, y'] == if y' == y && boffX <= x < boffX + i
                                        then Step(k, old(mask.bits[x, y']), rowNdv[x - boffX], invert)
                                        else old(mask.bits[x, y'])
      {
        if !rowNdv[i] {
          mask.Set(boffX + i, y, true);
        }
      }
    }
  }
}
