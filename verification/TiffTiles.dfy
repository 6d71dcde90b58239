/** The double loop over the tiles of a TIFF image. */
module TiffTiles {
  import opened Basics
  import opened Raster
  import opened Tiff2Rgba

  /** A tile as it is written: where it starts and its pixels. */
  datatype Tile = Tile(row: nat, col: nat, data: seq<Pixel>)

  /** An image and the size of its tiles. */
  datatype Tiling = Tiling(image: seq<Pixel>, width: nat, height: nat, tileWidth: nat, tileHeight: nat)

  /** The starts of the last row and column of tiles, and the ends of these tiles, fit 32 bits. */
  ghost predicate Valid(g: Tiling) {
    && |g.image| == Start(g.width, g.height)
    && 0 < g.tileWidth && 0 < g.tileHeight
    && (g.height > 0 ==> LastStart(g.height, g.tileHeight) + g.tileHeight < TWO_TO_THE_32)
    && (g.width > 0 ==> LastStart(g.width, g.tileWidth) + g.tileWidth < TWO_TO_THE_32)
  }

  /** How many pieces of a size cover a length. */
  function Pieces(length: nat, size: nat): nat
    requires size > 0
  {
    if length == 0 then 0 else (length - 1) / size + 1
  }

  lemma PiecesCover(length: nat, size: nat, k: nat)
    requires size > 0
    ensures Start(size, k) < length <==> k < Pieces(length, size)
  {
    hide Start;
    if length > 0 {
      LastStartIsLast(length, size, k);
      var last := (length - 1) / size;
      DivisionSplits(size, length - 1);
      StartsApart(size, last, k);
      StartsApart(size, k, last);
    }
  }

  // ----- What a tile holds -----

  /** The part of line `y` of the image that starts at column `col` and belongs to one tile. */
  function Part(g: Tiling, y: nat, col: nat): seq<Pixel>
    requires Valid(g) && y < g.height && col < g.width
  {
    StartsApart(g.width, y, g.height);
    var n := if g.tileWidth < g.width - col then g.tileWidth else g.width - col;
    g.image[Start(g.width, y) + col..Start(g.width, y) + col + n]
  }

  /** Line `y` of the tile at a row and column holds its part of the image, if it is inside the image. */
  ghost predicate LineHolds(g: Tiling, line: seq<Pixel>, row: nat, col: nat, y: nat)
    requires Valid(g) && row < g.height && col < g.width
  {
    row + y < g.height ==> Part(g, row + y, col) <= line
  }

  /** The tile's rows are those of the image, from the top down. */
  ghost predicate Holds(g: Tiling, t: Tile)
    requires Valid(g)
  {
    && t.row < g.height && t.col < g.width && |t.data| == Start(g.tileWidth, g.tileHeight)
    && forall y: nat :: y < g.tileHeight ==> LineHolds(g, Row(t.data, g.tileWidth, y), t.row, t.col, y)
  }

  /** What the library's reader leaves for a tile: its rows from the bottom up. */
  ghost predicate ReadsTile(g: Tiling, read: seq<Pixel>, row: nat, col: nat)
    requires Valid(g) && row < g.height && col < g.width
  {
    && |read| == Start(g.tileWidth, g.tileHeight)
    && forall r: nat :: r < g.tileHeight ==> LineHolds(g, Row(read, g.tileWidth, r), row, col, g.tileHeight - 1 - r)
  }

  /** Element by element, for the pixels of the tile that lie in the image. */
  lemma ReadsTileAt(g: Tiling, read: seq<Pixel>, row: nat, col: nat, r: nat, x: nat)
    requires Valid(g) && row < g.height && col < g.width && ReadsTile(g, read, row, col)
    requires r < g.tileHeight && x < g.tileWidth && row + r < g.height && col + x < g.width
    ensures var place := (g.tileHeight - 1 - r) * g.tileWidth + x;
            && 0 <= place < |read| && 0 <= (row + r) * g.width + (col + x) < |g.image|
            && read[place] == g.image[(row + r) * g.width + (col + x)]
  {
    var t := g.tileHeight - 1 - r;
    assert |read| == Start(g.tileWidth, g.tileHeight) && |g.image| == Start(g.width, g.height);
    hide Start, Part;
    assert LineHolds(g, Row(read, g.tileWidth, t), row, col, g.tileHeight - 1 - t);
    hide ReadsTile;
    LineElement(read, g.tileWidth, g.tileHeight, t, x);
    PartHolds(g, row + r, col, col + x);
    PlaceInRaster(g.width, row + r, col + x, g.height);
    assert Row(read, g.tileWidth, t)[x] == Part(g, row + r, col)[x];
  }

  lemma LineElement(s: seq<Pixel>, w: nat, n: nat, r: nat, x: nat)
    requires |s| == Start(w, n) && r < n && x < w
    ensures |Row(s, w, r)| == w && 0 <= r * w + x < |s| && Row(s, w, r)[x] == s[r * w + x]
  {
    PlaceInRaster(w, r, x, n);
    hide Start;
  }

  lemma TurnedHolds(g: Tiling, read: seq<Pixel>, turned: seq<Pixel>, row: nat, col: nat)
    requires Valid(g) && row < g.height && col < g.width && ReadsTile(g, read, row, col)
    requires IsMirror(turned, read, g.tileWidth, g.tileHeight)
    ensures Holds(g, Tile(row, col, turned))
  {
    hide Row, Start, LineHolds;
    forall y: nat | y < g.tileHeight ensures LineHolds(g, Row(turned, g.tileWidth, y), row, col, y) {
      assert Row(turned, g.tileWidth, y) == Row(read, g.tileWidth, g.tileHeight - 1 - y);
    }
  }

  // ----- The order of the tiles -----

  /** Tile number `Start(columns, i) + j`, if it is written, is the one in row `i` and column `j` of tiles. */
  ghost predicate TileDone(g: Tiling, tiles: seq<Tile>, i: nat, j: nat)
    requires Valid(g)
  {
    var columns := Pieces(g.width, g.tileWidth);
    var k := Start(columns, i) + j;
    j < columns && k < |tiles| ==>
      && tiles[k].row == Start(g.tileHeight, i) && tiles[k].col == Start(g.tileWidth, j)
      && Holds(g, tiles[k])
  }

  ghost predicate InOrder(g: Tiling, tiles: seq<Tile>)
    requires Valid(g)
  {
    forall i: nat, j: nat :: TileDone(g, tiles, i, j)
  }

  ghost predicate Complete(g: Tiling, tiles: seq<Tile>)
    requires Valid(g)
  {
    InOrder(g, tiles) && |tiles| == Start(Pieces(g.width, g.tileWidth), Pieces(g.height, g.tileHeight))
  }

  lemma TileAppended(g: Tiling, tiles: seq<Tile>, t: Tile, i: nat, j: nat)
    requires Valid(g) && InOrder(g, tiles) && Holds(g, t)
    requires t.row == Start(g.tileHeight, i) && t.col == Start(g.tileWidth, j)
    requires j < Pieces(g.width, g.tileWidth) && |tiles| == Start(Pieces(g.width, g.tileWidth), i) + j
    ensures InOrder(g, tiles + [t])
  {
    hide Start, Holds, Pieces;
    var columns := Pieces(g.width, g.tileWidth);
    forall p: nat, q: nat ensures TileDone(g, tiles + [t], p, q) {
      assert TileDone(g, tiles, p, q);
      StartsApart(columns, p, i);
      StartsApart(columns, i, p);
    }
  }

  /** Tile number `k`, in row `i` and column `j` of tiles, is the one that cannot be read or written. */
  ghost predicate FailsAt(g: Tiling, k: nat, i: nat, j: nat, reader: (nat, nat) -> Option<seq<Pixel>>,
                          writable: (nat, nat) -> bool)
    requires Valid(g)
  {
    var row, col := Start(g.tileHeight, i), Start(g.tileWidth, j);
    && k == Start(Pieces(g.width, g.tileWidth), i) + j && row < g.height && col < g.width
    && (reader(row, col).None? || !writable(row, col))
  }

  /** Convert tile by tile; reading or writing one can fail. The tiles written are in order and each holds its
      part of the image from the top down; without a failure they are all the tiles, and otherwise the next one
      failed. */
  method CvtByTile(ghost g: Tiling, width: nat, height: nat, tileWidth: nat, tileHeight: nat,
                   reader: (nat, nat) -> Option<seq<Pixel>>, writable: (nat, nat) -> bool)
    returns (ok: bool, tiles: seq<Tile>)
    requires Valid(g) && (g.width, g.height, g.tileWidth, g.tileHeight) == (width, height, tileWidth, tileHeight)
    requires forall row: nat, col: nat :: row < height && col < width && reader(row, col).Some? ==>
               ReadsTile(g, reader(row, col).value, row, col)
    ensures InOrder(g, tiles)
    ensures ok ==> Complete(g, tiles)
    ensures !ok ==> exists i: nat, j: nat :: FailsAt(g, |tiles|, i, j, reader, writable)
  {
    hide Start, ReadsTile, InOrder, Pieces;
    StartIsProduct(tileWidth, tileHeight);
    var raster := new Pixel[tileWidth * tileHeight];
    var wrkLine := new Pixel[tileWidth];
    ghost var columns := Pieces(width, tileWidth);
    tiles, ok := [], true;
    NoTiles(g);
    Origin(columns, tileHeight);
    var row: nat := 0;
    ghost var i: nat := 0;
    while row < height
      invariant row == Start(tileHeight, i) && |tiles| == Start(columns, i)
      invariant i <= Pieces(height, tileHeight) && InOrder(g, tiles)
      decreases height - row
    {
      PiecesCover(height, tileHeight, i);
      Origin(tileWidth, tileWidth);
      var col: nat := 0;
      ghost var j: nat := 0;
      while col < width
        invariant col == Start(tileWidth, j) && |tiles| == Start(columns, i) + j
        invariant j <= columns && InOrder(g, tiles)
        decreases width - col
      {
        PiecesCover(width, tileWidth, j);
        var read := reader(row, col);
        if read.None? {
          assert FailsAt(g, |tiles|, i, j, reader, writable);
          return false, tiles;
        }
        TileSize(g, read.value, row, col);
        ConvertTile(read.value, tileWidth, tileHeight, raster, wrkLine);
        if !writable(row, col) {
          assert FailsAt(g, |tiles|, i, j, reader, writable);
          return false, tiles;
        }
        var tile := Tile(row, col, raster[..]);
        TurnedHolds(g, read.value, raster[..], row, col);
        TileAppended(g, tiles, tile, i, j);
        tiles := tiles + [tile];
        StartStep(tileWidth, j);
        col, j := col + tileWidth, j + 1;
      }
      PiecesCover(width, tileWidth, j);
      StartStep(columns, i);
      StartStep(tileHeight, i);
      row, i := row + tileHeight, i + 1;
    }
    PiecesCover(height, tileHeight, i);
  }

  lemma NoTiles(g: Tiling)
    requires Valid(g)
    ensures InOrder(g, [])
  {}

  lemma Origin(a: nat, b: nat)
    ensures Start(a, 0) == 0 && Start(b, 0) == 0
  {}

  lemma TileSize(g: Tiling, read: seq<Pixel>, row: nat, col: nat)
    requires Valid(g) && row < g.height && col < g.width && ReadsTile(g, read, row, col)
    ensures |read| == Start(g.tileWidth, g.tileHeight)
  {}

  // ----- Every pixel is in exactly one tile -----

  predicate InTile(g: Tiling, t: Tile, y: nat, x: nat) {
    t.row <= y < t.row + g.tileHeight && t.col <= x < t.col + g.tileWidth
  }

  /** Every position lies in a piece, and only in one. */
  lemma PieceOf(size: nat, x: nat) returns (k: nat)
    requires size > 0
    ensures Start(size, k) <= x < Start(size, k) + size
  {
    k := x / size;
    hide Start;
    DivisionSplits(size, x);
  }

  lemma OnePiece(size: nat, x: nat, k: nat, l: nat)
    requires Start(size, k) <= x < Start(size, k) + size && Start(size, l) <= x < Start(size, l) + size
    ensures k == l
  {
    hide Start;
    StartsApart(size, k, l);
    StartsApart(size, l, k);
  }

  /** Tile `m` is in row `i` and column `j` of tiles. */
  ghost predicate IsTile(g: Tiling, tiles: seq<Tile>, m: nat, i: nat, j: nat)
    requires Valid(g)
  {
    && m == Start(Pieces(g.width, g.tileWidth), i) + j && m < |tiles| && j < Pieces(g.width, g.tileWidth)
    && tiles[m].row == Start(g.tileHeight, i) && tiles[m].col == Start(g.tileWidth, j) && Holds(g, tiles[m])
  }

  lemma TileNumber(g: Tiling, tiles: seq<Tile>, m: nat) returns (i: nat, j: nat)
    requires Valid(g) && Complete(g, tiles) && m < |tiles|
    ensures IsTile(g, tiles, m, i, j)
  {
    var columns := Pieces(g.width, g.tileWidth);
    if columns == 0 {
      StartIsProduct(columns, Pieces(g.height, g.tileHeight));
    }
    i, j := m / columns, m % columns;
    hide Start, Pieces, Holds;
    DivisionSplits(columns, m);
    assert TileDone(g, tiles, i, j);
  }

  lemma PixelTile(g: Tiling, tiles: seq<Tile>, y: nat, x: nat) returns (k: nat, i: nat, j: nat)
    requires Valid(g) && Complete(g, tiles) && y < g.height && x < g.width
    ensures IsTile(g, tiles, k, i, j)
    ensures Start(g.tileHeight, i) <= y < Start(g.tileHeight, i) + g.tileHeight
    ensures Start(g.tileWidth, j) <= x < Start(g.tileWidth, j) + g.tileWidth
  {
    hide Start, Pieces, Holds;
    i := PieceOf(g.tileHeight, y);
    j := PieceOf(g.tileWidth, x);
    PiecesCover(g.height, g.tileHeight, i);
    PiecesCover(g.width, g.tileWidth, j);
    var columns := Pieces(g.width, g.tileWidth);
    k := Start(columns, i) + j;
    StartsApart(columns, i, Pieces(g.height, g.tileHeight));
    assert TileDone(g, tiles, i, j);
  }

  /** The pixel is in the tile and stored at its place there. */
  ghost predicate HoldsPixel(g: Tiling, t: Tile, y: nat, x: nat) {
    && InTile(g, t, y, x)
    && Start(g.tileWidth, y - t.row) + (x - t.col) < |t.data| && Start(g.width, y) + x < |g.image|
    && t.data[Start(g.tileWidth, y - t.row) + (x - t.col)] == g.image[Start(g.width, y) + x]
  }

  lemma TileHoldsPixel(g: Tiling, t: Tile, y: nat, x: nat)
    requires Valid(g) && Holds(g, t) && y < g.height && x < g.width && InTile(g, t, y, x)
    ensures HoldsPixel(g, t, y, x)
  {
    hide Start, Part;
    StartsApart(g.tileWidth, y - t.row, g.tileHeight);
    var line := Row(t.data, g.tileWidth, y - t.row);
    assert LineHolds(g, line, t.row, t.col, y - t.row);
    PartHolds(g, y, t.col, x);
    assert line[x - t.col] == Part(g, y, t.col)[x - t.col];
  }

  lemma PartHolds(g: Tiling, y: nat, col: nat, x: nat)
    requires Valid(g) && y < g.height && col <= x < g.width && x < col + g.tileWidth
    ensures x - col < |Part(g, y, col)| && Start(g.width, y) + x < |g.image|
    ensures Part(g, y, col)[x - col] == g.image[Start(g.width, y) + x]
  {
    hide Start;
    StartsApart(g.width, y, g.height);
  }

  /** Tile `k` holds the pixel, and no other tile covers it. */
  ghost predicate HoldsAlone(g: Tiling, tiles: seq<Tile>, k: nat, y: nat, x: nat)
    requires k < |tiles|
  {
    HoldsPixel(g, tiles[k], y, x) && forall m :: 0 <= m < |tiles| && InTile(g, tiles[m], y, x) ==> m == k
  }

  /** Every pixel of the image lies in exactly one of the tiles written, which holds it in its place. */
  lemma EveryPixelOnce(g: Tiling, tiles: seq<Tile>, y: nat, x: nat)
    requires Valid(g) && Complete(g, tiles) && y < g.height && x < g.width
    ensures exists k :: 0 <= k < |tiles| && HoldsAlone(g, tiles, k, y, x)
  {
    hide Start, Pieces, Holds, Complete, HoldsPixel, Valid;
    var k, i, j := PixelTile(g, tiles, y, x);
    TileHoldsPixel(g, tiles[k], y, x);
    forall m: nat | m < |tiles| && InTile(g, tiles[m], y, x) ensures m == k {
      var p, q := TileNumber(g, tiles, m);
      OnePiece(g.tileHeight, y, i, p);
      OnePiece(g.tileWidth, x, j, q);
    }
    assert HoldsAlone(g, tiles, k, y, x);
  }
}
