/** Conversion of TIFF images: strips and tiles are mirrored in place. */
module Tiff2Rgba {
  import opened Basics
  import opened Raster

  type Pixel = int

  const TWO_TO_THE_31 := 0x8000_0000
  const TWO_TO_THE_32 := 0x1_0000_0000

  // ----- Rows -----

  /** Row `r` of a sequence, or nothing if it has no such row. */
  function Row<T>(s: seq<T>, w: nat, r: nat): seq<T> {
    if Start(w, r) + w <= |s| then s[Start(w, r)..Start(w, r) + w] else []
  }

  /** Rows `row` to `row + rows`. */
  function Rows<T>(s: seq<T>, w: nat, row: nat, rows: nat): (t: seq<T>)
    requires Start(w, row + rows) <= |s|
    ensures |t| == Start(w, rows)
  {
    StartAdds(w, row, rows);
    s[Start(w, row)..Start(w, row + rows)]
  }

  /** `a` consists of the `n` rows of `b` in reverse order. */
  ghost predicate IsMirror<T>(a: seq<T>, b: seq<T>, w: nat, n: nat) {
    && |a| == |b| == Start(w, n)
    && forall r: nat :: r < n ==> Row(a, w, r) == Row(b, w, n - 1 - r)
  }

  lemma {:induction false} RowsDetermine<T>(a: seq<T>, b: seq<T>, w: nat, n: nat)
    requires |a| == |b| == Start(w, n)
    requires forall r: nat :: r < n ==> Row(a, w, r) == Row(b, w, r)
    ensures a == b
    decreases n
  {
    if n > 0 {
      var m := Start(w, n - 1);
      forall r: nat | r < n - 1 ensures Row(a[..m], w, r) == Row(b[..m], w, r) {
        StartsApart(w, r, n - 1);
        assert Row(a[..m], w, r) == Row(a, w, r) && Row(b[..m], w, r) == Row(b, w, r);
      }
      RowsDetermine(a[..m], b[..m], w, n - 1);
      assert Row(a, w, n - 1) == Row(b, w, n - 1);
      assert a == a[..m] + Row(a, w, n - 1) && b == b[..m] + Row(b, w, n - 1);
    }
  }

  /** Mirroring twice restores the rows. */
  lemma MirrorTwice<T>(a: seq<T>, b: seq<T>, c: seq<T>, w: nat, n: nat)
    requires IsMirror(a, b, w, n) && IsMirror(b, c, w, n)
    ensures a == c
  {
    forall r: nat | r < n ensures Row(a, w, r) == Row(c, w, r) {
      assert Row(a, w, r) == Row(b, w, n - 1 - r);
    }
    RowsDetermine(a, c, w, n);
  }

  // ----- Mirroring in place -----

  method CopyElements<T>(dst: array<T>, d: nat, src: array<T>, s: nat, n: nat)
    requires d + n <= dst.Length && s + n <= src.Length
    requires dst != src || d + n <= s || s + n <= d
    modifies dst
    ensures dst[..] == old(dst[..d] + src[s..s + n] + dst[d + n..])
  {
    for i := 0 to n
      invariant forall j :: 0 <= j < dst.Length ==>
                  dst[j] == if d <= j < d + i then old(src[s + j - d]) else old(dst[j])
    {
      dst[d + i] := src[s + i];
    }
  }

  /** Exchange two lines through the work line. */
  method SwapLines<T>(raster: array<T>, wrkLine: array<T>, width: nat, top: nat, bottom: nat)
    requires top + width <= bottom && bottom + width <= raster.Length
    requires wrkLine != raster && wrkLine.Length == width
    modifies raster, wrkLine
    ensures Swapped(raster[..], old(raster[..]), width, top, bottom)
  {
    ghost var before := raster[..];
    CopyElements(wrkLine, 0, raster, top, width);
    assert wrkLine[..] == before[top..top + width] && raster[..] == before;
    CopyElements(raster, top, raster, bottom, width);
    ghost var mid := raster[..];
    CopyElements(raster, bottom, wrkLine, 0, width);
    CopiesSwap(before, mid, raster[..], width, top, bottom);
  }

  lemma CopiesSwap<T>(before: seq<T>, mid: seq<T>, s: seq<T>, w: nat, top: nat, bottom: nat)
    requires top + w <= bottom && bottom + w <= |before| == |mid|
    requires mid == before[..top] + before[bottom..bottom + w] + before[top + w..]
    requires s == mid[..bottom] + before[top..top + w] + mid[bottom + w..]
    ensures Swapped(s, before, w, top, bottom)
  {
    assert s[..top] == mid[..top] == before[..top];
    assert s[top..top + w] == mid[top..top + w] == before[bottom..bottom + w];
    assert s[top + w..bottom] == before[top + w..bottom] by {
      forall k | top + w <= k < bottom ensures s[k] == before[k] { assert s[k] == mid[k]; }
    }
    assert s[bottom + w..] == before[bottom + w..] by {
      forall k | bottom + w <= k < |s| ensures s[k] == before[k] { assert s[k] == mid[k]; }
    }
  }

  /** Only the lines at `top` and `bottom` differ: they are exchanged. */
  ghost predicate Swapped<T>(s: seq<T>, before: seq<T>, w: nat, top: nat, bottom: nat)
    requires top + w <= bottom && bottom + w <= |before|
  {
    && |s| == |before|
    && s[..top] == before[..top]
    && s[top..top + w] == before[bottom..bottom + w]
    && s[top + w..bottom] == before[top + w..bottom]
    && s[bottom..bottom + w] == before[top..top + w]
    && s[bottom + w..] == before[bottom + w..]
  }

  lemma SameSlice<T>(s: seq<T>, t: seq<T>, x: nat, y: nat, a: nat, w: nat)
    requires |s| == |t| && x <= a && a + w <= y <= |s| && s[x..y] == t[x..y]
    ensures s[a..a + w] == t[a..a + w]
  {
    forall k | a <= k < a + w ensures s[k] == t[k] {
      assert s[x..y][k - x] == t[x..y][k - x];
    }
  }

  /** A line clear of both is unchanged. */
  lemma OtherLineStays<T>(s: seq<T>, before: seq<T>, w: nat, top: nat, bottom: nat, a: nat)
    requires top + w <= bottom && bottom + w <= |before| && a + w <= |before|
    requires Swapped(s, before, w, top, bottom)
    requires (a + w <= top || top + w <= a) && (a + w <= bottom || bottom + w <= a)
    ensures s[a..a + w] == before[a..a + w]
  {
    if a + w <= top {
      SameSlice(s, before, 0, top, a, w);
    } else if a + w <= bottom {
      SameSlice(s, before, top + w, bottom, a, w);
    } else {
      SameSlice(s, before, bottom + w, |s|, a, w);
    }
  }

  lemma TailStays<T>(s: seq<T>, before: seq<T>, w: nat, top: nat, bottom: nat, end: nat)
    requires top + w <= bottom && bottom + w <= end <= |before| && Swapped(s, before, w, top, bottom)
    ensures s[end..] == before[end..]
  {
    forall k | end <= k < |s| ensures s[k] == before[k] {
      assert s[bottom + w..][k - bottom - w] == before[bottom + w..][k - bottom - w];
    }
  }

  lemma OtherRowStays<T>(s: seq<T>, before: seq<T>, w: nat, n: nat, p: nat, q: nat, r: nat)
    requires p < q < n && r < n && r != p && r != q && Start(w, n) <= |before|
    requires Start(w, p) + w <= Start(w, q) && Start(w, q) + w <= |before|
    requires Swapped(s, before, w, Start(w, p), Start(w, q))
    ensures Row(s, w, r) == Row(before, w, r)
  {
    hide Start;
    StartsApart(w, r, n);
    var a := Start(w, r);
    assert a + w <= Start(w, p) || Start(w, p) + w <= a by {
      StartsApart(w, r, p);
      StartsApart(w, p, r);
    }
    assert a + w <= Start(w, q) || Start(w, q) + w <= a by {
      StartsApart(w, r, q);
      StartsApart(w, q, r);
    }
    assert |s| == |before| && s[a..a + w] == before[a..a + w] by {
      OtherLineStays(s, before, w, Start(w, p), Start(w, q), a);
    }
  }

  lemma RowsSwapped<T>(s: seq<T>, before: seq<T>, w: nat, n: nat, p: nat, q: nat, r: nat)
    requires p < q < n && r < n && Start(w, n) <= |before|
    requires Start(w, p) + w <= Start(w, q) && Start(w, q) + w <= |before|
    requires Swapped(s, before, w, Start(w, p), Start(w, q))
    ensures Row(s, w, r) == Row(before, w, if r == p then q else if r == q then p else r)
  {
    hide Start;
    var top, bottom := Start(w, p), Start(w, q);
    assert |s| == |before| && s[top..top + w] == before[bottom..bottom + w]
        && s[bottom..bottom + w] == before[top..top + w];
    hide Swapped;
    if r != p && r != q {
      OtherRowStays(s, before, w, n, p, q, r);
    }
  }

  /** One round of mirroring puts two more rows in place. */
  lemma MirrorRound<T>(s: seq<T>, prior: seq<T>, before: seq<T>, w: nat, n: nat, i: nat)
    requires i < n / 2 && Start(w, n) <= |prior|
    requires Start(w, i) + w <= Start(w, n - 1 - i) && Start(w, n - 1 - i) + w <= |prior|
    requires Swapped(s, prior, w, Start(w, i), Start(w, n - 1 - i))
    requires MirroredUpTo(prior, before, w, n, i)
    ensures MirroredUpTo(s, before, w, n, i + 1)
  {
    hide Start;
    forall r: nat | r < n
      ensures Row(s, w, r) == Row(before, w, if r < i + 1 || r >= n - (i + 1) then n - 1 - r else r)
    {
      RowsSwapped(s, prior, w, n, i, n - 1 - i, r);
    }
  }

  /** The outer `i` rows at both ends are in their mirrored places, the others in their own. */
  ghost predicate MirroredUpTo<T>(s: seq<T>, before: seq<T>, w: nat, n: nat, i: nat) {
    forall r: nat :: r < n ==> Row(s, w, r) == Row(before, w, if r < i || r >= n - i then n - 1 - r else r)
  }

  lemma MirrorFinished<T>(s: seq<T>, before: seq<T>, w: nat, n: nat)
    requires MirroredUpTo(s, before, w, n, n / 2) && |s| == |before| && Start(w, n) <= |s|
    ensures IsMirror(s[..Start(w, n)], before[..Start(w, n)], w, n)
  {
    hide Row, Start;
    forall r: nat | r < n ensures Row(s[..Start(w, n)], w, r) == Row(before[..Start(w, n)], w, n - 1 - r) {
      FrontRow(s, w, n, r);
      FrontRow(before, w, n, n - 1 - r);
      assert !(r < n / 2 || r >= n - n / 2) ==> r == n - 1 - r;
    }
  }

  /** Mirror the first `rows` rows. */
  method MirrorRows<T>(raster: array<T>, wrkLine: array<T>, width: nat, rows: nat)
    requires Start(width, rows) <= raster.Length && wrkLine != raster && wrkLine.Length == width
    modifies raster, wrkLine
    ensures IsMirror(raster[..Start(width, rows)], old(raster[..Start(width, rows)]), width, rows)
    ensures raster[Start(width, rows)..] == old(raster[Start(width, rows)..])
  {
    hide Start, MirroredUpTo, Swapped;
    ghost var before := raster[..];
    ghost var end := Start(width, rows);
    assert MirroredUpTo(raster[..], before, width, rows, 0) by { NothingMirrored(before, width, rows); }
    for i := 0 to rows / 2
      invariant MirroredUpTo(raster[..], before, width, rows, i)
      invariant raster[end..] == before[end..]
    {
      StartsApart(width, i, rows - 1 - i);
      StartsApart(width, rows - 1 - i, rows);
      ghost var prior := raster[..];
      var top := LineCount(width, i);
      var bottom := LineCount(width, rows - i - 1);
      SwapLines(raster, wrkLine, width, top, bottom);
      MirrorRound(raster[..], prior, before, width, rows, i);
      TailStays(raster[..], prior, width, top, bottom, end);
      assert raster[..][end..] == raster[end..] && prior[end..] == before[end..];
    }
    MirrorFinished(raster[..], before, width, rows);
    assert raster[..][..end] == raster[..end] && before[..end] == old(raster[..end]);
  }

  lemma NothingMirrored<T>(s: seq<T>, w: nat, n: nat)
    ensures MirroredUpTo(s, s, w, n, 0)
  {}

  lemma FrontRow<T>(s: seq<T>, w: nat, n: nat, r: nat)
    requires Start(w, n) <= |s| && r < n
    ensures Row(s[..Start(w, n)], w, r) == Row(s, w, r)
  {
    StartsApart(w, r, n);
  }

  // ----- Element by element -----

  lemma MirrorAt<T>(a: seq<T>, b: seq<T>, w: nat, n: nat, r: nat, x: nat)
    requires IsMirror(a, b, w, n) && r < n && x < w
    ensures |a| == |b| == n * w && 0 <= r * w + x < n * w && 0 <= (n - 1 - r) * w + x < n * w
    ensures a[r * w + x] == b[(n - 1 - r) * w + x]
  {
    PlaceInRaster(w, r, x, n);
    PlaceInRaster(w, n - 1 - r, x, n);
    assert Row(a, w, r) == Row(b, w, n - 1 - r);
    hide Start;
    assert Row(a, w, r)[x] == a[Start(w, r) + x] && Row(b, w, n - 1 - r)[x] == b[Start(w, n - 1 - r) + x];
  }

  /** Element `x` of row `r` of some rows of an image is that of row `row + r` of the image. */
  lemma RowsAt<T>(s: seq<T>, w: nat, row: nat, rows: nat, r: nat, x: nat)
    requires Start(w, row + rows) <= |s| && r < rows && x < w
    ensures |Rows(s, w, row, rows)| == rows * w && 0 <= r * w + x < rows * w && 0 <= (row + r) * w + x < |s|
    ensures Rows(s, w, row, rows)[r * w + x] == s[(row + r) * w + x]
  {
    PlaceInRaster(w, r, x, rows);
    PlaceInRaster(w, row + r, x, row + rows);
    StartAdds(w, row, r);
    StartAdds(w, row, rows);
  }

  /** What the reader is taken to leave for a strip: its rows from the bottom up. */
  lemma BottomUpAt(read: seq<Pixel>, image: seq<Pixel>, width: nat, height: nat, rowsPerStrip: nat, row: nat,
                   r: nat, x: nat)
    requires row < height && |image| == Start(width, height)
    requires ReadsBottomUp(read, image, width, height, rowsPerStrip, row)
    requires r < StripRows(row, rowsPerStrip, height) && x < width
    ensures var n := StripRows(row, rowsPerStrip, height);
            && 0 <= (n - 1 - r) * width + x < |read| && 0 <= (row + r) * width + x < |image|
            && read[(n - 1 - r) * width + x] == image[(row + r) * width + x]
  {
    var n := StripRows(row, rowsPerStrip, height);
    StartsApart(width, row + n, height);
    MirrorAt(read[..Start(width, n)], Rows(image, width, row, n), width, n, n - 1 - r, x);
    RowsAt(image, width, row, n, r, x);
  }

  // ----- Strips -----

  /** An unsigned 32-bit value stored in a signed variable. */
  function ToInt32(x: nat): int
    requires x < TWO_TO_THE_32
  {
    if x < TWO_TO_THE_31 then x else x - TWO_TO_THE_32
  }

  /** The number of rows of the strip that starts at `row`, computed on 32-bit values and stored in a signed one. */
  function RowsToWrite(row: nat, rowsPerStrip: nat, height: nat): int
    requires row < height < TWO_TO_THE_32 && rowsPerStrip < TWO_TO_THE_32
  {
    ToInt32(if (row + rowsPerStrip) % TWO_TO_THE_32 > height then height - row else rowsPerStrip)
  }

  function StripRows(row: nat, rowsPerStrip: nat, height: nat): nat
    requires row < height
  {
    if row + rowsPerStrip > height then height - row else rowsPerStrip
  }

  /** The row count of one strip is right exactly if the sum does not wrap and the count is not stored as a
      negative number. */
  lemma RowsToWriteIff(row: nat, rowsPerStrip: nat, height: nat)
    requires row < height < TWO_TO_THE_32 && 0 < rowsPerStrip < TWO_TO_THE_32
    ensures RowsToWrite(row, rowsPerStrip, height) == StripRows(row, rowsPerStrip, height)
            <==> row + rowsPerStrip < TWO_TO_THE_32 && StripRows(row, rowsPerStrip, height) < TWO_TO_THE_31
  {}

  /** Where the last strip starts. */
  function LastStart(height: nat, rowsPerStrip: nat): nat
    requires height > 0 && rowsPerStrip > 0
  {
    (height - 1) / rowsPerStrip * rowsPerStrip
  }

  /** The end of the last strip fits 32 bits, and the greatest count, that of the first strip, fits 31. */
  predicate CountsFit(height: nat, rowsPerStrip: nat)
    requires rowsPerStrip > 0
  {
    height > 0 ==>
      && LastStart(height, rowsPerStrip) + rowsPerStrip < TWO_TO_THE_32
      && StripRows(0, rowsPerStrip, height) < TWO_TO_THE_31
  }

  /** No strip start lies behind the last one, which is a strip start. */
  lemma LastStartIsLast(height: nat, rowsPerStrip: nat, k: nat)
    requires height > 0 && rowsPerStrip > 0
    ensures var last := (height - 1) / rowsPerStrip;
            && LastStart(height, rowsPerStrip) == Start(rowsPerStrip, last) < height
            && (Start(rowsPerStrip, k) < height ==> Start(rowsPerStrip, k) <= Start(rowsPerStrip, last))
  {
    hide Start;
    var last := (height - 1) / rowsPerStrip;
    StartIsProduct(rowsPerStrip, last);
    DivisionSplits(rowsPerStrip, height - 1);
    StartsApart(rowsPerStrip, k, last);
    StartsApart(rowsPerStrip, last, k);
  }

  /** Every strip of a conversion has the right row count. */
  ghost predicate CountsRight(height: nat, rowsPerStrip: nat)
    requires height < TWO_TO_THE_32 && rowsPerStrip < TWO_TO_THE_32
  {
    forall k: nat :: CountRight(height, rowsPerStrip, k)
  }

  ghost predicate CountRight(height: nat, rowsPerStrip: nat, k: nat)
    requires height < TWO_TO_THE_32 && rowsPerStrip < TWO_TO_THE_32
  {
    var row := Start(rowsPerStrip, k);
    row < height ==> RowsToWrite(row, rowsPerStrip, height) == StripRows(row, rowsPerStrip, height)
  }

  /** The exact condition for a whole conversion. */
  lemma CountsRightIff(height: nat, rowsPerStrip: nat)
    requires height < TWO_TO_THE_32 && 0 < rowsPerStrip < TWO_TO_THE_32
    ensures CountsRight(height, rowsPerStrip) <==> CountsFit(height, rowsPerStrip)
  {
    if height > 0 {
      var last := (height - 1) / rowsPerStrip;
      LastStartIsLast(height, rowsPerStrip, 0);
      if CountsFit(height, rowsPerStrip) {
        forall k: nat ensures CountRight(height, rowsPerStrip, k) {
          CountFits(height, rowsPerStrip, k);
        }
      } else {
        RowsToWriteIff(0, rowsPerStrip, height);
        RowsToWriteIff(Start(rowsPerStrip, last), rowsPerStrip, height);
        assert !CountRight(height, rowsPerStrip, 0) || !CountRight(height, rowsPerStrip, last);
      }
    }
  }

  lemma CountFits(height: nat, rowsPerStrip: nat, k: nat)
    requires height < TWO_TO_THE_32 && 0 < rowsPerStrip < TWO_TO_THE_32 && CountsFit(height, rowsPerStrip)
    ensures CountRight(height, rowsPerStrip, k)
  {
    var row := Start(rowsPerStrip, k);
    if row < height {
      LastStartIsLast(height, rowsPerStrip, k);
      RowsToWriteIff(row, rowsPerStrip, height);
    }
  }

  /** The sum does not wrap here, and still the count is stored as a negative number. */
  lemma NegativeCount()
    ensures RowsToWrite(0, TWO_TO_THE_31, TWO_TO_THE_31) == -TWO_TO_THE_31
    ensures !CountsRight(TWO_TO_THE_31, TWO_TO_THE_31)
  {
    assert Start(TWO_TO_THE_31, 0) == 0;
    assert !CountRight(TWO_TO_THE_31, TWO_TO_THE_31, 0);
  }

  datatype Strip<T> = Strip(index: nat, data: seq<T>)

  /** The contents of the strips one after the other. */
  function Data<T>(strips: seq<Strip<T>>): seq<T> {
    if strips == [] then [] else Data(strips[..|strips| - 1]) + strips[|strips| - 1].data
  }

  /** Strip number `k` has index `k` and as many lines as its place in the image gives it. */
  ghost predicate Numbered<T>(strips: seq<Strip<T>>, line: nat, height: nat, rowsPerStrip: nat) {
    forall k: nat :: k < |strips| ==> Fits(strips[k], k, line, height, rowsPerStrip)
  }

  ghost predicate Fits<T>(s: Strip<T>, k: nat, line: nat, height: nat, rowsPerStrip: nat) {
    var row := Start(rowsPerStrip, k);
    s.index == k && row < height && |s.data| == Start(line, StripRows(row, rowsPerStrip, height))
  }

  /** The strips so far hold the image up to row `row`, where the next one starts. */
  ghost predicate WrittenTo<T>(strips: seq<Strip<T>>, image: seq<T>, line: nat, height: nat, rowsPerStrip: nat,
                               row: nat) {
    && row == Start(rowsPerStrip, |strips|) && Numbered(strips, line, height, rowsPerStrip)
    && |image| == Start(line, height)
    && Data(strips) <= image
    && |Data(strips)| == Start(line, if row < height then row else height)
  }

  /** The strip with the rows from `row` on extends what is written. */
  lemma NextStrip<T>(image: seq<T>, strips: seq<Strip<T>>, s: Strip<T>, line: nat, height: nat, rowsPerStrip: nat,
                     row: nat)
    requires 0 < rowsPerStrip && row < height && WrittenTo(strips, image, line, height, rowsPerStrip, row)
    requires Start(line, row + StripRows(row, rowsPerStrip, height)) <= |image|
    requires s == Strip(row / rowsPerStrip, Rows(image, line, row, StripRows(row, rowsPerStrip, height)))
    ensures s.index == |strips|
    ensures WrittenTo(strips + [s], image, line, height, rowsPerStrip, row + rowsPerStrip)
  {
    hide Start, StripRows;
    QuotientOfStart(rowsPerStrip, |strips|);
    var all := strips + [s];
    assert all[..|all| - 1] == strips;
    forall k: nat | k < |all| ensures Fits(all[k], k, line, height, rowsPerStrip) {
      if k < |strips| {
        assert all[k] == strips[k];
      }
    }
    StartAdds(line, row, StripRows(row, rowsPerStrip, height));
    assert Start(rowsPerStrip, |strips| + 1) == row + rowsPerStrip by { StartStep(rowsPerStrip, |strips|); }
    NextRow(row, rowsPerStrip, height);
  }

  lemma StartStep(w: nat, r: nat)
    ensures Start(w, r + 1) == Start(w, r) + w
  {}

  lemma NextRow(row: nat, rowsPerStrip: nat, height: nat)
    requires row < height
    ensures row + StripRows(row, rowsPerStrip, height)
            == if row + rowsPerStrip < height then row + rowsPerStrip else height
  {}

  /** What the library's reader leaves in the raster: the rows of the strip in reverse order, maybe followed by
      more. */
  ghost predicate ReadsBottomUp(read: seq<Pixel>, image: seq<Pixel>, width: nat, height: nat, rowsPerStrip: nat,
                                row: nat)
    requires row < height && |image| == Start(width, height)
  {
    var n := StripRows(row, rowsPerStrip, height);
    StartsApart(width, row + n, height);
    Start(width, n) <= |read| <= Start(width, rowsPerStrip)
    && IsMirror(read[..Start(width, n)], Rows(image, width, row, n), width, n)
  }

  /** Turning what was read gives the rows of the image. */
  lemma TurnedIsStrip(turned: seq<Pixel>, read: seq<Pixel>, image: seq<Pixel>, width: nat, height: nat,
                      rowsPerStrip: nat, row: nat, n: nat)
    requires row < height && |image| == Start(width, height) && n == StripRows(row, rowsPerStrip, height)
    requires ReadsBottomUp(read, image, width, height, rowsPerStrip, row)
    requires Start(width, n) <= |read| && IsMirror(turned, read[..Start(width, n)], width, n)
    ensures Start(width, row + n) <= |image| && turned == Rows(image, width, row, n)
  {
    StartsApart(width, row + n, height);
    MirrorTwice(turned, read[..Start(width, n)], Rows(image, width, row, n), width, n);
  }

  /** Take what was read for a strip, turn it top-down, and number it. */
  method ConvertStrip(ghost image: seq<Pixel>, width: nat, height: nat, rowsPerStrip: nat, row: nat,
                      raster: array<Pixel>, wrkLine: array<Pixel>, read: seq<Pixel>)
    returns (strip: Strip<Pixel>)
    requires 0 < rowsPerStrip && row < height < TWO_TO_THE_32 && rowsPerStrip < TWO_TO_THE_32
    requires RowsToWrite(row, rowsPerStrip, height) == StripRows(row, rowsPerStrip, height)
    requires |image| == Start(width, height) && ReadsBottomUp(read, image, width, height, rowsPerStrip, row)
    requires raster.Length == Start(width, rowsPerStrip) && wrkLine != raster && wrkLine.Length == width
    modifies raster, wrkLine
    ensures var n := StripRows(row, rowsPerStrip, height);
            Start(width, row + n) <= |image| && strip == Strip(row / rowsPerStrip, Rows(image, width, row, n))
  {
    hide Start, RowsToWrite, IsMirror, Rows;
    forall i | 0 <= i < |read| {
      raster[i] := read[i];
    }
    var rowsToWrite: nat := RowsToWrite(row, rowsPerStrip, height);
    var size := LineCount(width, rowsToWrite);
    assert raster[..size] == read[..size];
    MirrorRows(raster, wrkLine, width, rowsToWrite);
    TurnedIsStrip(raster[..size], read, image, width, height, rowsPerStrip, row, rowsToWrite);
    strip := Strip(row / rowsPerStrip, raster[..size]);
  }

  /** Convert strip by strip; reading or writing one can fail. The strips written are numbered in order and
      hold a front part of the image from the top down, the whole image unless something failed. */
  method CvtByStrip(ghost image: seq<Pixel>, width: nat, height: nat, rowsPerStrip: nat,
                    reader: nat -> Option<seq<Pixel>>, writable: nat -> bool)
    returns (ok: bool, strips: seq<Strip<Pixel>>)
    requires 0 < rowsPerStrip < TWO_TO_THE_32 && height < TWO_TO_THE_32 && CountsFit(height, rowsPerStrip)
    requires |image| == Start(width, height)
    requires forall row: nat :: row < height && reader(row).Some? ==>
               ReadsBottomUp(reader(row).value, image, width, height, rowsPerStrip, row)
    ensures Numbered(strips, width, height, rowsPerStrip)
    ensures Data(strips) <= image && (ok ==> Data(strips) == image)
    ensures !ok ==> var row := Start(rowsPerStrip, |strips|); row < height && (reader(row).None? || !writable(|strips|))
  {
    hide Start, ReadsBottomUp, WrittenTo;
    StartIsProduct(width, rowsPerStrip);
    var raster := new Pixel[width * rowsPerStrip];
    var wrkLine := new Pixel[width];
    strips, ok := [], true;
    var row: nat := 0;
    NothingWritten(image, width, height, rowsPerStrip);
    while row < height
      invariant WrittenTo(strips, image, width, height, rowsPerStrip, row)
      decreases height - row
    {
      WrittenSoFar(image, strips, width, height, rowsPerStrip, row);
      var read := reader(row);
      if read.None? {
        return false, strips;
      }
      CountFits(height, rowsPerStrip, |strips|);
      var strip := ConvertStrip(image, width, height, rowsPerStrip, row, raster, wrkLine, read.value);
      NextStrip(image, strips, strip, width, height, rowsPerStrip, row);
      if !writable(strip.index) {
        return false, strips;
      }
      strips := strips + [strip];
      row := row + rowsPerStrip;
    }
    WrittenSoFar(image, strips, width, height, rowsPerStrip, row);
  }

  lemma FrontSlice<T>(s: seq<T>, e: nat, a: nat, b: nat)
    requires a <= b <= e <= |s|
    ensures s[..e][a..b] == s[a..b]
  {}

  lemma NothingWritten<T>(image: seq<T>, line: nat, height: nat, rowsPerStrip: nat)
    requires |image| == Start(line, height)
    ensures WrittenTo([], image, line, height, rowsPerStrip, 0)
  {}

  lemma WrittenSoFar<T>(image: seq<T>, strips: seq<Strip<T>>, line: nat, height: nat, rowsPerStrip: nat, row: nat)
    requires WrittenTo(strips, image, line, height, rowsPerStrip, row)
    ensures row == Start(rowsPerStrip, |strips|) && Numbered(strips, line, height, rowsPerStrip)
    ensures Data(strips) <= image && (row >= height ==> Data(strips) == image)
  {}

  // ----- Tiles -----

  /** Convert one tile: what was read is turned top-down and written. */
  method ConvertTile(tile: seq<Pixel>, tileWidth: nat, tileHeight: nat, raster: array<Pixel>, wrkLine: array<Pixel>)
    requires |tile| == raster.Length == Start(tileWidth, tileHeight) && wrkLine != raster && wrkLine.Length == tileWidth
    modifies raster, wrkLine
    ensures IsMirror(raster[..], tile, tileWidth, tileHeight)
  {
    forall i | 0 <= i < |tile| {
      raster[i] := tile[i];
    }
    assert raster[..|tile|] == tile;
    MirrorRows(raster, wrkLine, tileWidth, tileHeight);
    assert raster[..|tile|] == raster[..];
  }
}
