/** The conversion of a whole TIFF image in one buffer, whose sizes and places are computed on 32-bit values. */
module TiffImage {
  import opened Basics
  import opened Raster
  import opened Tiff2Rgba

  // ----- The guard against sizes that wrap -----

  /** The size of the image as the guard sees it. */
  function PixelCount(width: nat, height: nat): nat {
    (width * height) % TWO_TO_THE_32
  }

  predicate Refused(width: nat, height: nat) {
    width == 0 || height == 0 || PixelCount(width, height) / width != height
  }

  lemma ProductGrows(a: nat, b: nat, w: nat)
    ensures a <= b ==> a * w <= b * w
  {}

  /** The guard refuses exactly the empty sizes and those whose product does not fit 32 bits. */
  lemma RefusedIff(width: nat, height: nat)
    ensures Refused(width, height) <==> width == 0 || height == 0 || width * height >= TWO_TO_THE_32
    ensures !Refused(width, height) ==> PixelCount(width, height) == width * height
  {
    if width > 0 && height > 0 {
      var count := PixelCount(width, height);
      DivisionSplits(width, count);
      StartIsProduct(width, count / width);
      if width * height < TWO_TO_THE_32 {
        QuotientOfStart(width, height);
        StartIsProduct(width, height);
      } else {
        assert count / width == height ==> count >= width * height;
      }
    }
  }

  // ----- Stripping alpha -----

  /** The colour bytes of `n` pixels are moved to the front; the rest is as before. */
  ghost predicate MovedUpTo(s: seq<Byte>, before: seq<Byte>, n: nat) {
    && |s| == |before| && 4 * n <= |s|
    && (forall k: nat :: k < 3 * n ==> WithAlpha(k) < |before| && s[k] == before[WithAlpha(k)])
    && (forall k: nat :: 3 * n <= k < |s| ==> s[k] == before[k])
  }

  lemma PixelMoved(s: seq<Byte>, prior: seq<Byte>, before: seq<Byte>, n: nat)
    requires MovedUpTo(prior, before, n) && |s| == |prior| && 4 * n + 4 <= |s|
    requires s[3 * n] == prior[4 * n] && s[3 * n + 1] == prior[4 * n + 1] && s[3 * n + 2] == prior[4 * n + 2]
    requires s[..3 * n] == prior[..3 * n] && s[3 * n + 3..] == prior[3 * n + 3..]
    ensures MovedUpTo(s, before, n + 1)
  {
    hide WithAlpha;
    WithAlphaOfPixel(n);
    forall k: nat | k < 3 * n + 3 ensures WithAlpha(k) < |before| && s[k] == before[WithAlpha(k)] {
      if k < 3 * n {
        assert s[k] == s[..3 * n][k] == prior[..3 * n][k];
      } else {
        assert k == 3 * n || k == 3 * n + 1 || k == 3 * n + 2;
      }
    }
    forall k: nat | 3 * n + 3 <= k < |s| ensures s[k] == before[k] {
      assert s[k] == s[3 * n + 3..][k - 3 * n - 3] == prior[3 * n + 3..][k - 3 * n - 3];
    }
  }

  method MovePixel(buffer: array<Byte>, ghost before: seq<Byte>, ghost n: nat, src: nat, dst: nat)
    requires MovedUpTo(buffer[..], before, n) && src == 4 * n && dst == 3 * n && src + 4 <= buffer.Length
    modifies buffer
    ensures MovedUpTo(buffer[..], before, n + 1)
  {
    hide MovedUpTo;
    ghost var prior := buffer[..];
    buffer[dst] := buffer[src];
    buffer[dst + 1] := buffer[src + 1];
    buffer[dst + 2] := buffer[src + 2];
    PixelMoved(buffer[..], prior, before, n);
  }

  /** Move the first three of every four bytes to the front, in one buffer: no byte is overwritten before it is
      moved, and the rest stays. */
  method StripAlpha(buffer: array<Byte>, pixelCount: nat)
    requires buffer.Length == 4 * pixelCount
    modifies buffer
    ensures buffer[..3 * pixelCount] == WithoutAlpha(old(buffer[..]), pixelCount)
    ensures buffer[3 * pixelCount..] == old(buffer[3 * pixelCount..])
  {
    hide MovedUpTo, WithoutAlpha;
    ghost var before := buffer[..];
    var src, dst := 0, 0;
    var count := pixelCount;
    NoneMoved(before);
    while count > 0
      invariant 0 <= count <= pixelCount
      invariant src == 4 * (pixelCount - count) && dst == 3 * (pixelCount - count)
      invariant MovedUpTo(buffer[..], before, pixelCount - count)
    {
      MovePixel(buffer, before, pixelCount - count, src, dst);
      src, dst, count := src + 4, dst + 3, count - 1;
    }
    AllMoved(buffer[..], before, pixelCount);
    assert buffer[..][..3 * pixelCount] == buffer[..3 * pixelCount];
    assert buffer[..][3 * pixelCount..] == buffer[3 * pixelCount..];
    assert before[3 * pixelCount..] == old(buffer[3 * pixelCount..]);
  }

  lemma NoneMoved(before: seq<Byte>)
    ensures MovedUpTo(before, before, 0)
  {}

  lemma AllMoved(s: seq<Byte>, before: seq<Byte>, n: nat)
    requires |before| == 4 * n && MovedUpTo(s, before, n)
    ensures s[..3 * n] == WithoutAlpha(before, n) && s[3 * n..] == before[3 * n..]
  {}

  // ----- Where a strip is and how long it is -----

  function BytesPerPixel(noAlpha: bool): nat {
    if noAlpha then 3 else 4
  }

  /** The first byte of the strip that starts at `row`: without alpha a 32-bit number of bytes, with it a 32-bit
      number of pixels. */
  function StripPlace(row: nat, width: nat, noAlpha: bool): nat {
    if noAlpha then (3 * row * width) % TWO_TO_THE_32 else 4 * ((row * width) % TWO_TO_THE_32)
  }

  function StripSize(rows: nat, width: nat, noAlpha: bool): nat {
    (BytesPerPixel(noAlpha) * rows * width) % TWO_TO_THE_32
  }

  /** Strip number `k` is taken from its place in the buffer and has its size. */
  ghost predicate PlaceRight(width: nat, height: nat, rowsPerStrip: nat, noAlpha: bool, k: nat) {
    var row, line := Start(rowsPerStrip, k), BytesPerPixel(noAlpha) * width;
    row < height ==>
      && StripPlace(row, width, noAlpha) == Start(line, row)
      && StripSize(StripRows(row, rowsPerStrip, height), width, noAlpha)
         == Start(line, StripRows(row, rowsPerStrip, height))
  }

  ghost predicate PlacesRight(width: nat, height: nat, rowsPerStrip: nat, noAlpha: bool) {
    forall k: nat :: PlaceRight(width, height, rowsPerStrip, noAlpha, k)
  }

  /** The place of the last strip and the size of the first, which is the greatest, fit 32 bits. */
  predicate PlacesFit(width: nat, height: nat, rowsPerStrip: nat, noAlpha: bool)
    requires rowsPerStrip > 0
  {
    height > 0 ==>
      && (if noAlpha then 3 else 1) * LastStart(height, rowsPerStrip) * width < TWO_TO_THE_32
      && BytesPerPixel(noAlpha) * StripRows(0, rowsPerStrip, height) * width < TWO_TO_THE_32
  }

  lemma PlaceIff(row: nat, width: nat, noAlpha: bool)
    ensures StripPlace(row, width, noAlpha) == Start(BytesPerPixel(noAlpha) * width, row)
            <==> (if noAlpha then 3 else 1) * row * width < TWO_TO_THE_32
  {
    StartIsProduct(BytesPerPixel(noAlpha) * width, row);
    if noAlpha {
      Reordered(3, width, row);
    } else {
      Reordered(4, width, row);
      hide Start;
      var pixels := row * width;
      assert 4 * (pixels % TWO_TO_THE_32) == 4 * pixels <==> pixels < TWO_TO_THE_32;
    }
  }

  lemma SizeIff(rows: nat, width: nat, noAlpha: bool)
    ensures StripSize(rows, width, noAlpha) == Start(BytesPerPixel(noAlpha) * width, rows)
            <==> BytesPerPixel(noAlpha) * rows * width < TWO_TO_THE_32
  {
    StartIsProduct(BytesPerPixel(noAlpha) * width, rows);
    Reordered(BytesPerPixel(noAlpha), width, rows);
  }

  lemma Reordered(b: nat, w: nat, r: nat)
    ensures (b * w) * r == b * r * w && b * r * w == b * (r * w) && b * (r * w) == b * (w * r)
  {}

  /** The exact condition for a whole image: every strip is taken from its place and has its size. */
  lemma PlacesRightIff(width: nat, height: nat, rowsPerStrip: nat, noAlpha: bool)
    requires rowsPerStrip > 0
    ensures PlacesRight(width, height, rowsPerStrip, noAlpha) <==> PlacesFit(width, height, rowsPerStrip, noAlpha)
  {
    if height > 0 {
      hide StripPlace, StripSize, Start;
      var last := (height - 1) / rowsPerStrip;
      LastStartIsLast(height, rowsPerStrip, 0);
      if PlacesFit(width, height, rowsPerStrip, noAlpha) {
        forall k: nat ensures PlaceRight(width, height, rowsPerStrip, noAlpha, k) {
          PlaceFits(width, height, rowsPerStrip, noAlpha, k);
        }
      } else {
        PlaceIff(Start(rowsPerStrip, last), width, noAlpha);
        FirstStart(rowsPerStrip);
        SizeIff(StripRows(0, rowsPerStrip, height), width, noAlpha);
        assert !PlaceRight(width, height, rowsPerStrip, noAlpha, 0)
            || !PlaceRight(width, height, rowsPerStrip, noAlpha, last);
      }
    }
  }

  lemma FirstStart(w: nat)
    ensures Start(w, 0) == 0
  {}

  lemma PlaceFits(width: nat, height: nat, rowsPerStrip: nat, noAlpha: bool, k: nat)
    requires rowsPerStrip > 0 && PlacesFit(width, height, rowsPerStrip, noAlpha)
    ensures PlaceRight(width, height, rowsPerStrip, noAlpha, k)
  {
    hide StripPlace, StripSize, Start;
    var row := Start(rowsPerStrip, k);
    if row < height {
      var b := if noAlpha then 3 else 1;
      var rows := StripRows(row, rowsPerStrip, height);
      LastStartIsLast(height, rowsPerStrip, k);
      ProductGrows(b * row, b * LastStart(height, rowsPerStrip), width);
      ProductGrows(BytesPerPixel(noAlpha) * rows, BytesPerPixel(noAlpha) * StripRows(0, rowsPerStrip, height), width);
      PlaceIff(row, width, noAlpha);
      SizeIff(rows, width, noAlpha);
    }
  }

  // ----- The conversion -----

  /** The strip that starts at `row`, cut from the buffer. */
  method CutStrip(raster: array<Byte>, width: nat, height: nat, rowsPerStrip: nat, noAlpha: bool, row: nat)
    returns (strip: Strip<Byte>)
    requires row < height < TWO_TO_THE_32 && 0 < rowsPerStrip < TWO_TO_THE_32
    requires RowsToWrite(row, rowsPerStrip, height) == StripRows(row, rowsPerStrip, height)
    requires var line, n := BytesPerPixel(noAlpha) * width, StripRows(row, rowsPerStrip, height);
             && StripPlace(row, width, noAlpha) == Start(line, row) && StripSize(n, width, noAlpha) == Start(line, n)
             && Start(line, height) <= raster.Length
    ensures var line, n := BytesPerPixel(noAlpha) * width, StripRows(row, rowsPerStrip, height);
            && Start(line, row + n) <= Start(line, height)
            && strip == Strip(row / rowsPerStrip, Rows(raster[..Start(line, height)], line, row, n))
  {
    hide Start, RowsToWrite, StripPlace, StripSize, BytesPerPixel;
    ghost var line := BytesPerPixel(noAlpha) * width;
    var rowsToWrite: nat := RowsToWrite(row, rowsPerStrip, height);
    StartAdds(line, row, rowsToWrite);
    StartsApart(line, row + rowsToWrite, height);
    var first := StripPlace(row, width, noAlpha);
    var size := StripSize(rowsToWrite, width, noAlpha);
    FrontSlice(raster[..], Start(line, height), first, first + size);
    strip := Strip(row / rowsPerStrip, raster[first..first + size]);
  }

  /** Write a buffer strip by strip, each byte once. */
  method WriteStrips(raster: array<Byte>, width: nat, height: nat, rowsPerStrip: nat, noAlpha: bool,
                     writable: nat -> bool)
    returns (ok: bool, strips: seq<Strip<Byte>>)
    requires height < TWO_TO_THE_32 && 0 < rowsPerStrip < TWO_TO_THE_32
    requires CountsFit(height, rowsPerStrip) && PlacesFit(width, height, rowsPerStrip, noAlpha)
    requires Start(BytesPerPixel(noAlpha) * width, height) <= raster.Length
    ensures Numbered(strips, BytesPerPixel(noAlpha) * width, height, rowsPerStrip)
    ensures var image := raster[..Start(BytesPerPixel(noAlpha) * width, height)];
            Data(strips) <= image && (ok ==> Data(strips) == image)
    ensures !ok ==> Start(rowsPerStrip, |strips|) < height && !writable(|strips|)
  {
    hide Start, WrittenTo, StripRows, Rows, CountsFit, PlacesFit, StripPlace, StripSize, RowsToWrite, BytesPerPixel;
    ghost var line := BytesPerPixel(noAlpha) * width;
    ghost var image := raster[..Start(line, height)];
    strips, ok := [], true;
    var row: nat := 0;
    NothingWritten(image, line, height, rowsPerStrip);
    while row < height
      invariant WrittenTo(strips, image, line, height, rowsPerStrip, row)
      decreases height - row
    {
      WrittenSoFar(image, strips, line, height, rowsPerStrip, row);
      CountFits(height, rowsPerStrip, |strips|);
      PlaceFits(width, height, rowsPerStrip, noAlpha, |strips|);
      var strip := CutStrip(raster, width, height, rowsPerStrip, noAlpha, row);
      NextStrip(image, strips, strip, line, height, rowsPerStrip, row);
      if !writable(strip.index) {
        return false, strips;
      }
      strips := strips + [strip];
      row := row + rowsPerStrip;
    }
    WrittenSoFar(image, strips, line, height, rowsPerStrip, row);
  }

  lemma LineBytes(w: nat, h: nat)
    ensures 3 * (w * h) == Start(3 * w, h) && 4 * (w * h) == Start(4 * w, h)
  {
    StartIsProduct(3 * w, h);
    StartIsProduct(4 * w, h);
  }

  /** Convert the whole image, with or without alpha; `read` is what the library's reader leaves in the buffer, None
      if it fails or there is no room for it. */
  method CvtWholeImage(width: nat, height: nat, rowsPerStrip: nat, noAlpha: bool, read: Option<seq<Byte>>,
                       writable: nat -> bool)
    returns (ok: bool, strips: seq<Strip<Byte>>)
    requires width < TWO_TO_THE_32 && height < TWO_TO_THE_32 && 0 < rowsPerStrip < TWO_TO_THE_32
    requires read.Some? ==> |read.value| == 4 * (width * height)
    requires !Refused(width, height) ==>
               CountsFit(height, rowsPerStrip) && PlacesFit(width, height, rowsPerStrip, noAlpha)
    ensures Refused(width, height) || read.None? ==> !ok && strips == []
    ensures Numbered(strips, BytesPerPixel(noAlpha) * width, height, rowsPerStrip)
    ensures !Refused(width, height) && read.Some? ==>
              var image := if noAlpha then WithoutAlpha(read.value, width * height) else read.value;
              Data(strips) <= image && (ok ==> Data(strips) == image)
    ensures !Refused(width, height) && read.Some? && !ok ==>
              Start(rowsPerStrip, |strips|) < height && !writable(|strips|)
  {
    hide CountsFit, PlacesFit, WithoutAlpha, Numbered;
    if Refused(width, height) || read.None? {
      NoStrips(BytesPerPixel(noAlpha) * width, height, rowsPerStrip);
      return false, [];
    }
    RefusedIff(width, height);
    var pixelCount := PixelCount(width, height);
    hide Refused, PixelCount;
    var raster := new Byte[|read.value|](i requires 0 <= i < |read.value| => read.value[i]);
    assert raster[..] == read.value;
    if noAlpha {
      StripAlpha(raster, pixelCount);
    }
    LineBytes(width, height);
    assert !noAlpha ==> raster[..4 * (width * height)] == raster[..];
    ok, strips := WriteStrips(raster, width, height, rowsPerStrip, noAlpha, writable);
  }

  lemma NoStrips(line: nat, height: nat, rowsPerStrip: nat)
    ensures Numbered<Byte>([], line, height, rowsPerStrip)
  {}
}
