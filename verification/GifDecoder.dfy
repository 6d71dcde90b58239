/** The decoder itself: two bitmaps updated in place by pixel loops. */
module GifDecoder {
  import opened Basics
  import opened GifModel
  import opened GifRender
  import opened GifRequest
  import opened GifShared
  import opened GifTime

  class Bitmap {
    var ready: bool
    var width: int
    var height: int
    var pixels: array<Color>

    ghost predicate Holds(w: int, h: int)
      reads this
    {
      width == w && height == h && pixels.Length == w * h
    }

    constructor ()
      ensures !ready && fresh(pixels)
    {
      ready, width, height := false, 0, 0;
      pixels := new Color[0];
    }

    /** Allocation of `w` by `h` pixels of arbitrary contents. */
    method Allocate(w: int, h: int)
      requires w > 0 && h > 0
      modifies this
      ensures ready && Holds(w, h) && fresh(pixels)
    {
      ready, width, height := true, w, h;
      pixels := new Color[w * h];
    }

    method EraseColor(col: Color)
      modifies pixels
      ensures pixels[..] == Solid(pixels.Length, col)
    {
      for i := 0 to pixels.Length
        invariant forall j :: 0 <= j < i ==> pixels[j] == col
      {
        pixels[i] := col;
      }
    }

    method Swap(other: Bitmap)
      modifies this, other
      ensures (ready, width, height, pixels) == old((other.ready, other.width, other.height, other.pixels))
      ensures (other.ready, other.width, other.height, other.pixels) == old((ready, width, height, pixels))
    {
      ready, other.ready := other.ready, ready;
      width, other.width := other.width, width;
      height, other.height := other.height, height;
      pixels, other.pixels := other.pixels, pixels;
    }
  }

  // ----- Pixel loops -----

  /** A span of row `y` that starts in column `x` and ends within the row. */
  lemma SpanPixels(w: int, y: int, x: int, n: int, p: int)
    requires w > 0 && 0 <= x && x + n <= w
    ensures y * w + x <= p < y * w + x + n <==> p / w == y && x <= p % w < x + n
  {
    RowPixels(w, y, p);
  }

  method CopyLine(pixels: array<Color>, dst: int, src: seq<Byte>, from: int,
                  colors: seq<Rgb>, transparent: int, width: int)
    requires width > 0 ==> 0 <= dst && dst + width <= pixels.Length && 0 <= from && from + width <= |src|
    requires forall i :: 0 <= i < |src| ==> src[i] == transparent || src[i] < |colors|
    modifies pixels
    ensures forall p :: 0 <= p < pixels.Length ==>
              pixels[p] == if dst <= p < dst + width && src[from + p - dst] != transparent
                           then Opaque(colors[src[from + p - dst]]) else old(pixels[p])
  {
    var d, s, w := dst, from, width;
    while w > 0
      invariant width > 0 ==> 0 <= w
      invariant width <= 0 ==> w == width
      invariant d == dst + (width - w) && s == from + (width - w)
      invariant forall p :: 0 <= p < pixels.Length ==>
                  pixels[p] == if dst <= p < d && src[from + p - dst] != transparent
                               then Opaque(colors[src[from + p - dst]]) else old(pixels[p])
    {
      if src[s] != transparent {
        pixels[d] := Opaque(colors[src[s]]);
      }
      w, s, d := w - 1, s + 1, d + 1;
    }
  }

  method BlitNormal(bm: Bitmap, ghost gif: Gif, f: Frame, cmap: ColorMap, transparent: int)
    requires gif.width > 0 && gif.height > 0 && bm.Holds(gif.width, gif.height)
    requires Table(gif, f) == Some(cmap) && TableUsable(Some(cmap)) && Drawable(gif, f)
    requires transparent == TransparentIndex(f.blocks)
    modifies bm.pixels
    ensures bm.pixels[..] == Draw(gif, f, old(bm.pixels[..]))
  {
    var width, height := bm.width, bm.height;
    var src := 0;
    var dst := f.top * width + f.left;
    var copyWidth := f.width;
    if f.left + copyWidth > width {
      copyWidth := width - f.left;
    }
    var copyHeight := f.height;
    if f.top + copyHeight > height {
      copyHeight := height - f.top;
    }
    ghost var before := bm.pixels[..];
    ghost var row := 0;
    ghost var rows := copyHeight;
    while copyHeight > 0
      invariant 0 <= row == rows - copyHeight <= rows
      invariant dst == (f.top + row) * width + f.left && src == row * f.width
      invariant forall p :: 0 <= p < bm.pixels.Length ==>
                  bm.pixels[p] == if f.top <= p / width < f.top + row then DrawnPixel(gif, f, before[p], p)
                                  else before[p]
    {
      RowsFit(width, f.top + row, height);
      RowsFit(f.width, row, f.height);
      ghost var prior := bm.pixels[..];
      CopyLine(bm.pixels, dst, f.raster, src, cmap.colors, transparent, copyWidth);
      forall p | 0 <= p < bm.pixels.Length
        ensures bm.pixels[p] == if f.top <= p / width < f.top + row + 1 then DrawnPixel(gif, f, before[p], p)
                                else before[p]
      {
        assert bm.pixels[p] == if dst <= p < dst + copyWidth && f.raster[src + p - dst] != transparent
                               then Opaque(cmap.colors[f.raster[src + p - dst]]) else prior[p];
        SpanPixels(width, f.top + row, f.left, copyWidth, p);
        RowPixels(width, f.top + row, p);
        if p / width == f.top + row && Inside(gif, f, p) {
          assert SourceIndex(gif, f, p) == src + p - dst;
        }
      }
      src := src + f.width;
      dst := dst + width;
      copyHeight := copyHeight - 1;
      row := row + 1;
      assert dst == (f.top + row) * width + f.left by {
        assert (f.top + row) * width == (f.top + row - 1) * width + width;
      }
      assert src == row * f.width by { assert row * f.width == (row - 1) * f.width + f.width; }
    }
    RowsBound(width, height);
    assert bm.pixels[..] == Draw(gif, f, before);
  }

  lemma RowsBound(w: int, h: int)
    requires w > 0 && h > 0
    ensures forall p :: 0 <= p < w * h ==> 0 <= p / w < h
  {
    forall p | 0 <= p < w * h ensures 0 <= p / w < h {}
  }

  method FillRect(bm: Bitmap, ghost gif: Gif, f: Frame, col: Color)
    requires gif.width > 0 && gif.height > 0 && bm.Holds(gif.width, gif.height) && OnScreen(gif, f)
    modifies bm.pixels
    ensures bm.pixels[..] == Fill(gif, f, old(bm.pixels[..]), col)
  {
    var bmWidth, bmHeight := bm.width, bm.height;
    var dst := f.top * bmWidth + f.left;
    var copyWidth := f.width;
    if f.left + copyWidth > bmWidth {
      copyWidth := bmWidth - f.left;
    }
    var copyHeight := f.height;
    if f.top + copyHeight > bmHeight {
      copyHeight := bmHeight - f.top;
    }
    ghost var before := bm.pixels[..];
    ghost var row := 0;
    ghost var rows := copyHeight;
    while copyHeight > 0
      invariant 0 <= row == rows - copyHeight <= rows
      invariant dst == (f.top + row) * bmWidth + f.left
      invariant forall p :: 0 <= p < bm.pixels.Length ==>
                  bm.pixels[p] == if Inside(gif, f, p) && p / bmWidth < f.top + row then col else before[p]
    {
      RowsFit(bmWidth, f.top + row, bmHeight);
      SetLine(bm.pixels, dst, col, copyWidth);
      forall p | 0 <= p < bm.pixels.Length
        ensures bm.pixels[p] == if Inside(gif, f, p) && p / bmWidth < f.top + row + 1 then col else before[p]
      {
        SpanPixels(bmWidth, f.top + row, f.left, copyWidth, p);
      }
      dst := dst + bmWidth;
      copyHeight := copyHeight - 1;
      row := row + 1;
      assert dst == (f.top + row) * bmWidth + f.left by {
        assert (f.top + row) * bmWidth == (f.top + row - 1) * bmWidth + bmWidth;
      }
    }
    RowsBound(bmWidth, bmHeight);
    assert bm.pixels[..] == Fill(gif, f, before, col);
  }

  method SetLine(pixels: array<Color>, dst: int, col: Color, n: int)
    requires 0 <= n && 0 <= dst && dst + n <= pixels.Length
    modifies pixels
    ensures forall p :: 0 <= p < pixels.Length ==> pixels[p] == if dst <= p < dst + n then col else old(pixels[p])
  {
    for i := 0 to n
      invariant forall p :: 0 <= p < pixels.Length ==> pixels[p] == if dst <= p < dst + i then col else old(pixels[p])
    {
      pixels[dst + i] := col;
    }
  }

  method DrawFrame(bm: Bitmap, gif: Gif, f: Frame)
    requires gif.width > 0 && gif.height > 0 && bm.Holds(gif.width, gif.height) && Drawable(gif, f)
    modifies bm.pixels
    ensures bm.pixels[..] == Draw(gif, f, old(bm.pixels[..]))
  {
    var transparent: int := -1;
    for i := 0 to |f.blocks|
      invariant transparent == TransparentIndex(f.blocks[..i])
    {
      assert f.blocks[..i + 1][..i] == f.blocks[..i];
      var eb := f.blocks[i];
      if eb.IsControl() {
        if eb.HasTransparency() {
          transparent := eb.bytes[3];
        }
      }
    }
    assert f.blocks[..|f.blocks|] == f.blocks;
    var cmap := gif.colorMap;
    if f.colorMap.Some? {
      cmap := f.colorMap;
    }
    if cmap.None? || |cmap.value.colors| != Pow2(cmap.value.bitsPerPixel) {
      assert bm.pixels[..] == Draw(gif, f, old(bm.pixels[..]));
      return;
    }
    BlitNormal(bm, gif, f, cmap.value, transparent);
  }

  // ----- Scans of the extension blocks -----

  method CheckIfWillBeCleared(f: Frame) returns (r: bool)
    ensures r <==> WillBeCleared(f)
  {
    for i := 0 to |f.blocks|
      invariant forall j :: 0 <= j < i ==> !(f.blocks[j].IsControl() && f.blocks[j].Disposal() in {2, 3})
    {
      var eb := f.blocks[i];
      if eb.IsControl() {
        var disposal := eb.Disposal();
        if disposal == 2 || disposal == 3 {
          return true;
        }
      }
    }
    return false;
  }

  method GetTransparencyAndDisposalMethod(f: Frame) returns (trans: bool, disposal: nat)
    ensures trans == Trans(f) && disposal == Disposal(f)
  {
    trans, disposal := false, 0;
    for i := 0 to |f.blocks|
      invariant (trans, disposal) == Control(f.blocks[..i])
    {
      assert f.blocks[..i + 1][..i] == f.blocks[..i];
      var eb := f.blocks[i];
      if eb.IsControl() {
        trans, disposal := eb.HasTransparency(), eb.Disposal();
      }
    }
    assert f.blocks[..|f.blocks|] == f.blocks;
  }

  /** The pair of bitmaps a rendering works on. */
  ghost predicate Paired(gif: Gif, bm: Bitmap, backup: Bitmap)
    reads bm, backup
  {
    && bm != backup && bm.pixels != backup.pixels
    && bm.ready && backup.ready
    && bm.Holds(gif.width, gif.height) && backup.Holds(gif.width, gif.height)
  }

  ghost function Pair(bm: Bitmap, backup: Bitmap): Canvases
    reads bm, backup, bm.pixels, backup.pixels
  {
    Canvases(bm.pixels[..], backup.pixels[..])
  }

  method DisposeFrameIfNeeded(bm: Bitmap, ghost gif: Gif, cur: Frame, next: Frame, backup: Bitmap, color: Color)
    requires gif.width > 0 && gif.height > 0 && OnScreen(gif, cur) && Paired(gif, bm, backup)
    modifies bm, backup, bm.pixels, backup.pixels
    ensures Paired(gif, bm, backup) && {bm.pixels, backup.pixels} == old({bm.pixels, backup.pixels})
    ensures Pair(bm, backup) == Dispose(gif, old(Pair(bm, backup)), cur, next, color)
  {
    var curTrans, curDisposal := GetTransparencyAndDisposalMethod(cur);
    var nextTrans, nextDisposal := GetTransparencyAndDisposalMethod(next);
    if (curDisposal == 2 || curDisposal == 3) && (nextTrans || !Covers(next, cur)) {
      if curDisposal == 2 {
        FillRect(bm, gif, cur, color);
      } else {
        bm.Swap(backup);
      }
    }
    if nextDisposal == 3 {
      forall i | 0 <= i < bm.pixels.Length {
        backup.pixels[i] := bm.pixels[i];
      }
      assert backup.pixels[..] == bm.pixels[..];
    }
  }

  // ----- The decoder -----

  /** A decoded file with at least one frame and a screen that is not empty. */
  predicate Showable(gif: Option<Gif>) {
    gif.Some? && |gif.value.frames| >= 1 && gif.value.width > 0 && gif.value.height > 0
  }

  /** The painting colour, a variable that all decoders share. */
  class Painter {
    var paintingColor: Color

    constructor ()
      ensures paintingColor == CLEAR
    {
      paintingColor := CLEAR;
    }
  }

  class Decoder {
    var gif: Option<Gif>
    var currIndex: int
    var lastDrawIndex: int
    const backup: Bitmap
    const painter: Painter

    /** A decoder that has drawn a frame has a backup of screen size. */
    ghost predicate Valid()
      reads this, backup
    {
      && (Showable(gif) ==> WellFormed(gif.value))
      && (lastDrawIndex >= 0 ==>
            && Showable(gif) && lastDrawIndex < |gif.value.frames|
            && backup.ready && backup.Holds(gif.value.width, gif.value.height))
    }

    /** A bitmap that may be passed for rendering: not yet allocated, or of screen size. */
    ghost predicate Accepts(bm: Bitmap)
      reads this, bm, backup
    {
      && bm != backup && bm.pixels != backup.pixels
      && (lastDrawIndex >= 0 && bm.ready ==> gif.Some? && bm.Holds(gif.value.width, gif.value.height))
    }

    ghost function View(bm: Bitmap): State
      reads this, backup, bm, backup.pixels, bm.pixels
    {
      State(currIndex, lastDrawIndex, if bm.ready then Some(bm.pixels[..]) else None, backup.pixels[..])
    }

    constructor (decoded: Option<Gif>, shared: Painter)
      requires Showable(decoded) ==> WellFormed(decoded.value)
      ensures Valid() && gif == decoded && currIndex == lastDrawIndex == -1 && fresh(backup) && fresh(backup.pixels)
    {
      gif, currIndex, lastDrawIndex, painter := decoded, -1, -1, shared;
      backup := new Bitmap();
    }

    method NativeSetCurrFrame(frameIndex: int) returns (ok: bool)
      modifies this`currIndex
      ensures ok == gif.Some?
      ensures ok ==> currIndex == if 0 <= frameIndex < |gif.value.frames| then frameIndex else 0
      ensures !ok ==> currIndex == old(currIndex)
    {
      if gif.None? {
        return false;
      }
      if frameIndex >= 0 && frameIndex < |gif.value.frames| {
        currIndex := frameIndex;
      } else {
        currIndex := 0;
      }
      return true;
    }

    method OnSetTime(time: Msec) returns (changed: bool)
      requires gif.Some? ==> Timed(gif.value)
      modifies this`currIndex
      ensures gif.None? ==> !changed && currIndex == old(currIndex)
      ensures gif.Some? ==> currIndex == Select(gif.value, time, 0, 0)
      ensures gif.Some? ==> changed == (!Found(gif.value, time, 0, 0) || currIndex != lastDrawIndex)
    {
      if gif.None? {
        return false;
      }
      var g := gif.value;
      var dur: Msec := 0;
      for i := 0 to |g.frames|
        invariant Select(g, time, 0, 0) == Select(g, time, i, dur)
        invariant Found(g, time, 0, 0) == Found(g, time, i, dur)
      {
        var d := SavedImageDuration(g.frames[i]);
        dur := Tick(dur, d);
        if dur >= time {
          currIndex := i;
          return lastDrawIndex != currIndex;
        }
      }
      currIndex := |g.frames| - 1;
      return true;
    }

    /** Clear the screen for the first frame, or dispose of the previous one. */
    method PrepareFrame(g: Gif, bm: Bitmap, i: nat)
      requires WellFormed(g) && i < |g.frames| && Paired(g, bm, backup)
      modifies painter, bm, backup, bm.pixels, backup.pixels
      ensures Paired(g, bm, backup) && {bm.pixels, backup.pixels} == old({bm.pixels, backup.pixels})
      ensures Pair(bm, backup) == PreparedWith(g, old(Pair(bm, backup)), i, old(painter.paintingColor))
      ensures painter.paintingColor == ColorAfter(g, i, old(painter.paintingColor))
    {
      var bgColor := CLEAR;
      if g.colorMap.Some? {
        bgColor := Opaque(g.colorMap.value.colors[g.background]);
      }
      var cur := g.frames[i];
      if i == 0 {
        var trans, disposal := GetTransparencyAndDisposalMethod(cur);
        if !trans && g.colorMap.Some? {
          painter.paintingColor := bgColor;
        } else {
          painter.paintingColor := CLEAR;
        }
        bm.EraseColor(painter.paintingColor);
        backup.EraseColor(painter.paintingColor);
      } else {
        DisposeFrameIfNeeded(bm, g, g.frames[i - 1], cur, backup, painter.paintingColor);
      }
    }

    /** One round of the rendering loop. */
    method RenderFrame(g: Gif, bm: Bitmap, i: nat, lastIndex: nat)
      requires WellFormed(g) && i < |g.frames| && Paired(g, bm, backup)
      modifies painter, bm, backup, bm.pixels, backup.pixels
      ensures Paired(g, bm, backup) && {bm.pixels, backup.pixels} == old({bm.pixels, backup.pixels})
      ensures Pair(bm, backup) == RoundWith(g, old(Pair(bm, backup)), i, lastIndex, old(painter.paintingColor))
      ensures painter.paintingColor == ColorAfter(g, i, old(painter.paintingColor))
    {
      PrepareFrame(g, bm, i);
      var cur := g.frames[i];
      var cleared := CheckIfWillBeCleared(cur);
      if i == lastIndex || !cleared {
        DrawFrame(bm, g, cur);
      }
    }

    method RenderFrames(g: Gif, bm: Bitmap, startIndex: nat, lastIndex: nat)
      requires WellFormed(g) && lastIndex < |g.frames| && Paired(g, bm, backup)
      modifies painter, bm, backup, bm.pixels, backup.pixels
      ensures Paired(g, bm, backup) && {bm.pixels, backup.pixels} == old({bm.pixels, backup.pixels})
      ensures Pair(bm, backup)
              == RenderWith(g, old(Pair(bm, backup)), startIndex, lastIndex, old(painter.paintingColor))
      ensures painter.paintingColor == if startIndex <= lastIndex
                                       then ColorAfter(g, startIndex, old(painter.paintingColor))
                                       else old(painter.paintingColor)
    {
      var i := startIndex;
      while i <= lastIndex
        invariant startIndex <= i && Paired(g, bm, backup)
        invariant {bm.pixels, backup.pixels} == old({bm.pixels, backup.pixels})
        invariant painter.paintingColor == if startIndex < i then ColorAfter(g, startIndex, old(painter.paintingColor))
                                           else old(painter.paintingColor)
        invariant RenderWith(g, old(Pair(bm, backup)), startIndex, lastIndex, old(painter.paintingColor))
                  == RenderWith(g, Pair(bm, backup), i, lastIndex, painter.paintingColor)
        decreases lastIndex + 1 - i
      {
        RenderFrame(g, bm, i, lastIndex);
        i := i + 1;
      }
    }

    method OnGetBitmap(bm: Bitmap) returns (ok: bool)
      requires Valid() && Accepts(bm)
      modifies this`lastDrawIndex, painter, bm, backup, bm.pixels, backup.pixels
      ensures Valid() && Accepts(bm)
      ensures ok <==> Showable(gif)
      ensures if ok then (View(bm), painter.paintingColor)
                         == GetBitmapWith(gif.value, old(View(bm)), old(painter.paintingColor))
              else View(bm) == old(View(bm)) && painter.paintingColor == old(painter.paintingColor)
    {
      if gif.None? {
        return false;
      }
      var g := gif.value;
      if |g.frames| < 1 {
        return false;
      }
      var width, height := g.width, g.height;
      if width <= 0 || height <= 0 {
        return false;
      }
      if lastDrawIndex >= 0 && lastDrawIndex == currIndex {
        return true;
      }
      var startIndex := lastDrawIndex + 1;
      if lastDrawIndex < 0 || !bm.ready {
        startIndex := 0;
        bm.Allocate(width, height);
        backup.Allocate(width, height);
      } else if startIndex > currIndex {
        startIndex := 0;
      }
      var lastIndex := currIndex;
      if lastIndex < 0 {
        lastIndex := 0;
      } else if lastIndex > |g.frames| - 1 {
        lastIndex := |g.frames| - 1;
      }
      RenderFrames(g, bm, startIndex, lastIndex);
      lastDrawIndex := lastIndex;
      return true;
    }

    /** A frame request: the index is stored unchecked, and each request renders into a bitmap of its own.
        The result is None where the Java caller gets null. */
    method NativeGetFrameBitmap(frameIndex: int) returns (r: Option<Canvas>)
      requires Valid() && gif.Some?
      modifies this`currIndex, this`lastDrawIndex, painter, backup, backup.pixels
      ensures Valid() && currIndex == frameIndex
      ensures !Showable(gif) ==> r == None && lastDrawIndex == old(lastDrawIndex)
      ensures Showable(gif) ==>
                var st := State(old(currIndex), old(lastDrawIndex), None, old(backup.pixels[..]));
                var (c, next) := FrameBitmap(gif.value, st, frameIndex);
                r == c && lastDrawIndex == next.last && backup.pixels[..] == next.backup
    {
      currIndex := frameIndex;
      var bm := new Bitmap();
      if Showable(gif) {
        RequestsIgnoreOthers(gif.value, View(bm).(curr := old(currIndex)), frameIndex, painter.paintingColor);
      }
      var ok := OnGetBitmap(bm);
      if ok && bm.ready {
        r := Some(bm.pixels[..]);
      } else {
        r := None;
      }
    }
  }
}
