/** What the model of rendering means for single pixels, in columns and rows, colours and bytes. */
module GifPixels {
  import opened Basics
  import opened GifModel
  import opened GifRender
  import opened GifRequest

  // ----- Control blocks, byte by byte -----

  /** A graphic control extension, section 23 of the GIF89a specification. */
  predicate ControlBytes(b: ExtensionBlock) {
    b.code == 0xF9 && |b.bytes| == 4
  }

  /** Block `k` is the last graphic control block. */
  predicate LastControl(blocks: seq<ExtensionBlock>, k: nat) {
    k < |blocks| && ControlBytes(blocks[k]) && forall j :: k < j < |blocks| ==> !ControlBytes(blocks[j])
  }

  predicate TransparentBytes(b: ExtensionBlock) {
    ControlBytes(b) && b.bytes[0] % 2 == 1
  }

  /** Block `k` is the last graphic control block with the transparency flag. */
  predicate LastTransparent(blocks: seq<ExtensionBlock>, k: nat) {
    k < |blocks| && TransparentBytes(blocks[k]) && forall j :: k < j < |blocks| ==> !TransparentBytes(blocks[j])
  }

  lemma {:induction false} ControlIs(blocks: seq<ExtensionBlock>)
    ensures forall k: nat :: LastControl(blocks, k) ==>
              Control(blocks) == (blocks[k].bytes[0] % 2 == 1, blocks[k].bytes[0] / 4 % 8)
    ensures (forall k: nat :: !LastControl(blocks, k)) ==> Control(blocks) == (false, 0)
  {
    if blocks != [] {
      var n := |blocks| - 1;
      ControlIs(blocks[..n]);
      if ControlBytes(blocks[n]) {
        assert LastControl(blocks, n);
      } else {
        assert forall k: nat :: LastControl(blocks, k) <==> LastControl(blocks[..n], k);
      }
    }
  }

  lemma {:induction false} TransparentIs(blocks: seq<ExtensionBlock>)
    ensures forall k: nat :: LastTransparent(blocks, k) ==> TransparentIndex(blocks) == blocks[k].bytes[3]
    ensures (forall k: nat :: !LastTransparent(blocks, k)) ==> TransparentIndex(blocks) == -1
  {
    if blocks != [] {
      var n := |blocks| - 1;
      TransparentIs(blocks[..n]);
      if TransparentBytes(blocks[n]) {
        assert LastTransparent(blocks, n);
      } else {
        assert forall k: nat :: LastTransparent(blocks, k) <==> LastTransparent(blocks[..n], k);
      }
    }
  }

  // ----- Pixels by column and row -----

  lemma PixelOf(gif: Gif, x: int, y: int)
    requires gif.width > 0 && 0 <= x < gif.width && 0 <= y < gif.height
    ensures var p := y * gif.width + x; p / gif.width == y && p % gif.width == x && 0 <= p < gif.width * gif.height
  {
    var first := y * gif.width;
    RowPixels(gif.width, y, first + x);
    RowsFit(gif.width, y, gif.height);
  }

  /** The colours of a frame: its own table, or the global one without it. */
  function Colors(gif: Gif, f: Frame): seq<Rgb> {
    match f.colorMap
    case Some(own) => own.colors
    case None => if gif.colorMap.Some? then gif.colorMap.value.colors else []
  }

  /** Value `v` is the transparent one: byte 3 of the last control block with the transparency flag. */
  ghost predicate IsTransparent(f: Frame, v: Byte) {
    exists k: nat :: LastTransparent(f.blocks, k) && f.blocks[k].bytes[3] == v
  }

  /** Drawing a frame: the pixel in column `x` and row `y` of its rectangle gets the colour of the value in column `x`
      and row `y` of its raster, and keeps its own if that value is the transparent one. */
  lemma DrawnAt(gif: Gif, f: Frame, c: Canvas, x: int, y: int)
    requires gif.width > 0 && Drawable(gif, f) && TableUsable(Table(gif, f)) && |c| == gif.width * gif.height
    requires 0 <= x < f.width && 0 <= y < f.height && f.left + x < gif.width && f.top + y < gif.height
    ensures var p := (f.top + y) * gif.width + f.left + x;
            0 <= p < |c| && 0 <= y * f.width + x < |f.raster|
            && var v := f.raster[y * f.width + x];
               if IsTransparent(f, v) then Draw(gif, f, c)[p] == c[p]
               else v < |Colors(gif, f)|
                    && var col := Colors(gif, f)[v]; Draw(gif, f, c)[p] == Argb(0xFF, col.red, col.green, col.blue)
  {
    var p := (f.top + y) * gif.width + f.left + x;
    PixelOf(gif, f.left + x, f.top + y);
    assert Inside(gif, f, p) && SourceIndex(gif, f, p) == y * f.width + x;
    SourceInRaster(gif, f, p);
    TransparentIs(f.blocks);
    var v := f.raster[y * f.width + x];
    assert IsTransparent(f, v) <==> v == TransparentIndex(f.blocks) by {
      hide TransparentIndex;
    }
    hide TransparentIndex, LastTransparent;
    assert Draw(gif, f, c)[p] == DrawnPixel(gif, f, c[p], p);
  }

  /** Outside its rectangle a frame draws nothing, and without a usable table it draws nothing at all. */
  lemma NotDrawnAt(gif: Gif, f: Frame, c: Canvas, x: int, y: int)
    requires gif.width > 0 && Drawable(gif, f) && |c| == gif.width * gif.height
    requires 0 <= x < gif.width && 0 <= y < gif.height
    requires !(f.left <= x < f.left + f.width && f.top <= y < f.top + f.height) || !TableUsable(Table(gif, f))
    ensures 0 <= y * gif.width + x < |c| && Draw(gif, f, c)[y * gif.width + x] == c[y * gif.width + x]
  {
    PixelOf(gif, x, y);
  }

  /** Filling sets exactly the pixels of the rectangle. */
  lemma FilledAt(gif: Gif, f: Frame, c: Canvas, col: Color, x: int, y: int)
    requires gif.width > 0 && |c| == gif.width * gif.height && 0 <= x < gif.width && 0 <= y < gif.height
    ensures var p := y * gif.width + x;
            && 0 <= p < |c|
            && Fill(gif, f, c, col)[p]
               == if f.left <= x < f.left + f.width && f.top <= y < f.top + f.height then col else c[p]
  {
    PixelOf(gif, x, y);
  }

  /** One rectangle covers another exactly if every pixel of that one lies in it. */
  lemma CoversIff(g: Frame, f: Frame)
    requires f.width > 0 && f.height > 0
    ensures Covers(g, f)
            <==> forall x, y :: InRectangle(f, x, y) ==> InRectangle(g, x, y)
  {
    if forall x, y :: InRectangle(f, x, y) ==> InRectangle(g, x, y) {
      assert InRectangle(f, f.left, f.top) && InRectangle(f, f.left + f.width - 1, f.top + f.height - 1);
      assert InRectangle(g, f.left, f.top) && InRectangle(g, f.left + f.width - 1, f.top + f.height - 1);
    }
  }

  predicate InRectangle(f: Frame, x: int, y: int) {
    f.left <= x < f.left + f.width && f.top <= y < f.top + f.height
  }

  // ----- The reference, pixel by pixel -----

  /** The disposal method and the transparency flag of a frame, from its last control block. */
  ghost predicate Controlled(f: Frame, transparent: bool, disposal: nat) {
    if exists k: nat :: LastControl(f.blocks, k)
    then exists k: nat :: LastControl(f.blocks, k)
                          && transparent == (f.blocks[k].bytes[0] % 2 == 1) && disposal == f.blocks[k].bytes[0] / 4 % 8
    else !transparent && disposal == 0
  }

  lemma ControlledIs(f: Frame, transparent: bool, disposal: nat)
    requires Controlled(f, transparent, disposal)
    ensures Trans(f) == transparent && Disposal(f) == disposal
  {
    ControlIs(f.blocks);
  }

  /** The first canvas has the background colour of the global table, and is clear without that table or when the
      first frame is transparent. */
  lemma FirstCanvasIs(gif: Gif, transparent: bool, disposal: nat, p: int)
    requires WellFormed(gif) && Controlled(gif.frames[0], transparent, disposal) && 0 <= p < gif.width * gif.height
    ensures |Before(gif, 0)| == gif.width * gif.height
    ensures if transparent || gif.colorMap.None? then Before(gif, 0)[p] == Argb(0, 0, 0, 0)
            else var col := gif.colorMap.value.colors[gif.background];
                 Before(gif, 0)[p] == Argb(0xFF, col.red, col.green, col.blue)
  {
    ControlledIs(gif.frames[0], transparent, disposal);
  }

  /** After frame `k`: with disposal 2 its rectangle has the colour of the first canvas, with disposal 3 the canvas is
      the one before the frame, and otherwise the one that shows it. */
  lemma NextCanvasIs(gif: Gif, k: nat, transparent: bool, disposal: nat, x: int, y: int)
    requires WellFormed(gif) && k + 1 < |gif.frames| && Controlled(gif.frames[k], transparent, disposal)
    requires 0 <= x < gif.width && 0 <= y < gif.height
    ensures var f, p := gif.frames[k], y * gif.width + x;
            && 0 <= p < gif.width * gif.height
            && Shown(gif, k) == Draw(gif, f, Before(gif, k))
            && Before(gif, k + 1)[p]
               == if disposal == 2 then if InRectangle(f, x, y) then Before(gif, 0)[p] else Shown(gif, k)[p]
                  else if disposal == 3 then Before(gif, k)[p] else Shown(gif, k)[p]
  {
    ControlledIs(gif.frames[k], transparent, disposal);
    PixelOf(gif, x, y);
    assert Before(gif, 0)[y * gif.width + x] == Painting(gif);
  }

  // ----- Which frame is shown -----

  /** For a safe GIF, seeking a frame and rendering shows it, after any history; a negative index shows the first frame
      and one behind the last shows the last. */
  lemma SoughtIsShown(gif: Gif, ops: seq<Op>, index: int)
    requires WellFormed(gif) && Safe(gif)
    ensures Run(gif, ops + [Seek(index), Get]).bm
            == Some(if index < 0 then Shown(gif, 0)
                    else if index < |gif.frames| then Shown(gif, index) else Shown(gif, |gif.frames| - 1))
  {
    hide Render, Shown;
    var sought := ops + [Seek(index)];
    assert sought[..|ops|] == ops;
    assert (ops + [Seek(index), Get])[..|ops| + 1] == sought;
    SafeIsFaithful(gif);
    assert Correct(gif, sought);
    assert Run(gif, ops + [Seek(index), Get]) == GetBitmap(gif, Run(gif, sought));
    assert Run(gif, sought).curr == index;
    assert GetBitmap(gif, Run(gif, sought)).curr == index;
  }

  /** For a GIF that is safe for requests, a request for a frame other than the one drawn last yields that frame. */
  lemma RequestedIsAnswered(gif: Gif, st: State, index: int)
    requires WellFormed(gif) && SafeRequests(gif) && st.last != index
    ensures FrameBitmap(gif, st, index).0
            == Some(if index < 0 then Shown(gif, 0)
                    else if index < |gif.frames| then Shown(gif, index) else Shown(gif, |gif.frames| - 1))
  {
    hide FrameBitmap, Shown;
    SafeRequestsAreShown(gif);
  }
}
