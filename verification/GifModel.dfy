/** A decoded GIF: the screen, its frames, and what one frame does to a canvas.
    A canvas is a row-major sequence of pixels; pixel `p` is at column `p % width`, row `p / width`. */
module GifModel {
  import opened Basics

  datatype Rgb = Rgb(red: Byte, green: Byte, blue: Byte)

  datatype Color = Argb(alpha: Byte, red: Byte, green: Byte, blue: Byte)

  const CLEAR := Argb(0, 0, 0, 0)

  function Opaque(c: Rgb): Color {
    Argb(0xFF, c.red, c.green, c.blue)
  }

  const GRAPHICS_EXT_FUNC_CODE := 0xF9

  datatype ExtensionBlock = ExtensionBlock(code: Byte, bytes: seq<Byte>) {
    predicate IsControl() {
      code == GRAPHICS_EXT_FUNC_CODE && |bytes| == 4
    }

    predicate HasTransparency()
      requires IsControl()
    {
      bytes[0] % 2 == 1
    }

    function Disposal(): nat
      requires IsControl()
    {
      bytes[0] / 4 % 8
    }
  }

  /** The packed field of section 23 of the GIF89a specification: three reserved bits, three of the disposal
      method, the user input flag, the transparency flag. */
  lemma PackedFieldIsRead(b: ExtensionBlock, reserved: nat, disposal: nat, user: nat, transparency: nat)
    requires b.IsControl() && reserved < 8 && disposal < 8 && user < 2 && transparency < 2
    requires b.bytes[0] == reserved * 32 + disposal * 4 + user * 2 + transparency
    ensures b.Disposal() == disposal && (b.HasTransparency() <==> transparency == 1)
  {}

  datatype ColorMap = ColorMap(bitsPerPixel: nat, colors: seq<Rgb>)

  datatype Frame = Frame(left: int, top: int, width: int, height: int,
                         colorMap: Option<ColorMap>, raster: seq<Byte>, blocks: seq<ExtensionBlock>)

  datatype Gif = Gif(width: int, height: int, frames: seq<Frame>,
                     colorMap: Option<ColorMap>, background: Byte)

  type Canvas = seq<Color>

  function Pow2(n: nat): nat {
    if n == 0 then 1 else 2 * Pow2(n - 1)
  }

  // ----- What the extension blocks of a frame say -----

  /** The transparent colour index that drawing uses, or -1. */
  function TransparentIndex(blocks: seq<ExtensionBlock>): int {
    if blocks == [] then -1
    else
      var b := blocks[|blocks| - 1];
      if b.IsControl() && b.HasTransparency() then b.bytes[3]
      else TransparentIndex(blocks[..|blocks| - 1])
  }

  /** The last graphic control block decides; without one the frame is opaque and kept. */
  function Control(blocks: seq<ExtensionBlock>): (bool, nat) {
    if blocks == [] then (false, 0)
    else
      var b := blocks[|blocks| - 1];
      if b.IsControl() then (b.HasTransparency(), b.Disposal()) else Control(blocks[..|blocks| - 1])
  }

  predicate Trans(f: Frame) {
    Control(f.blocks).0
  }

  function Disposal(f: Frame): nat {
    Control(f.blocks).1
  }

  ghost predicate WillBeCleared(f: Frame) {
    exists i :: 0 <= i < |f.blocks| && f.blocks[i].IsControl() && f.blocks[i].Disposal() in {2, 3}
  }

  /** The three scans over the extension blocks agree with each other. */
  ghost predicate Coherent(f: Frame) {
    && (WillBeCleared(f) <==> Disposal(f) in {2, 3})
    && (TransparentIndex(f.blocks) >= 0 ==> Trans(f))
  }

  /** Section 23 of the GIF89a specification: at most one graphic control extension for a frame. */
  ghost predicate AtMostOneControl(f: Frame) {
    forall i, j :: 0 <= i < j < |f.blocks| ==> !(f.blocks[i].IsControl() && f.blocks[j].IsControl())
  }

  /** A frame that obeys section 23 is read the same way by all three scans. */
  lemma {:induction false} AtMostOneControlIsCoherent(f: Frame)
    requires AtMostOneControl(f)
    ensures Coherent(f)
    decreases |f.blocks|
  {
    if |f.blocks| > 0 {
      var n := |f.blocks| - 1;
      var g := f.(blocks := f.blocks[..n]);
      if f.blocks[n].IsControl() {
        NoControl(g.blocks);
        assert WillBeCleared(f) ==> f.blocks[n].Disposal() in {2, 3};
      } else {
        AtMostOneControlIsCoherent(g);
        assert WillBeCleared(g) <==> WillBeCleared(f) by {
          forall i | 0 <= i < n ensures g.blocks[i] == f.blocks[i] {}
        }
      }
    }
  }

  lemma {:induction false} NoControl(blocks: seq<ExtensionBlock>)
    requires forall i :: 0 <= i < |blocks| ==> !blocks[i].IsControl()
    ensures TransparentIndex(blocks) == -1 && Control(blocks) == (false, 0)
  {
    if blocks != [] {
      NoControl(blocks[..|blocks| - 1]);
    }
  }

  /** A frame flagged transparent (by the last block) has a transparent index. */
  lemma {:induction false} TransHasIndex(blocks: seq<ExtensionBlock>)
    ensures Control(blocks).0 ==> TransparentIndex(blocks) >= 0
  {
    if blocks != [] {
      TransHasIndex(blocks[..|blocks| - 1]);
    }
  }

  // ----- Geometry -----

  function Size(gif: Gif): int {
    gif.width * gif.height
  }

  /** Pixel `p` of the screen lies in the rectangle of frame `f`. */
  predicate Inside(gif: Gif, f: Frame, p: int)
    requires gif.width > 0
  {
    f.left <= p % gif.width < f.left + f.width && f.top <= p / gif.width < f.top + f.height
  }

  predicate Covers(target: Frame, covered: Frame) {
    && target.left <= covered.left
    && covered.left + covered.width <= target.left + target.width
    && target.top <= covered.top
    && covered.top + covered.height <= target.top + target.height
  }

  function SourceIndex(gif: Gif, f: Frame, p: int): int
    requires gif.width > 0
  {
    (p / gif.width - f.top) * f.width + (p % gif.width - f.left)
  }

  lemma SourceInRaster(gif: Gif, f: Frame, p: int)
    requires gif.width > 0 && Inside(gif, f, p)
    ensures 0 <= SourceIndex(gif, f, p) < f.width * f.height
  {
    var y := p / gif.width - f.top;
    assert y * f.width <= (f.height - 1) * f.width;
    assert (f.height - 1) * f.width == f.height * f.width - f.width;
    assert y * f.width >= 0;
  }

  lemma RowsApart(w: int, y: int, z: int)
    requires w > 0 && y < z
    ensures y * w + w <= z * w
    decreases z - y
  {
    assert z * w == (z - 1) * w + w;
    if y < z - 1 {
      RowsApart(w, y, z - 1);
    }
  }

  /** Row `y` of a screen `w` wide holds exactly the pixels from `y * w` to `y * w + w`. */
  lemma RowPixels(w: int, y: int, p: int)
    requires w > 0
    ensures y * w <= p < y * w + w <==> p / w == y
    ensures p / w == y ==> p % w == p - y * w
  {
    var q := p / w;
    assert p == q * w + p % w;
    if q < y {
      RowsApart(w, q, y);
    } else if q > y {
      RowsApart(w, y, q);
    }
  }

  lemma RowsFit(w: int, y: int, h: int)
    requires w >= 0 && 0 <= y < h
    ensures 0 <= y * w && y * w + w <= h * w
  {
    assert (y + 1) * w <= h * w;
    assert y * w + w == (y + 1) * w;
  }

  // ----- Well-formed input -----

  function Table(gif: Gif, f: Frame): Option<ColorMap> {
    if f.colorMap.Some? then f.colorMap else gif.colorMap
  }

  predicate TableUsable(t: Option<ColorMap>) {
    t.Some? && |t.value.colors| == Pow2(t.value.bitsPerPixel)
  }

  /** What blitting needs: the origin on the screen, a full raster, entries within the table. */
  predicate Blittable(gif: Gif, f: Frame, colors: seq<Rgb>) {
    && 0 <= f.left < gif.width && 0 <= f.top < gif.height
    && 0 <= f.width && 0 <= f.height
    && |f.raster| == f.width * f.height
    && (forall i :: 0 <= i < |f.raster| ==>
           f.raster[i] == TransparentIndex(f.blocks) || f.raster[i] < |colors|)
  }

  predicate Drawable(gif: Gif, f: Frame) {
    TableUsable(Table(gif, f)) ==> Blittable(gif, f, Table(gif, f).value.colors)
  }

  predicate OnScreen(gif: Gif, f: Frame) {
    0 <= f.left < gif.width && 0 <= f.top < gif.height && 0 <= f.width && 0 <= f.height
  }

  predicate BackgroundKnown(gif: Gif) {
    gif.colorMap.Some? ==> gif.background < |gif.colorMap.value.colors|
  }

  ghost predicate WellFormed(gif: Gif) {
    && gif.width > 0 && gif.height > 0 && |gif.frames| > 0
    && BackgroundKnown(gif)
    && forall i :: 0 <= i < |gif.frames| ==>
         var f := gif.frames[i];
         Coherent(f) && OnScreen(gif, f) && TableUsable(Table(gif, f)) && Drawable(gif, f)
  }

  // ----- What a frame does to a canvas -----

  /** The colour the screen starts with and that disposal method 2 restores. */
  function Painting(gif: Gif): Color
    requires |gif.frames| > 0 && BackgroundKnown(gif)
  {
    if !Trans(gif.frames[0]) && gif.colorMap.Some?
    then Opaque(gif.colorMap.value.colors[gif.background])
    else CLEAR
  }

  /** The new value of pixel `p`, previously `prior`, when frame `f` is drawn. */
  function DrawnPixel(gif: Gif, f: Frame, prior: Color, p: int): Color
    requires gif.width > 0 && Drawable(gif, f)
  {
    if TableUsable(Table(gif, f)) && Inside(gif, f, p) then
      SourceInRaster(gif, f, p);
      var v := f.raster[SourceIndex(gif, f, p)];
      if v == TransparentIndex(f.blocks) then prior else Opaque(Table(gif, f).value.colors[v])
    else prior
  }

  function Draw(gif: Gif, f: Frame, c: Canvas): (r: Canvas)
    requires gif.width > 0 && Drawable(gif, f)
    ensures |r| == |c|
    ensures forall p :: 0 <= p < |c| ==> r[p] == DrawnPixel(gif, f, c[p], p)
  {
    seq(|c|, p requires 0 <= p < |c| => DrawnPixel(gif, f, c[p], p))
  }

  function Fill(gif: Gif, f: Frame, c: Canvas, col: Color): (r: Canvas)
    requires gif.width > 0
    ensures |r| == |c|
    ensures forall p :: 0 <= p < |c| ==> r[p] == if Inside(gif, f, p) then col else c[p]
  {
    seq(|c|, p requires 0 <= p < |c| => if Inside(gif, f, p) then col else c[p])
  }

  function Solid(n: nat, col: Color): (r: Canvas)
    ensures |r| == n && forall p :: 0 <= p < n ==> r[p] == col
  {
    seq(n, _ => col)
  }

  /** An opaque frame overwrites every pixel of its rectangle, whatever was there. */
  lemma OpaqueFrameOverwrites(gif: Gif, f: Frame, a: Color, b: Color, p: int)
    requires gif.width > 0 && Drawable(gif, f) && TableUsable(Table(gif, f)) && Coherent(f)
    requires !Trans(f) && Inside(gif, f, p)
    ensures DrawnPixel(gif, f, a, p) == DrawnPixel(gif, f, b, p)
  {
    SourceInRaster(gif, f, p);
  }

  // ----- The reference compositor: draw every frame, dispose of every frame (section 23) -----

  /** The canvas on which frame `k` is drawn. */
  ghost function Before(gif: Gif, k: nat): (c: Canvas)
    requires WellFormed(gif) && k < |gif.frames|
    ensures |c| == Size(gif)
    decreases k, 0
  {
    if k == 0 then Solid(Size(gif), Painting(gif))
    else
      var f := gif.frames[k - 1];
      if Disposal(f) == 2 then Fill(gif, f, Shown(gif, k - 1), Painting(gif))
      else if Disposal(f) == 3 then Before(gif, k - 1)
      else Shown(gif, k - 1)
  }

  /** The canvas that shows frame `k`. */
  ghost function Shown(gif: Gif, k: nat): (c: Canvas)
    requires WellFormed(gif) && k < |gif.frames|
    ensures |c| == Size(gif)
    decreases k, 1
  {
    Draw(gif, gif.frames[k], Before(gif, k))
  }
}
