/** Copying an image into a frame buffer whose lines are padded. */
module ImageCopy {
  import opened Basics
  import opened Raster

  /** Bytes of a line of the frame: three for each pixel, the width rounded up to 32. */
  function LineSize(width: nat): (bp: nat)
    ensures bp >= 3 * width && bp % 96 == 0 && bp < 3 * width + 96
  {
    (width + 0x1f) / 32 * 32 * 3
  }

  function FrameHeight(height: nat): (h: nat)
    ensures height <= h < height + 16 && h % 16 == 0
  {
    (height + 0xf) / 16 * 16
  }

  /** The frame holds line `y` of `rgb` at the start of its line `y`; everything else is as before. */
  ghost predicate Framed(frame: seq<Byte>, before: seq<Byte>, rgb: seq<Byte>, width: nat, lines: nat)
    requires |rgb| >= Start(3 * width, lines)
  {
    && |frame| == |before| && Start(LineSize(width), lines) <= |frame|
    && (forall y: nat :: y < lines ==> LineHeld(frame, before, rgb, width, y))
    && frame[Start(LineSize(width), lines)..] == before[Start(LineSize(width), lines)..]
  }

  /** Byte `c` of pixel `x` of line `y` is at `y * bp + 3 * x + c`, and the padding of the line is untouched. */
  ghost predicate LineHeld(frame: seq<Byte>, before: seq<Byte>, rgb: seq<Byte>, width: nat, y: nat) {
    var at, from, bp, n := Start(LineSize(width), y), Start(3 * width, y), LineSize(width), 3 * width;
    && |frame| == |before| && at + bp <= |frame| && from + n <= |rgb|
    && frame[at..at + n] == rgb[from..from + n]
    && frame[at + n..at + bp] == before[at + n..at + bp]
  }

  /** That determines the frame. */
  lemma {:induction false} FramedIsUnique(f: seq<Byte>, g: seq<Byte>, before: seq<Byte>, rgb: seq<Byte>,
                                          width: nat, lines: nat)
    requires |rgb| >= Start(3 * width, lines)
    requires Framed(f, before, rgb, width, lines) && Framed(g, before, rgb, width, lines)
    ensures f == g
  {
    var bp, n := LineSize(width), 3 * width;
    forall k | 0 <= k < |f| ensures f[k] == g[k] {
      var end := Start(bp, lines);
      if k >= end {
        assert f[k] == f[end..][k - end] && g[k] == g[end..][k - end];
      } else {
        var y := LineAt(bp, lines, k);
        assert LineHeld(f, before, rgb, width, y) && LineHeld(g, before, rgb, width, y);
        var at := Start(bp, y);
        if k < at + n {
          assert f[k] == f[at..at + n][k - at] && g[k] == g[at..at + n][k - at];
        } else {
          assert f[k] == f[at + n..at + bp][k - at - n] && g[k] == g[at + n..at + bp][k - at - n];
        }
      }
    }
  }

  lemma {:induction false} LineAt(bp: nat, lines: nat, k: nat) returns (y: nat)
    requires k < Start(bp, lines)
    ensures y < lines && Start(bp, y) <= k < Start(bp, y) + bp
  {
    if Start(bp, lines - 1) <= k {
      y := lines - 1;
    } else {
      y := LineAt(bp, lines - 1, k);
    }
  }

  method CopyBytes(dst: array<Byte>, p: nat, src: seq<Byte>, q: nat, n: nat)
    requires p + n <= dst.Length && q + n <= |src|
    modifies dst
    ensures dst[..] == old(dst[..p]) + src[q..q + n] + old(dst[p + n..])
  {
    for i := 0 to n
      invariant forall j :: 0 <= j < dst.Length ==> dst[j] == if p <= j < p + i then src[q + j - p] else old(dst[j])
    {
      dst[p + i] := src[q + i];
    }
  }

  /** Writing line `y` at its place extends the frame by one line. */
  lemma LineWritten(frame: seq<Byte>, prior: seq<Byte>, before: seq<Byte>, rgb: seq<Byte>, width: nat, y: nat)
    requires |rgb| >= Start(3 * width, y + 1) && Start(LineSize(width), y + 1) <= |prior|
    requires Framed(prior, before, rgb, width, y)
    requires var at := Start(LineSize(width), y);
             frame == prior[..at] + rgb[Start(3 * width, y)..Start(3 * width, y) + 3 * width] + prior[at + 3 * width..]
    ensures Framed(frame, before, rgb, width, y + 1)
  {
    var bp, n := LineSize(width), 3 * width;
    var at := Start(bp, y);
    assert prior[at..] == before[at..];
    forall k | at <= k < |prior| ensures prior[k] == before[k] {
      assert prior[k] == prior[at..][k - at] && before[k] == before[at..][k - at];
    }
    forall z: nat | z < y + 1 ensures LineHeld(frame, before, rgb, width, z) {
      if z < y {
        StartsApart(bp, z, y);
        assert LineHeld(prior, before, rgb, width, z);
        LineKept(frame, prior, before, rgb, width, z, at);
      }
    }
  }

  lemma LineKept(frame: seq<Byte>, prior: seq<Byte>, before: seq<Byte>, rgb: seq<Byte>, width: nat, z: nat, at: nat)
    requires LineHeld(prior, before, rgb, width, z) && Start(LineSize(width), z) + LineSize(width) <= at <= |prior|
    requires |frame| == |prior| && frame[..at] == prior[..at]
    ensures LineHeld(frame, before, rgb, width, z)
  {
    forall k | 0 <= k < at ensures frame[k] == prior[k] {
      assert frame[k] == frame[..at][k] && prior[k] == prior[..at][k];
    }
  }

  /** Format 0: three bytes for each pixel, copied line by line. */
  method CopyRgb(frame: array<Byte>, user: seq<Byte>, width: nat, height: nat)
    requires Start(LineSize(width), height) <= frame.Length && |user| == Start(3 * width, height)
    modifies frame
    ensures Framed(frame[..], old(frame[..]), user, width, height)
  {
    hide Start, Framed, LineSize;
    var bp := LineSize(width);
    ghost var before := frame[..];
    var p, q := 0, 0;
    FirstLine(bp, 3 * width);
    NothingFramed(before, user, width);
    for j := 0 to height
      invariant p == Start(bp, j) && q == Start(3 * width, j)
      invariant Start(3 * width, j) <= |user| && Framed(frame[..], before, user, width, j)
    {
      NextLine(bp, j, height);
      NextLine(3 * width, j, height);
      ghost var prior := frame[..];
      CopyBytes(frame, p, user, q, width * 3);
      LineWritten(frame[..], prior, before, user, width, j);
      q := q + width * 3;
      p := p + bp;
    }
  }

  lemma FirstLine(a: nat, b: nat)
    ensures Start(a, 0) == 0 && Start(b, 0) == 0
  {}

  lemma NothingFramed(before: seq<Byte>, rgb: seq<Byte>, width: nat)
    ensures Framed(before, before, rgb, width, 0)
  {}

  lemma NextLine(w: nat, j: nat, height: nat)
    requires j < height
    ensures Start(w, j + 1) == Start(w, j) + w <= Start(w, height)
  {
    StartsApart(w, j, height);
  }

  /** Three of the four bytes of each pixel of a line. */
  method CopyLineWithoutAlpha(frame: array<Byte>, p: nat, user: seq<Byte>, q: nat, width: nat)
    requires p + 3 * width <= frame.Length && q + 4 * width <= |user|
    modifies frame
    ensures frame[..] == old(frame[..p]) + WithoutAlpha(user[q..q + 4 * width], width) + old(frame[p + 3 * width..])
  {
    hide WithAlpha, WithoutAlpha;
    ghost var line := WithoutAlpha(user[q..q + 4 * width], width);
    var p', q' := p, q;
    for i := 0 to width
      invariant p' == p + 3 * i && q' == q + 4 * i
      invariant forall k :: 0 <= k < frame.Length ==> frame[k] == if p <= k < p' then line[k - p] else old(frame[k])
    {
      WithAlphaOfPixel(i);
      assert line[3 * i] == user[q'] && line[3 * i + 1] == user[q' + 1] && line[3 * i + 2] == user[q' + 2];
      frame[p'], frame[p' + 1], frame[p' + 2] := user[q'], user[q' + 1], user[q' + 2];
      q' := q' + 4;
      p' := p' + 3;
    }
  }

  /** Line `y` of an image without alpha is line `y` of the image, without alpha. */
  lemma LineWithoutAlpha(user: seq<Byte>, width: nat, height: nat, y: nat)
    requires |user| == 4 * Start(width, height) && y < height
    ensures Start(3 * width, y) == 3 * Start(width, y) && Start(4 * width, y) == 4 * Start(width, y)
    ensures Start(width, y) + width <= Start(width, height)
    ensures var at, from := 3 * Start(width, y), 4 * Start(width, y);
            WithoutAlpha(user, Start(width, height))[at..at + 3 * width]
            == WithoutAlpha(user[from..from + 4 * width], width)
  {
    hide Start, WithoutAlpha;
    StartScales(3, width, y);
    StartScales(4, width, y);
    StartsApart(width, y, height);
    SliceWithoutAlpha(user, Start(width, height), Start(width, y), width);
  }

  lemma SliceWithoutAlpha(user: seq<Byte>, n: nat, s: nat, w: nat)
    requires |user| == 4 * n && s + w <= n
    ensures WithoutAlpha(user, n)[3 * s..3 * s + 3 * w] == WithoutAlpha(user[4 * s..4 * s + 4 * w], w)
  {
    hide WithAlpha, WithoutAlpha;
    var all, line := WithoutAlpha(user, n), WithoutAlpha(user[4 * s..4 * s + 4 * w], w);
    forall k: nat | k < 3 * w ensures all[3 * s + k] == line[k] {
      WithAlphaAdds(s, k);
    }
  }

  lemma WithAlphaAdds(s: nat, k: nat)
    ensures WithAlpha(3 * s + k) == 4 * s + WithAlpha(k)
  {}

  lemma {:induction false} StartScales(b: nat, w: nat, r: nat)
    ensures Start(b * w, r) == b * Start(w, r)
  {
    if r > 0 {
      StartScales(b, w, r - 1);
      assert b * (Start(w, r - 1) + w) == b * Start(w, r - 1) + b * w;
    }
  }

  /** Writing line `y` without its alpha extends the frame by one line. */
  lemma RgbaLineWritten(frame: seq<Byte>, prior: seq<Byte>, before: seq<Byte>, user: seq<Byte>,
                        width: nat, height: nat, y: nat)
    requires |user| == 4 * Start(width, height) && y < height
    requires |WithoutAlpha(user, Start(width, height))| >= Start(3 * width, y + 1)
    requires Start(LineSize(width), y + 1) <= |prior|
    requires Framed(prior, before, WithoutAlpha(user, Start(width, height)), width, y)
    requires Start(4 * width, y) + 4 * width <= |user|
    requires var at, from := Start(LineSize(width), y), Start(4 * width, y);
             frame == prior[..at] + WithoutAlpha(user[from..from + 4 * width], width) + prior[at + 3 * width..]
    ensures Framed(frame, before, WithoutAlpha(user, Start(width, height)), width, y + 1)
  {
    hide Start, Framed, WithoutAlpha;
    LineWithoutAlpha(user, width, height, y);
    LineWritten(frame, prior, before, WithoutAlpha(user, Start(width, height)), width, y);
  }

  /** Format 1: four bytes for each pixel, of which three are copied. */
  method CopyRgba(frame: array<Byte>, user: seq<Byte>, width: nat, height: nat)
    requires Start(LineSize(width), height) <= frame.Length && |user| == 4 * Start(width, height)
    modifies frame
    ensures var rgb := WithoutAlpha(user, Start(width, height));
            |rgb| >= Start(3 * width, height) && Framed(frame[..], old(frame[..]), rgb, width, height)
  {
    hide Start, Framed, WithoutAlpha, LineSize;
    var bp := LineSize(width);
    ghost var before := frame[..];
    ghost var rgb := WithoutAlpha(user, Start(width, height));
    StartScales(3, width, height);
    StartScales(4, width, height);
    var ref, q := 0, 0;
    FirstLine(bp, 4 * width);
    FirstLine(3 * width, 4 * width);
    NothingFramed(before, rgb, width);
    for j := 0 to height
      invariant ref == Start(bp, j) && q == Start(4 * width, j)
      invariant Start(3 * width, j) <= |rgb| && Framed(frame[..], before, rgb, width, j)
    {
      NextLine(bp, j, height);
      NextLine(3 * width, j, height);
      NextLine(4 * width, j, height);
      ghost var prior := frame[..];
      CopyLineWithoutAlpha(frame, ref, user, q, width);
      RgbaLineWritten(frame[..], prior, before, user, width, height, j);
      q := q + 4 * width;
      ref := ref + bp;
    }
  }

  /** Copy to a mapped buffer of whole lines; an unknown format writes nothing. */
  method CopyDataToMmapBuf(frame: array<Byte>, user: seq<Byte>, width: nat, height: nat, format: int)
    requires frame.Length == Start(LineSize(width), FrameHeight(height))
    requires format == 0 ==> |user| == Start(3 * width, height)
    requires format == 1 ==> |user| == 4 * Start(width, height)
    modifies frame
    ensures format == 0 ==> Framed(frame[..], old(frame[..]), user, width, height)
    ensures format == 1 ==> var rgb := WithoutAlpha(user, Start(width, height));
                            |rgb| >= Start(3 * width, height) && Framed(frame[..], old(frame[..]), rgb, width, height)
    ensures format !in {0, 1} ==> frame[..] == old(frame[..])
  {
    StartsApart(LineSize(width), height, FrameHeight(height));
    if format == 0 {
      CopyRgb(frame, user, width, height);
    } else if format == 1 {
      CopyRgba(frame, user, width, height);
    }
  }

  /** Both formats give the same frame for the same pixels. */
  lemma FormatsAgree(f: seq<Byte>, g: seq<Byte>, before: seq<Byte>, rgba: seq<Byte>, rgb: seq<Byte>,
                     width: nat, height: nat)
    requires |rgba| == 4 * Start(width, height) && rgb == WithoutAlpha(rgba, Start(width, height))
    requires |rgb| >= Start(3 * width, height)
    requires Framed(f, before, rgb, width, height)
    requires Framed(g, before, WithoutAlpha(rgba, Start(width, height)), width, height)
    ensures f == g
  {
    FramedIsUnique(f, g, before, rgb, width, height);
  }

  /** Byte by byte: colour byte `c` of the pixel in column `x` and row `y`, and byte `k` of the padding of that row. */
  lemma FramedAt(frame: seq<Byte>, before: seq<Byte>, rgb: seq<Byte>, width: nat, lines: nat, x: nat, y: nat, c: nat)
    requires |rgb| >= Start(3 * width, lines) && Framed(frame, before, rgb, width, lines)
    requires x < width && y < lines && c < 3
    ensures var bp := (width + 31) / 32 * 96;
            && 0 <= y * bp + 3 * x + c < |frame| && 0 <= 3 * (y * width + x) + c < |rgb|
            && frame[y * bp + 3 * x + c] == rgb[3 * (y * width + x) + c]
  {
    hide Framed;
    LineOfFrame(frame, before, rgb, width, lines, y);
    StartIsProduct(3 * width, y);
    StartIsProduct(LineSize(width), y);
    Tripled(y, width);
    hide Start;
    var at, from, bp := Start(LineSize(width), y), Start(3 * width, y), LineSize(width);
    assert frame[at..at + 3 * width][3 * x + c] == rgb[from..from + 3 * width][3 * x + c];
  }

  lemma PaddedAt(frame: seq<Byte>, before: seq<Byte>, rgb: seq<Byte>, width: nat, lines: nat, y: nat, k: nat)
    requires |rgb| >= Start(3 * width, lines) && Framed(frame, before, rgb, width, lines)
    requires y < lines && 3 * width <= k < (width + 31) / 32 * 96
    ensures var bp := (width + 31) / 32 * 96;
            && 0 <= y * bp + k < |frame| == |before| && frame[y * bp + k] == before[y * bp + k]
  {
    hide Framed;
    LineOfFrame(frame, before, rgb, width, lines, y);
    StartIsProduct(LineSize(width), y);
    hide Start;
    var at, n, bp := Start(LineSize(width), y), 3 * width, LineSize(width);
    assert frame[at + n..at + bp][k - n] == before[at + n..at + bp][k - n];
  }

  lemma LineOfFrame(frame: seq<Byte>, before: seq<Byte>, rgb: seq<Byte>, width: nat, lines: nat, y: nat)
    requires |rgb| >= Start(3 * width, lines) && Framed(frame, before, rgb, width, lines) && y < lines
    ensures LineHeld(frame, before, rgb, width, y)
  {}

  lemma Tripled(y: nat, w: nat)
    ensures y * (3 * w) == 3 * (y * w) && (3 * w) * y == 3 * (y * w)
  {}
}
