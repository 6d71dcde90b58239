/** The seekable renderer as a function of its state, and its refinement of the reference compositor. */
module GifRender {
  import opened Basics
  import opened GifModel

  // ----- The renderer -----

  datatype Canvases = Canvases(bm: Canvas, backup: Canvas)

  /** `last` is the index last drawn, -1 before the first drawing. */
  datatype State = State(curr: int, last: int, bm: Option<Canvas>, backup: Canvas)

  const START := State(-1, -1, None, [])

  /** Leave frame `cur` for frame `next`: restoring is skipped when `next` is opaque and covers `cur`. */
  function Dispose(gif: Gif, s: Canvases, cur: Frame, next: Frame, col: Color): Canvases
    requires gif.width > 0
  {
    var restored :=
      if Disposal(cur) in {2, 3} && (Trans(next) || !Covers(next, cur)) then
        if Disposal(cur) == 2 then Canvases(Fill(gif, cur, s.bm, col), s.backup)
        else Canvases(s.backup, s.bm)
      else s;
    if Disposal(next) == 3 then Canvases(restored.bm, restored.bm) else restored
  }

  /** The canvases just before frame `i` is drawn, given those after frame `i - 1`. */
  ghost function Prepared(gif: Gif, s: Canvases, i: nat): Canvases
    requires WellFormed(gif) && i < |gif.frames|
  {
    if i == 0 then var c := Solid(Size(gif), Painting(gif)); Canvases(c, c)
    else Dispose(gif, s, gif.frames[i - 1], gif.frames[i], Painting(gif))
  }

  /** One round of the rendering loop; a frame that is not the last and will be cleared is not drawn. */
  ghost function Round(gif: Gif, s: Canvases, i: nat, last: nat): Canvases
    requires WellFormed(gif) && i < |gif.frames|
  {
    var t := Prepared(gif, s, i);
    if i == last || !WillBeCleared(gif.frames[i]) then t.(bm := Draw(gif, gif.frames[i], t.bm)) else t
  }

  ghost function Render(gif: Gif, s: Canvases, i: nat, last: nat): Canvases
    requires WellFormed(gif) && last < |gif.frames|
    decreases last + 1 - i
  {
    if i > last then s else Render(gif, Round(gif, s, i, last), i + 1, last)
  }

  function Clamp(gif: Gif, curr: int): nat
    requires |gif.frames| > 0
  {
    if curr < 0 then 0 else if curr > |gif.frames| - 1 then |gif.frames| - 1 else curr
  }

  /** Where the loop starts: resume after the last frame drawn, unless there is none or it lies ahead. */
  function StartIndex(st: State): int {
    if st.last < 0 || st.bm.None? then 0
    else if st.last + 1 > st.curr then 0
    else st.last + 1
  }

  predicate UpToDate(st: State) {
    st.last >= 0 && st.last == st.curr
  }

  ghost function GetBitmap(gif: Gif, st: State): State
    requires WellFormed(gif)
  {
    if UpToDate(st) then st
    else
      var last := Clamp(gif, st.curr);
      var s := Render(gif, Canvases(if st.bm.Some? then st.bm.value else [], st.backup), StartIndex(st), last);
      State(st.curr, last, Some(s.bm), s.backup)
  }

  // ----- Runs -----

  /** A call on the decoder: move the current index, or render it. Selecting a frame, selecting a time and a frame
      request all move the index to some value; here it is any value at all. */
  datatype Op = Seek(index: int) | Get

  ghost function Apply(gif: Gif, st: State, op: Op): State
    requires WellFormed(gif)
  {
    match op
    case Seek(i) => st.(curr := i)
    case Get => GetBitmap(gif, st)
  }

  ghost function Run(gif: Gif, ops: seq<Op>): State
    requires WellFormed(gif)
  {
    if ops == [] then START else Apply(gif, Run(gif, ops[..|ops| - 1]), ops[|ops| - 1])
  }

  /** After the calls `ops`, rendering shows the reference canvas of the clamped current index. */
  ghost predicate Correct(gif: Gif, ops: seq<Op>)
    requires WellFormed(gif)
  {
    var st := GetBitmap(gif, Run(gif, ops));
    st.last == Clamp(gif, st.curr) && st.bm == Some(Shown(gif, st.last))
  }

  ghost predicate Faithful(gif: Gif)
    requires WellFormed(gif)
  {
    forall ops: seq<Op> :: Correct(gif, ops)
  }

  // ----- When the shortcuts are safe -----

  /** Going from frame `i - 1` to frame `i`, the disposal of frame `i - 1` is skipped. */
  predicate SkipsDisposal(gif: Gif, i: nat)
    requires 0 < i < |gif.frames|
  {
    Disposal(gif.frames[i - 1]) in {2, 3} && !Trans(gif.frames[i]) && Covers(gif.frames[i], gif.frames[i - 1])
  }

  /** Frame `i` certainly overwrites pixel `p`. */
  predicate Paints(gif: Gif, i: nat, p: int)
    requires gif.width > 0 && i < |gif.frames|
  {
    !Trans(gif.frames[i]) && Inside(gif, gif.frames[i], p)
  }

  /** A wrong pixel `p` in the backup that frame `i` (disposal 3) will restore never shows: the backup is
      not restored, or the frame it is restored for overwrites `p` and does not pass it on. */
  predicate Masked(gif: Gif, i: nat, p: int)
    requires gif.width > 0 && i < |gif.frames|
    decreases |gif.frames| - i
  {
    || i + 1 == |gif.frames|
    || SkipsDisposal(gif, i + 1)
    || (Paints(gif, i + 1, p) && (Disposal(gif.frames[i + 1]) == 3 ==> Masked(gif, i + 1, p)))
  }

  /** The canvas is saved for frame `i` although the disposal of frame `i - 1` was skipped. */
  predicate SavesUndisposed(gif: Gif, i: nat)
    requires 0 < i < |gif.frames|
  {
    SkipsDisposal(gif, i) && Disposal(gif.frames[i]) == 3
  }

  /** No undisposed pixel that is saved is ever shown. Depends on rectangles and control blocks only. */
  ghost predicate Safe(gif: Gif)
    requires gif.width > 0
  {
    forall i, p | 0 < i < |gif.frames| && 0 <= p < Size(gif) ::
      SavesUndisposed(gif, i) && Inside(gif, gif.frames[i - 1], p) ==> Masked(gif, i, p)
  }

  /** In particular a GIF is safe when no undisposed canvas is saved at all. */
  lemma NothingSavedIsSafe(gif: Gif)
    requires gif.width > 0
    requires forall i :: 0 < i < |gif.frames| ==> !SavesUndisposed(gif, i)
    ensures Safe(gif)
  {}

  // ----- The invariant -----

  ghost predicate BackupTracks(gif: Gif, s: Canvases, i: nat)
    requires WellFormed(gif) && i < |gif.frames|
  {
    && |s.backup| == Size(gif)
    && (Disposal(gif.frames[i]) == 3 ==>
          forall p :: 0 <= p < Size(gif) ==> s.backup[p] == Before(gif, i)[p] || Masked(gif, i, p))
  }

  /** Just before frame `i` is drawn, the canvas is wrong only where frame `i` overwrites it. */
  ghost predicate DirtyRegion(gif: Gif, s: Canvases, i: nat)
    requires WellFormed(gif) && i < |gif.frames|
  {
    && |s.bm| == Size(gif)
    && forall p :: 0 <= p < Size(gif) ==> s.bm[p] == Before(gif, i)[p] || Paints(gif, i, p)
  }

  /** After round `i`, the canvas shows frame `i`, or does so outside its rectangle if it was not drawn. */
  ghost predicate Tracks(gif: Gif, s: Canvases, i: nat, drawn: bool)
    requires WellFormed(gif) && i < |gif.frames|
  {
    && |s.bm| == Size(gif)
    && (drawn || Disposal(gif.frames[i]) in {2, 3})
    && (forall p :: 0 <= p < Size(gif) ==>
          s.bm[p] == Shown(gif, i)[p] || (!drawn && Inside(gif, gif.frames[i], p)))
    && BackupTracks(gif, s, i)
  }

  lemma CoveredIsInside(gif: Gif, f: Frame, g: Frame, p: int)
    requires gif.width > 0 && Covers(g, f) && Inside(gif, f, p)
    ensures Inside(gif, g, p)
  {}

  /** Outside its rectangle a frame changes nothing, and neither does its disposal. */
  lemma OnlyInsideChanges(gif: Gif, i: nat, p: int)
    requires WellFormed(gif) && 0 < i < |gif.frames| && 0 <= p < Size(gif)
    requires !Inside(gif, gif.frames[i - 1], p)
    ensures Before(gif, i)[p] == Shown(gif, i - 1)[p] == Before(gif, i - 1)[p]
  {}

  lemma PreparedIsReady(gif: Gif, s: Canvases, i: nat, drawn: bool)
    requires WellFormed(gif) && Safe(gif) && 0 < i < |gif.frames|
    requires Tracks(gif, s, i - 1, drawn)
    ensures DirtyRegion(gif, Prepared(gif, s, i), i) && BackupTracks(gif, Prepared(gif, s, i), i)
  {
    var t := Prepared(gif, s, i);
    var prev := gif.frames[i - 1];
    forall p | 0 <= p < Size(gif)
      ensures t.bm[p] == Before(gif, i)[p] || Paints(gif, i, p)
      ensures Disposal(gif.frames[i]) == 3 ==> t.backup[p] == Before(gif, i)[p] || Masked(gif, i, p)
    {
      if SkipsDisposal(gif, i) {
        if Inside(gif, prev, p) {
          CoveredIsInside(gif, prev, gif.frames[i], p);
        } else {
          OnlyInsideChanges(gif, i, p);
        }
      } else if Disposal(prev) == 2 {
        if !Inside(gif, prev, p) {
          OnlyInsideChanges(gif, i, p);
        }
      }
    }
  }

  lemma FirstIsReady(gif: Gif, s: Canvases)
    requires WellFormed(gif)
    ensures DirtyRegion(gif, Prepared(gif, s, 0), 0) && BackupTracks(gif, Prepared(gif, s, 0), 0)
  {}

  lemma RoundTracks(gif: Gif, s: Canvases, i: nat, last: nat)
    requires WellFormed(gif) && i < |gif.frames|
    requires DirtyRegion(gif, Prepared(gif, s, i), i) && BackupTracks(gif, Prepared(gif, s, i), i)
    ensures Tracks(gif, Round(gif, s, i, last), i, i == last || !WillBeCleared(gif.frames[i]))
  {
    var t := Prepared(gif, s, i);
    var f := gif.frames[i];
    forall p | 0 <= p < Size(gif)
      ensures Round(gif, s, i, last).bm[p] == Shown(gif, i)[p]
              || (!(i == last || !WillBeCleared(f)) && Inside(gif, f, p))
    {
      if Paints(gif, i, p) {
        OpaqueFrameOverwrites(gif, f, t.bm[p], Before(gif, i)[p], p);
      }
    }
  }

  lemma {:induction false} RenderTracks(gif: Gif, s: Canvases, i: nat, last: nat, drawn: bool)
    requires WellFormed(gif) && Safe(gif) && i <= last < |gif.frames|
    requires i > 0 ==> Tracks(gif, s, i - 1, drawn)
    ensures Tracks(gif, Render(gif, s, i, last), last, true)
    decreases last - i
  {
    if i == 0 { FirstIsReady(gif, s); } else { PreparedIsReady(gif, s, i, drawn); }
    RoundTracks(gif, s, i, last);
    if i < last {
      RenderTracks(gif, Round(gif, s, i, last), i + 1, last, !WillBeCleared(gif.frames[i]));
    } else {
      assert Render(gif, s, i, last) == Round(gif, s, i, last);
    }
  }

  /** What holds between calls: the bitmap shows the frame last drawn. */
  ghost predicate Settled(gif: Gif, st: State)
    requires WellFormed(gif)
  {
    st.last >= 0 ==>
      && st.last < |gif.frames| && st.bm.Some?
      && Tracks(gif, Canvases(st.bm.value, st.backup), st.last, true)
  }

  lemma GetBitmapSettles(gif: Gif, st: State)
    requires WellFormed(gif) && Safe(gif) && Settled(gif, st)
    ensures var r := GetBitmap(gif, st);
            Settled(gif, r) && r.curr == st.curr && r.last == Clamp(gif, r.curr) && r.bm == Some(Shown(gif, r.last))
  {
    var r := GetBitmap(gif, st);
    if !UpToDate(st) {
      var s := Canvases(if st.bm.Some? then st.bm.value else [], st.backup);
      if StartIndex(st) <= r.last {
        RenderTracks(gif, s, StartIndex(st), r.last, true);
      }
    }
    assert r.bm.value == Shown(gif, r.last);
  }

  lemma {:induction false} RunSettles(gif: Gif, ops: seq<Op>)
    requires WellFormed(gif) && Safe(gif)
    ensures Settled(gif, Run(gif, ops))
  {
    if ops != [] {
      var n := |ops| - 1;
      RunSettles(gif, ops[..n]);
      if ops[n].Get? {
        GetBitmapSettles(gif, Run(gif, ops[..n]));
      }
    }
  }

  /** Main theorem: whatever was sought and rendered before, a safe GIF is shown as the reference shows it. */
  lemma SafeIsFaithful(gif: Gif)
    requires WellFormed(gif) && Safe(gif)
    ensures Faithful(gif)
  {
    forall ops: seq<Op> ensures Correct(gif, ops) {
      RunSettles(gif, ops);
      GetBitmapSettles(gif, Run(gif, ops));
    }
  }

  // ----- Safety is exactly what is needed -----

  predicate SameShape(f: Frame, g: Frame) {
    (f.left, f.top, f.width, f.height, f.blocks) == (g.left, g.top, g.width, g.height, g.blocks)
  }

  /** Two GIFs that differ at most in pixels and colours. */
  ghost predicate SameShapes(gif: Gif, other: Gif) {
    && gif.width == other.width && gif.height == other.height && |gif.frames| == |other.frames|
    && forall i :: 0 <= i < |gif.frames| ==> SameShape(gif.frames[i], other.frames[i])
  }

  lemma ShapeDecidesControl(gif: Gif, other: Gif)
    requires SameShapes(gif, other) && gif.width > 0
    ensures forall i :: 0 < i < |gif.frames| ==> SkipsDisposal(gif, i) == SkipsDisposal(other, i)
    ensures forall i :: 0 < i < |gif.frames| ==> SavesUndisposed(gif, i) == SavesUndisposed(other, i)
    ensures forall i, p :: 0 <= i < |gif.frames| ==> Inside(gif, gif.frames[i], p) == Inside(other, other.frames[i], p)
    ensures forall i, p :: 0 <= i < |gif.frames| ==> Paints(gif, i, p) == Paints(other, i, p)
  {}

  lemma {:induction false} ShapeDecidesMasked(gif: Gif, other: Gif, i: nat, p: int)
    requires SameShapes(gif, other) && gif.width > 0 && i < |gif.frames|
    ensures Masked(gif, i, p) == Masked(other, i, p)
    decreases |gif.frames| - i
  {
    ShapeDecidesControl(gif, other);
    if i + 1 < |gif.frames| {
      ShapeDecidesMasked(gif, other, i + 1, p);
    }
  }

  lemma ShapeDecidesSafe(gif: Gif, other: Gif)
    requires SameShapes(gif, other) && gif.width > 0
    ensures Safe(gif) ==> Safe(other)
  {
    ShapeDecidesControl(gif, other);
    forall i, p | 0 < i < |gif.frames| && 0 <= p < Size(gif) {
      ShapeDecidesMasked(gif, other, i, p);
    }
  }

  const WHITE := Argb(0xFF, 0xFF, 0xFF, 0xFF)

  /** A table of 256 entries of one colour. */
  function Uniform(c: Rgb): (m: ColorMap)
    ensures TableUsable(Some(m)) && |m.colors| == 256 && forall i :: 0 <= i < 256 ==> m.colors[i] == c
  {
    assert Pow2(8) == 256 by { assert Pow2(4) == 16; assert Pow2(6) == 64; }
    ColorMap(8, seq(256, _ => c))
  }

  /** The frame with its raster uniformly `v` and its table uniformly `c`. */
  function Repaint(f: Frame, v: Byte, c: Rgb): Frame
    requires f.width >= 0 && f.height >= 0
  {
    f.(colorMap := Some(Uniform(c)), raster := seq(f.width * f.height, _ => v))
  }

  /** A value that frame `f` treats as transparent, if there is one. */
  function Hollow(f: Frame): Byte
    ensures TransparentIndex(f.blocks) >= 0 ==> Hollow(f) == TransparentIndex(f.blocks)
  {
    TransparentIndexIsByte(f.blocks);
    if TransparentIndex(f.blocks) >= 0 then TransparentIndex(f.blocks) else 0
  }

  lemma {:induction false} TransparentIndexIsByte(blocks: seq<ExtensionBlock>)
    ensures -1 <= TransparentIndex(blocks) < 256
  {
    if blocks != [] {
      TransparentIndexIsByte(blocks[..|blocks| - 1]);
    }
  }

  lemma RepaintIsGood(gif: Gif, other: Gif, f: Frame, v: Byte, c: Rgb)
    requires gif.width == other.width && gif.height == other.height
    requires OnScreen(gif, f) && Coherent(f)
    ensures var g := Repaint(f, v, c);
            SameShape(f, g) && Coherent(g) && OnScreen(other, g) && TableUsable(Table(other, g)) && Drawable(other, g)
  {}

  function SpoiledFrame(gif: Gif, k: nat, i: nat): Frame
    requires i < |gif.frames| && OnScreen(gif, gif.frames[i])
  {
    var f := gif.frames[i];
    if i == k then Repaint(f, if Hollow(f) == 0 then 1 else 0, Rgb(255, 255, 255))
    else Repaint(f, Hollow(f), Rgb(0, 0, 0))
  }

  /** The shape of `gif` with frame `k` drawn all white, every other frame black or transparent throughout. */
  ghost function Spoiled(gif: Gif, k: nat): (g: Gif)
    requires WellFormed(gif) && k < |gif.frames|
    ensures |g.frames| == |gif.frames| && g.width == gif.width && g.height == gif.height && g.colorMap == None
    ensures forall i :: 0 <= i < |g.frames| ==> g.frames[i] == SpoiledFrame(gif, k, i)
    ensures WellFormed(g) && SameShapes(gif, g)
  {
    var g := Gif(gif.width, gif.height,
                 seq(|gif.frames|, i requires 0 <= i < |gif.frames| => SpoiledFrame(gif, k, i)), None, 0);
    SpoiledIsWellFormed(gif, k, g);
    g
  }

  lemma SpoiledIsWellFormed(gif: Gif, k: nat, g: Gif)
    requires WellFormed(gif) && k < |gif.frames|
    requires |g.frames| == |gif.frames| && g.width == gif.width && g.height == gif.height && g.colorMap == None
    requires forall i :: 0 <= i < |g.frames| ==> g.frames[i] == SpoiledFrame(gif, k, i)
    ensures WellFormed(g) && SameShapes(gif, g)
  {
    hide Coherent, OnScreen, TableUsable, Drawable, SameShape, Repaint;
    forall i | 0 <= i < |gif.frames|
      ensures var f := g.frames[i];
              SameShape(gif.frames[i], f) && Coherent(f) && OnScreen(g, f) && TableUsable(Table(g, f)) && Drawable(g, f)
    {
      var f := gif.frames[i];
      RepaintIsGood(gif, g, f, if Hollow(f) == 0 then 1 else 0, Rgb(255, 255, 255));
      RepaintIsGood(gif, g, f, Hollow(f), Rgb(0, 0, 0));
    }
  }

  lemma SpoiledDraws(gif: Gif, k: nat, i: nat, prior: Color, p: int)
    requires WellFormed(gif) && k < |gif.frames| && i < |gif.frames|
    ensures var g := Spoiled(gif, k);
            var d := DrawnPixel(g, g.frames[i], prior, p);
            && (i == k && Inside(gif, gif.frames[k], p) ==> d == WHITE)
            && (i != k ==> d == prior || d == Argb(255, 0, 0, 0))
            && (!Paints(gif, i, p) && i != k ==> d == prior)
  {
    var g := Spoiled(gif, k);
    var f := g.frames[i];
    TransHasIndex(f.blocks);
    if Inside(gif, gif.frames[i], p) {
      SourceInRaster(g, f, p);
    }
  }

  /** If no frame before `k` draws white at `p`, the reference is not white there. */
  lemma {:induction false} NotWhite(gif: Gif, k: nat, p: int)
    requires WellFormed(gif) && k < |gif.frames| && 0 <= p < Size(gif) && Painting(gif) != WHITE
    requires forall i, c | 0 <= i < k && c != WHITE :: DrawnPixel(gif, gif.frames[i], c, p) != WHITE
    ensures Before(gif, k)[p] != WHITE
  {
    if k > 0 {
      NotWhite(gif, k - 1, p);
    }
  }

  /** After frame `k`, only frames that certainly overwrite pixel `p` change it. */
  ghost predicate Quiet(gif: Gif, k: nat, p: int)
    requires WellFormed(gif)
  {
    forall i, c | k < i < |gif.frames| && !Paints(gif, i, p) :: DrawnPixel(gif, gif.frames[i], c, p) == c
  }

  /** The backup of frame `i` differs at `p` from the reference, and frame `i` will restore it. */
  ghost predicate Faulty(gif: Gif, s: Canvases, i: nat, p: int)
    requires WellFormed(gif) && i < |gif.frames|
  {
    && Disposal(gif.frames[i]) == 3
    && |s.bm| == |s.backup| == Size(gif)
    && 0 <= p < Size(gif) && s.backup[p] != Before(gif, i)[p]
  }

  lemma FaultRestored(gif: Gif, s: Canvases, i: nat, p: int)
    requires WellFormed(gif) && i < |gif.frames| && Faulty(gif, s, i, p) && !Masked(gif, i, p)
    ensures i + 1 < |gif.frames|
    ensures var t := Prepared(gif, s, i + 1);
            && |t.bm| == |t.backup| == Size(gif) && t.bm[p] != Before(gif, i + 1)[p]
            && (Disposal(gif.frames[i + 1]) == 3 ==> Faulty(gif, t, i + 1, p))
  {}

  /** A fault that is not masked is carried on to a frame that shows it. */
  lemma {:induction false} FaultSurfaces(gif: Gif, k: nat, i: nat, s: Canvases, p: int) returns (last: nat)
    requires WellFormed(gif) && k < i < |gif.frames| && Quiet(gif, k, p)
    requires Faulty(gif, s, i, p) && !Masked(gif, i, p)
    ensures i < last < |gif.frames|
    ensures Render(gif, s, i + 1, last).bm != Shown(gif, last)
    decreases |gif.frames| - i
  {
    FaultRestored(gif, s, i, p);
    last := i + 1;
    var t := Prepared(gif, s, i + 1);
    if Paints(gif, i + 1, p) {
      last := FaultSurfaces(gif, k, i + 1, t, p);
      assert WillBeCleared(gif.frames[i + 1]);
      assert Round(gif, s, i + 1, last) == t;
    } else {
      var r := Round(gif, s, i + 1, last);
      assert Render(gif, s, i + 1, last) == r;
      assert r.bm[p] == t.bm[p] && Shown(gif, last)[p] == Before(gif, last)[p];
    }
  }

  /** The canvases are of screen size, and the last frame is drawn. */
  lemma {:induction false} RenderDraws(gif: Gif, s: Canvases, i: nat, last: nat) returns (c: Canvas)
    requires WellFormed(gif) && i <= last < |gif.frames|
    requires i > 0 ==> |s.bm| == |s.backup| == Size(gif)
    ensures |c| == |Render(gif, s, i, last).backup| == Size(gif)
    ensures Render(gif, s, i, last).bm == Draw(gif, gif.frames[last], c)
    decreases last - i
  {
    var r := Round(gif, s, i, last);
    if i < last {
      c := RenderDraws(gif, r, i + 1, last);
    } else {
      c := Prepared(gif, s, i).bm;
      assert Render(gif, s, i, last) == r;
    }
  }

  lemma RunExtended(gif: Gif, ops: seq<Op>, op: Op)
    requires WellFormed(gif)
    ensures Run(gif, ops + [op]) == Apply(gif, Run(gif, ops), op)
  {
    assert (ops + [op])[..|ops|] == ops;
  }

  const BLANK := Canvases([], [])

  /** Showing frame `k` and then a later frame `last` renders the frames after `k` on top. */
  lemma ShowTwo(gif: Gif, k: nat, last: nat)
    requires WellFormed(gif) && k < last < |gif.frames|
    ensures var r := GetBitmap(gif, Run(gif, [Seek(k), Get, Seek(last)]));
            r.last == last && r.bm == Some(Render(gif, Render(gif, BLANK, 0, k), k + 1, last).bm)
  {
    RunExtended(gif, [], Seek(k));
    assert [] + [Seek(k)] == [Seek(k)];
    RunExtended(gif, [Seek(k)], Get);
    assert [Seek(k)] + [Get] == [Seek(k), Get];
    RunExtended(gif, [Seek(k), Get], Seek(last));
    assert [Seek(k), Get] + [Seek(last)] == [Seek(k), Get, Seek(last)];
  }

  lemma SpoiledIsQuiet(gif: Gif, k: nat, p: int)
    requires WellFormed(gif) && k < |gif.frames|
    ensures Quiet(Spoiled(gif, k), k, p)
  {
    var g := Spoiled(gif, k);
    ShapeDecidesControl(gif, g);
    forall i, c | k < i < |g.frames| && !Paints(g, i, p) ensures DrawnPixel(g, g.frames[i], c, p) == c {
      SpoiledDraws(gif, k, i, c, p);
    }
  }

  /** Once frame `i - 1` was shown white at `p`, the canvas saved for frame `i` is white at `p`. */
  lemma FaultSaved(gif: Gif, i: nat, s: Canvases, p: int)
    requires WellFormed(gif) && 0 < i < |gif.frames| && SavesUndisposed(gif, i)
    requires |s.bm| == |s.backup| == Size(gif) && 0 <= p < Size(gif)
    requires Inside(gif, gif.frames[i - 1], p) && s.bm[p] == WHITE
    requires Before(gif, i - 1)[p] != WHITE && Painting(gif) != WHITE
    ensures forall last :: last != i ==> Round(gif, s, i, last) == Prepared(gif, s, i)
    ensures Faulty(gif, Prepared(gif, s, i), i, p)
  {
    assert WillBeCleared(gif.frames[i]);
  }

  lemma SpoiledStart(gif: Gif, k: nat, s: Canvases, p: int)
    requires WellFormed(gif) && k < |gif.frames| && 0 <= p < Size(gif) && Inside(gif, gif.frames[k], p)
    requires s == Render(Spoiled(gif, k), BLANK, 0, k)
    ensures |s.bm| == |s.backup| == Size(gif) && s.bm[p] == WHITE
    ensures Before(Spoiled(gif, k), k)[p] != WHITE && Painting(Spoiled(gif, k)) != WHITE
  {
    var g := Spoiled(gif, k);
    var c := RenderDraws(g, BLANK, 0, k);
    SpoiledDraws(gif, k, k, c[p], p);
    forall i, c | 0 <= i < k && c != WHITE ensures DrawnPixel(g, g.frames[i], c, p) != WHITE {
      SpoiledDraws(gif, k, i, c, p);
    }
    NotWhite(g, k, p);
  }

  lemma FaultShown(gif: Gif, i: nat, s: Canvases, p: int) returns (last: nat)
    requires WellFormed(gif) && 0 < i < |gif.frames| && SavesUndisposed(gif, i)
    requires |s.bm| == |s.backup| == Size(gif) && 0 <= p < Size(gif)
    requires Inside(gif, gif.frames[i - 1], p) && s.bm[p] == WHITE
    requires Before(gif, i - 1)[p] != WHITE && Painting(gif) != WHITE
    requires !Masked(gif, i, p) && Quiet(gif, i - 1, p)
    ensures i < last < |gif.frames| && Render(gif, s, i, last).bm != Shown(gif, last)
  {
    FaultSaved(gif, i, s, p);
    var t := Prepared(gif, s, i);
    last := FaultSurfaces(gif, i - 1, i, t, p);
    assert Render(gif, s, i, last) == Render(gif, t, i + 1, last);
  }

  lemma WrongAfterTwo(gif: Gif, k: nat, last: nat)
    requires WellFormed(gif) && k < last < |gif.frames|
    requires Render(gif, Render(gif, BLANK, 0, k), k + 1, last).bm != Shown(gif, last)
    ensures !Correct(gif, [Seek(k), Get, Seek(last)])
  {
    hide Render, Shown, WellFormed;
    ShowTwo(gif, k, last);
  }

  /** An undisposed pixel that is saved and not masked shows in the spoiled GIF. */
  lemma SpoiledIsWrong(gif: Gif, i: nat, p: int) returns (last: nat)
    requires WellFormed(gif) && 0 < i < |gif.frames| && 0 <= p < Size(gif)
    requires SavesUndisposed(gif, i) && Inside(gif, gif.frames[i - 1], p) && !Masked(gif, i, p)
    ensures !Correct(Spoiled(gif, i - 1), [Seek(i - 1), Get, Seek(last)])
  {
    hide Render, Shown, Before, Masked, Quiet, Inside, SavesUndisposed, SkipsDisposal, Coherent, Drawable;
    var k := i - 1;
    var g := Spoiled(gif, k);
    var s := Render(g, BLANK, 0, k);
    SpoiledStart(gif, k, s, p);
    ShapeDecidesControl(gif, g);
    ShapeDecidesMasked(gif, g, i, p);
    SpoiledIsQuiet(gif, k, p);
    last := FaultShown(g, i, s, p);
    WrongAfterTwo(g, k, last);
  }

  /** A shape that is not safe is shown wrongly for some pixels and some history. */
  lemma UnsafeIsUnfaithful(gif: Gif) returns (g: Gif, ops: seq<Op>)
    requires WellFormed(gif) && !Safe(gif)
    ensures WellFormed(g) && SameShapes(gif, g) && !Correct(g, ops)
  {
    hide Masked, Correct, Inside, SavesUndisposed;
    var i, p :| 0 < i < |gif.frames| && 0 <= p < Size(gif) && SavesUndisposed(gif, i)
      && Inside(gif, gif.frames[i - 1], p) && !Masked(gif, i, p);
    g := Spoiled(gif, i - 1);
    var last := SpoiledIsWrong(gif, i, p);
    ops := [Seek(i - 1), Get, Seek(last)];
  }

  /** The exact condition: every GIF with the rectangles and control blocks of `gif` is shown faithfully
      after every history if and only if that shape is safe. */
  lemma SafeIffFaithful(gif: Gif)
    requires WellFormed(gif)
    ensures Safe(gif) <==> forall g: Gif :: WellFormed(g) && SameShapes(gif, g) ==> Faithful(g)
  {
    if Safe(gif) {
      forall g: Gif | WellFormed(g) && SameShapes(gif, g) ensures Faithful(g) {
        ShapeDecidesSafe(gif, g);
        SafeIsFaithful(g);
      }
    } else {
      var g, ops := UnsafeIsUnfaithful(gif);
      assert !Faithful(g);
    }
  }

  // ----- The smallest shape that is not safe -----

  function ExampleFrame(flags: Byte, value: Byte): Frame {
    Frame(0, 0, 1, 1, Some(ColorMap(1, [Rgb(0, 0, 0), Rgb(255, 255, 255)])), [value],
          [ExtensionBlock(GRAPHICS_EXT_FUNC_CODE, [flags, 0, 0, 0])])
  }

  /** One pixel: white (disposal 2), then opaque black (disposal 3), then nothing but transparency. */
  const EXAMPLE := Gif(1, 1, [ExampleFrame(8, 1), ExampleFrame(12, 0), ExampleFrame(1, 0)], None, 0)

  lemma ExampleFrameIsGood(g: Gif, flags: Byte, value: Byte)
    requires g.width == g.height == 1 && value < 2
    ensures var f := ExampleFrame(flags, value);
            Coherent(f) && OnScreen(g, f) && TableUsable(Table(g, f)) && Drawable(g, f)
    ensures Control(ExampleFrame(flags, value).blocks) == (flags % 2 == 1, flags / 4 % 8)
    ensures forall c :: DrawnPixel(g, ExampleFrame(flags, value), c, 0)
                        == if flags % 2 == 1 && value == 0 then c
                           else Opaque(Rgb(255 * value, 255 * value, 255 * value))
  {
    AtMostOneControlIsCoherent(ExampleFrame(flags, value));
    assert Pow2(1) == 2;
    NoControl([]);
  }

  lemma ExampleControls()
    ensures WellFormed(EXAMPLE) && Painting(EXAMPLE) == CLEAR
    ensures SavesUndisposed(EXAMPLE, 1) && !SkipsDisposal(EXAMPLE, 2) && Disposal(EXAMPLE.frames[0]) == 2
    ensures WillBeCleared(EXAMPLE.frames[1]) && Trans(EXAMPLE.frames[2]) && Disposal(EXAMPLE.frames[2]) == 0
  {
    ExampleFrameIsGood(EXAMPLE, 8, 1);
    ExampleFrameIsGood(EXAMPLE, 12, 0);
    ExampleFrameIsGood(EXAMPLE, 1, 0);
  }

  lemma ExampleRendered()
    requires WellFormed(EXAMPLE)
    ensures var r := Render(EXAMPLE, Render(EXAMPLE, BLANK, 0, 0), 1, 2); |r.bm| == 1 && r.bm[0] == WHITE
  {
    ExampleControls();
    ExampleFrameIsGood(EXAMPLE, 8, 1);
    ExampleFrameIsGood(EXAMPLE, 1, 0);
    var g := EXAMPLE;
    var s := Round(g, BLANK, 0, 0);
    assert s == Render(g, BLANK, 0, 0) && |s.bm| == |s.backup| == 1 && s.bm[0] == WHITE;
    var t := Round(g, s, 1, 2);
    assert t == Prepared(g, s, 1) == Canvases(s.bm, s.bm);
    assert Render(g, s, 1, 2) == Round(g, t, 2, 2);
  }

  lemma ExampleShown()
    requires WellFormed(EXAMPLE)
    ensures Shown(EXAMPLE, 2)[0] == CLEAR
  {
    ExampleControls();
    ExampleFrameIsGood(EXAMPLE, 1, 0);
    assert Before(EXAMPLE, 1)[0] == CLEAR;
    assert Before(EXAMPLE, 2) == Before(EXAMPLE, 1);
  }

  lemma ExampleIsUnsafe()
    ensures !Safe(EXAMPLE)
  {
    ExampleControls();
    assert Inside(EXAMPLE, EXAMPLE.frames[0], 0) && !Masked(EXAMPLE, 1, 0);
  }

  /** Showing frame 0 and then frame 2 leaves frame 0's white pixel, where the reference is clear again. */
  lemma ExampleIsShownWrongly()
    ensures WellFormed(EXAMPLE) && !Safe(EXAMPLE) && !Correct(EXAMPLE, [Seek(0), Get, Seek(2)])
  {
    hide Render, Shown, Run, GetBitmap, Safe, WellFormed, Painting, SkipsDisposal;
    ExampleControls();
    ExampleRendered();
    ExampleShown();
    ExampleIsUnsafe();
    ShowTwo(EXAMPLE, 0, 2);
  }

  // ----- Consequences -----

  /** Rendering in stages leaves the same bitmap as rendering once. */
  lemma IncrementalEqualsBatch(gif: Gif, ops: seq<Op>, index: int)
    requires WellFormed(gif) && Safe(gif)
    ensures GetBitmap(gif, Run(gif, ops).(curr := index)).bm == GetBitmap(gif, START.(curr := index)).bm
  {
    RunSettles(gif, ops);
    GetBitmapSettles(gif, Run(gif, ops).(curr := index));
    GetBitmapSettles(gif, START.(curr := index));
  }
}
