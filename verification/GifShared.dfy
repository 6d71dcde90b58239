/** The painting colour is one variable for all decoders: rendering that resumes uses what the last one left there. */
module GifShared {
  import opened Basics
  import opened GifModel
  import opened GifRender
  import opened GifRequest

  // ----- Rendering with whatever colour is found -----

  ghost function PreparedWith(gif: Gif, s: Canvases, i: nat, col: Color): Canvases
    requires WellFormed(gif) && i < |gif.frames|
  {
    if i == 0 then Prepared(gif, s, 0) else Dispose(gif, s, gif.frames[i - 1], gif.frames[i], col)
  }

  ghost function RoundWith(gif: Gif, s: Canvases, i: nat, last: nat, col: Color): Canvases
    requires WellFormed(gif) && i < |gif.frames|
  {
    var t := PreparedWith(gif, s, i, col);
    if i == last || !WillBeCleared(gif.frames[i]) then t.(bm := Draw(gif, gif.frames[i], t.bm)) else t
  }

  /** Frame 0 sets the colour. */
  ghost function ColorAfter(gif: Gif, i: nat, col: Color): Color
    requires WellFormed(gif)
  {
    if i == 0 then Painting(gif) else col
  }

  ghost function RenderWith(gif: Gif, s: Canvases, i: nat, last: nat, col: Color): Canvases
    requires WellFormed(gif) && last < |gif.frames|
    decreases last + 1 - i
  {
    if i > last then s
    else RenderWith(gif, RoundWith(gif, s, i, last, col), i + 1, last, ColorAfter(gif, i, col))
  }

  /** The new state of the decoder, and the colour that is left. */
  ghost function GetBitmapWith(gif: Gif, st: State, col: Color): (State, Color)
    requires WellFormed(gif)
  {
    if UpToDate(st) then (st, col)
    else
      var last := Clamp(gif, st.curr);
      var s := Canvases(if st.bm.Some? then st.bm.value else [], st.backup);
      var r := RenderWith(gif, s, StartIndex(st), last, col);
      (State(st.curr, last, Some(r.bm), r.backup), ColorAfter(gif, StartIndex(st), col))
  }

  // ----- When that is the rendering of the decoder alone -----

  lemma {:induction false} OwnColorRenders(gif: Gif, s: Canvases, i: nat, last: nat, col: Color)
    requires WellFormed(gif) && last < |gif.frames| && (i > 0 ==> col == Painting(gif))
    ensures RenderWith(gif, s, i, last, col) == Render(gif, s, i, last)
    decreases last + 1 - i
  {
    if i <= last {
      assert RoundWith(gif, s, i, last, col) == Round(gif, s, i, last);
      OwnColorRenders(gif, Round(gif, s, i, last), i + 1, last, Painting(gif));
    }
  }

  /** Rendering from frame 0 ignores the colour that is found; resumed rendering is right with the GIF's own. */
  lemma OwnColorIsRight(gif: Gif, st: State, col: Color)
    requires WellFormed(gif) && (StartIndex(st) > 0 ==> col == Painting(gif))
    ensures GetBitmapWith(gif, st, col).0 == GetBitmap(gif, st)
    ensures GetBitmapWith(gif, st, col).1 == if UpToDate(st) then col else Painting(gif)
  {
    var s := Canvases(if st.bm.Some? then st.bm.value else [], st.backup);
    OwnColorRenders(gif, s, StartIndex(st), Clamp(gif, st.curr), col);
  }

  /** So every request is answered the same, whatever other decoders did. */
  lemma RequestsIgnoreOthers(gif: Gif, st: State, index: int, col: Color)
    requires WellFormed(gif)
    ensures var r := GetBitmapWith(gif, st.(curr := index, bm := None), col).0;
            (r.bm, r) == FrameBitmap(gif, st, index)
  {
    OwnColorIsRight(gif, st.(curr := index, bm := None), col);
  }

  // ----- Runs beside other decoders -----

  /** A call on this decoder, or a call on another one that leaves a colour. */
  datatype SharedOp = Own(op: Op) | Other(color: Color)

  ghost function ApplyShared(gif: Gif, x: (State, Color), op: SharedOp): (State, Color)
    requires WellFormed(gif)
  {
    match op
    case Other(col) => (x.0, col)
    case Own(Seek(i)) => (x.0.(curr := i), x.1)
    case Own(Get) => GetBitmapWith(gif, x.0, x.1)
  }

  ghost function RunShared(gif: Gif, ops: seq<SharedOp>): (State, Color)
    requires WellFormed(gif)
  {
    if ops == [] then (START, CLEAR) else ApplyShared(gif, RunShared(gif, ops[..|ops| - 1]), ops[|ops| - 1])
  }

  function OwnOps(ops: seq<SharedOp>): seq<Op> {
    if ops == [] then []
    else
      var o := ops[|ops| - 1];
      OwnOps(ops[..|ops| - 1]) + if o.Own? then [o.op] else []
  }

  ghost predicate OthersLeave(ops: seq<SharedOp>, col: Color) {
    forall o :: o in ops && o.Other? ==> o.color == col
  }

  /** If the others leave this GIF's own colour, they do not matter. */
  lemma {:induction false} SameColorIsHarmless(gif: Gif, ops: seq<SharedOp>)
    requires WellFormed(gif) && OthersLeave(ops, Painting(gif))
    ensures var (st, col) := RunShared(gif, ops);
            st == Run(gif, OwnOps(ops)) && (st.last >= 0 ==> col == Painting(gif))
  {
    if ops != [] {
      hide GetBitmap, GetBitmapWith, Painting, WellFormed;
      var n := |ops| - 1;
      SameColorIsHarmless(gif, ops[..n]);
      var x := RunShared(gif, ops[..n]);
      var own := OwnOps(ops[..n]);
      match ops[n] {
        case Other(col) =>
          assert own + [] == own;
        case Own(op) =>
          assert (own + [op])[..|own|] == own;
          if op.Get? {
            OwnColorIsRight(gif, x.0, x.1);
          }
      }
    }
  }

  /** Other decoders that leave colour `col` never matter to a GIF with painting colour `own`. */
  ghost predicate Harmless(own: Color, col: Color) {
    forall gif: Gif, ops: seq<SharedOp> ::
      WellFormed(gif) && Painting(gif) == own && OthersLeave(ops, col)
      ==> RunShared(gif, ops).0 == Run(gif, OwnOps(ops))
  }

  // ----- A GIF that shows the colour of another -----

  /** One pixel: white (disposal 2), then nothing but transparency. */
  function TwoFrames(table: Option<ColorMap>): Gif {
    Gif(1, 1, [ExampleFrame(8, 1), ExampleFrame(1, 0)], table, 0)
  }

  lemma TwoFramesControls(table: Option<ColorMap>)
    requires table.Some? ==> |table.value.colors| > 0
    ensures var g := TwoFrames(table);
            && WellFormed(g) && Painting(g) == (if table.Some? then Opaque(table.value.colors[0]) else CLEAR)
            && Disposal(g.frames[0]) == 2 && Trans(g.frames[1]) && Disposal(g.frames[1]) == 0
            && Inside(g, g.frames[0], 0) && forall c :: DrawnPixel(g, g.frames[1], c, 0) == c
  {
    ExampleFrameIsGood(TwoFrames(table), 8, 1);
    ExampleFrameIsGood(TwoFrames(table), 1, 0);
  }

  /** Resumed at frame 1, a GIF of such frames shows the colour that was found. */
  lemma FoundColorShows(g: Gif, s: Canvases, col: Color)
    requires WellFormed(g) && |g.frames| == 2 && |s.bm| == 1
    requires Disposal(g.frames[0]) == 2 && Trans(g.frames[1]) && Disposal(g.frames[1]) == 0
    requires Inside(g, g.frames[0], 0) && forall c :: DrawnPixel(g, g.frames[1], c, 0) == c
    ensures RenderWith(g, s, 1, 1, col).bm == [col]
  {
    hide Inside, DrawnPixel, Control, Covers;
    var t := PreparedWith(g, s, 1, col);
    assert t.bm == Fill(g, g.frames[0], s.bm, col);
    var r := RoundWith(g, s, 1, 1, col);
    assert |r.bm| == 1 && r.bm[0] == col;
    assert RenderWith(g, s, 1, 1, col) == r;
  }

  lemma SharedStep(gif: Gif, ops: seq<SharedOp>, o: SharedOp)
    requires WellFormed(gif)
    ensures RunShared(gif, ops + [o]) == ApplyShared(gif, RunShared(gif, ops), o)
    ensures OwnOps(ops + [o]) == OwnOps(ops) + if o.Own? then [o.op] else []
  {
    assert (ops + [o])[..|ops|] == ops;
  }

  /** Frame 0, another decoder, and frame 1. */
  function Beside(col: Color): seq<SharedOp> {
    [Own(Seek(0)), Own(Get)] + [Other(col)] + [Own(Seek(1))] + [Own(Get)]
  }

  lemma BesideOne(col: Color)
    ensures OthersLeave(Beside(col), col)
  {}

  /** After frame 0, another decoder, and frame 1, the bitmap has the other's colour. */
  lemma OtherColorShows(table: Option<ColorMap>, col: Color)
    requires table.Some? ==> |table.value.colors| > 0
    requires WellFormed(TwoFrames(table))
    ensures RunShared(TwoFrames(table), Beside(col)).0.bm == Some([col])
  {
    var g := TwoFrames(table);
    var start: seq<SharedOp> := [];
    var first := [Own(Seek(0)), Own(Get)];
    assert start + [Own(Seek(0))] + [Own(Get)] == first;
    SharedStep(g, start, Own(Seek(0)));
    SharedStep(g, start + [Own(Seek(0))], Own(Get));
    SharedStep(g, first, Other(col));
    SharedStep(g, first + [Other(col)], Own(Seek(1)));
    SharedStep(g, first + [Other(col)] + [Own(Seek(1))], Own(Get));
    hide RunShared, OwnOps, GetBitmapWith, GetBitmap;
    OwnColorIsRight(g, START.(curr := 0), CLEAR);
    ShownAfterFirst(g);
    FoundColorIsLeft(table, RunShared(g, first).0, col);
  }

  lemma FoundColorIsLeft(table: Option<ColorMap>, st: State, col: Color)
    requires (table.Some? ==> |table.value.colors| > 0) && WellFormed(TwoFrames(table))
    requires st.last == 0 && st.bm.Some? && |st.bm.value| == 1
    ensures GetBitmapWith(TwoFrames(table), st.(curr := 1), col).0.bm == Some([col])
  {
    hide RenderWith;
    TwoFramesControls(table);
    FoundColorShows(TwoFrames(table), Canvases(st.bm.value, st.backup), col);
  }

  lemma ShownAfterFirst(g: Gif)
    requires WellFormed(g) && g.width == g.height == 1 && |g.frames| == 2
    ensures var r := GetBitmap(g, START.(curr := 0)); r.last == 0 && r.bm.Some? && |r.bm.value| == 1
  {
    var s := Canvases([], START.backup);
    assert Render(g, s, 0, 0) == Round(g, s, 0, 0);
  }

  /** The exact condition: other decoders never matter if and only if they leave the GIF's own colour. */
  lemma HarmlessIff(own: Color, col: Color)
    requires own == CLEAR || exists c: Rgb :: own == Opaque(c)
    ensures Harmless(own, col) <==> own == col
  {
    if own == col {
      forall gif: Gif, ops: seq<SharedOp> | WellFormed(gif) && Painting(gif) == own && OthersLeave(ops, col)
        ensures RunShared(gif, ops).0 == Run(gif, OwnOps(ops))
      {
        SameColorIsHarmless(gif, ops);
      }
    } else {
      var table := if own == CLEAR then None
                   else var c :| own == Opaque(c); Some(ColorMap(1, [c, c]));
      TwoFramesControls(table);
      hide Painting;
      OtherColorHarms(table, col);
    }
  }

  lemma OtherColorHarms(table: Option<ColorMap>, col: Color)
    requires (table.Some? ==> |table.value.colors| > 0) && WellFormed(TwoFrames(table))
    requires col != Painting(TwoFrames(table))
    ensures !Harmless(Painting(TwoFrames(table)), col)
  {
    var g := TwoFrames(table);
    var own := Painting(g);
    var ops, alone := Beside(col), Beside(own);
    BesideOne(col);
    BesideOne(own);
    hide RunShared, Run, OwnOps, Painting, WellFormed, TwoFrames, Beside, OthersLeave;
    OtherColorShows(table, col);
    OtherColorShows(table, own);
    SameOwnOps(g, own, col);
    SameColorIsHarmless(g, alone);
    assert RunShared(g, ops).0.bm != RunShared(g, alone).0.bm;
    assert RunShared(g, ops).0 != Run(g, OwnOps(ops));
  }

  lemma SameOwnOps(g: Gif, own: Color, col: Color)
    requires WellFormed(g)
    ensures OwnOps(Beside(own)) == OwnOps(Beside(col))
  {
    var first := [Own(Seek(0)), Own(Get)];
    SharedStep(g, first, Other(own));
    SharedStep(g, first, Other(col));
    SharedStep(g, first + [Other(own)], Own(Seek(1)));
    SharedStep(g, first + [Other(col)], Own(Seek(1)));
    SharedStep(g, first + [Other(own)] + [Own(Seek(1))], Own(Get));
    SharedStep(g, first + [Other(col)] + [Own(Seek(1))], Own(Get));
  }
}
