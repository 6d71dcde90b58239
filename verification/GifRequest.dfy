/** Frame requests through the Java interface: every request renders into a bitmap of its own, from frame 0 on. */
module GifRequest {
  import opened Basics
  import opened GifModel
  import opened GifRender

  /** The index is set unchecked and a fresh bitmap is passed; a bitmap left unallocated cannot be copied and
      yields null. */
  ghost function FrameBitmap(gif: Gif, st: State, index: int): (Option<Canvas>, State)
    requires WellFormed(gif)
  {
    var r := GetBitmap(gif, st.(curr := index, bm := None));
    (r.bm, r)
  }

  // ----- Rendering from frame 0 -----

  /** After frame `i`, which is not the last. */
  ghost function Passed(gif: Gif, t: Canvases, i: nat): Canvases
    requires WellFormed(gif) && i < |gif.frames|
  {
    if WillBeCleared(gif.frames[i]) then t else t.(bm := Draw(gif, gif.frames[i], t.bm))
  }

  /** The canvases just before frame `i` is drawn. */
  ghost function Ready(gif: Gif, i: nat): (t: Canvases)
    requires WellFormed(gif) && i < |gif.frames|
    ensures |t.bm| == |t.backup| == Size(gif)
  {
    if i == 0 then Prepared(gif, BLANK, 0) else Prepared(gif, Passed(gif, Ready(gif, i - 1), i - 1), i)
  }

  lemma {:induction false} RenderIsReady(gif: Gif, s: Canvases, i: nat, last: nat)
    requires WellFormed(gif) && i <= last < |gif.frames|
    requires Prepared(gif, s, i) == Ready(gif, i)
    ensures Render(gif, s, i, last).bm == Draw(gif, gif.frames[last], Ready(gif, last).bm)
    decreases last - i
  {
    var r := Round(gif, s, i, last);
    if i < last {
      assert r == Passed(gif, Ready(gif, i), i);
      RenderIsReady(gif, r, i + 1, last);
    } else {
      assert Render(gif, s, i, last) == r;
    }
  }

  lemma RequestIsReady(gif: Gif, st: State, index: int)
    requires WellFormed(gif) && !(st.last >= 0 && st.last == index)
    ensures var last := Clamp(gif, index);
            && FrameBitmap(gif, st, index).0 == Some(Draw(gif, gif.frames[last], Ready(gif, last).bm))
            && FrameBitmap(gif, st, index).1.last == last
  {
    var s := Canvases([], st.backup);
    assert Prepared(gif, s, 0) == Ready(gif, 0);
    RenderIsReady(gif, s, 0, Clamp(gif, index));
  }

  // ----- When requests are safe -----

  /** Before frame `i`, pixel `p` may hold something other than the background: a frame that is kept drew it,
      and no disposal that was carried out removed it. */
  ghost predicate Remains(gif: Gif, i: nat, p: int)
    requires gif.width > 0 && i < |gif.frames|
  {
    i > 0 &&
    var f := gif.frames[i - 1];
    if Disposal(f) == 3 || (Disposal(f) == 2 && SkipsDisposal(gif, i)) then Remains(gif, i - 1, p)
    else if Disposal(f) == 2 then !Inside(gif, f, p) && Remains(gif, i - 1, p)
    else Inside(gif, f, p) || Remains(gif, i - 1, p)
  }

  /** A wrong pixel `p` in the backup of frame `i` is overwritten by the next frame, and not passed on. */
  predicate Overpainted(gif: Gif, i: nat, p: int)
    requires gif.width > 0 && i < |gif.frames|
    decreases |gif.frames| - i
  {
    || i + 1 == |gif.frames|
    || (Paints(gif, i + 1, p) && (Disposal(gif.frames[i + 1]) == 3 ==> Overpainted(gif, i + 1, p)))
  }

  /** Frame `i` saves pixel `p`, which should have become background and may hold something else. */
  ghost predicate SavesRemains(gif: Gif, i: nat, p: int)
    requires gif.width > 0 && 0 < i < |gif.frames|
  {
    SavesUndisposed(gif, i) && Disposal(gif.frames[i - 1]) == 2 && Inside(gif, gif.frames[i - 1], p)
    && Remains(gif, i - 1, p)
  }

  /** No pixel that should have become background is saved and shown later. */
  ghost predicate SafeRequests(gif: Gif)
    requires gif.width > 0
  {
    forall i, p | 0 < i < |gif.frames| && 0 <= p < Size(gif) :: SavesRemains(gif, i, p) ==> Overpainted(gif, i, p)
  }

  /** Requests ask less of a GIF than resumed rendering does. */
  lemma SafeIsSafeForRequests(gif: Gif)
    requires gif.width > 0 && Safe(gif)
    ensures SafeRequests(gif)
  {
    forall i, p | 0 < i < |gif.frames| && 0 <= p < Size(gif) && SavesRemains(gif, i, p)
      ensures Overpainted(gif, i, p)
    {
      CoveredIsInside(gif, gif.frames[i - 1], gif.frames[i], p);
      MaskedIsOverpainted(gif, i, p);
    }
  }

  lemma {:induction false} MaskedIsOverpainted(gif: Gif, i: nat, p: int)
    requires gif.width > 0 && Safe(gif) && i < |gif.frames| && 0 <= p < Size(gif)
    requires Inside(gif, gif.frames[i], p) && Masked(gif, i, p)
    ensures Overpainted(gif, i, p)
    decreases |gif.frames| - i
  {
    if i + 1 < |gif.frames| {
      if SkipsDisposal(gif, i + 1) {
        CoveredIsInside(gif, gif.frames[i], gif.frames[i + 1], p);
        if Disposal(gif.frames[i + 1]) == 3 {
          assert SavesUndisposed(gif, i + 1);
          MaskedIsOverpainted(gif, i + 1, p);
        }
      } else if Disposal(gif.frames[i + 1]) == 3 {
        MaskedIsOverpainted(gif, i + 1, p);
      }
    }
  }

  // ----- Safe requests are answered rightly -----

  ghost predicate Good(gif: Gif, t: Canvases, i: nat)
    requires WellFormed(gif) && i < |gif.frames|
  {
    && DirtyRegion(gif, t, i)
    && (forall p :: 0 <= p < Size(gif) ==> t.bm[p] == Painting(gif) || Remains(gif, i, p))
    && (Disposal(gif.frames[i]) == 3 ==>
          && t.backup == t.bm
          && forall p :: 0 <= p < Size(gif) ==> t.backup[p] == Before(gif, i)[p] || Overpainted(gif, i, p))
  }

  lemma DrawnIsShown(gif: Gif, t: Canvases, i: nat)
    requires WellFormed(gif) && i < |gif.frames| && DirtyRegion(gif, t, i)
    ensures Draw(gif, gif.frames[i], t.bm) == Shown(gif, i)
  {
    forall p | 0 <= p < Size(gif) ensures Draw(gif, gif.frames[i], t.bm)[p] == Shown(gif, i)[p] {
      if Paints(gif, i, p) {
        OpaqueFrameOverwrites(gif, gif.frames[i], t.bm[p], Before(gif, i)[p], p);
      }
    }
  }

  /** After a frame that is kept, the canvas shows it. */
  lemma KeptIsGood(gif: Gif, t: Canvases, i: nat)
    requires WellFormed(gif) && i + 1 < |gif.frames| && Good(gif, t, i) && Disposal(gif.frames[i]) !in {2, 3}
    ensures Good(gif, Prepared(gif, Passed(gif, t, i), i + 1), i + 1)
  {
    DrawnIsShown(gif, t, i);
  }

  lemma RestoredIsGood(gif: Gif, t: Canvases, i: nat)
    requires WellFormed(gif) && i + 1 < |gif.frames| && Good(gif, t, i) && Disposal(gif.frames[i]) == 3
    ensures Good(gif, Prepared(gif, Passed(gif, t, i), i + 1), i + 1)
  {
    var u := Prepared(gif, Passed(gif, t, i), i + 1);
    assert u.bm == t.bm;
    assert Before(gif, i + 1) == Before(gif, i);
  }

  lemma FilledIsGood(gif: Gif, t: Canvases, i: nat)
    requires WellFormed(gif) && SafeRequests(gif) && i + 1 < |gif.frames| && Good(gif, t, i)
    requires Disposal(gif.frames[i]) == 2
    ensures Good(gif, Prepared(gif, Passed(gif, t, i), i + 1), i + 1)
  {
    var u := Prepared(gif, Passed(gif, t, i), i + 1);
    var f := gif.frames[i];
    forall p | 0 <= p < Size(gif)
      ensures u.bm[p] == Before(gif, i + 1)[p] || Paints(gif, i + 1, p)
      ensures Disposal(gif.frames[i + 1]) == 3 ==> u.bm[p] == Before(gif, i + 1)[p] || Overpainted(gif, i + 1, p)
    {
      if !Inside(gif, f, p) {
        OnlyInsideChanges(gif, i + 1, p);
      } else if SkipsDisposal(gif, i + 1) {
        CoveredIsInside(gif, f, gif.frames[i + 1], p);
      }
    }
  }

  lemma FirstIsGood(gif: Gif)
    requires WellFormed(gif)
    ensures Good(gif, Ready(gif, 0), 0)
  {}

  lemma {:induction false} ReadyIsGood(gif: Gif, i: nat)
    requires WellFormed(gif) && SafeRequests(gif) && i < |gif.frames|
    ensures Good(gif, Ready(gif, i), i)
  {
    hide Good, Before, WellFormed;
    if i == 0 {
      FirstIsGood(gif);
    } else {
      ReadyIsGood(gif, i - 1);
      var t := Ready(gif, i - 1);
      var d := Disposal(gif.frames[i - 1]);
      if d == 2 {
        FilledIsGood(gif, t, i - 1);
      } else if d == 3 {
        RestoredIsGood(gif, t, i - 1);
      } else {
        KeptIsGood(gif, t, i - 1);
      }
    }
  }

  /** Every request, after any history, yields the reference canvas of the clamped index; only a request for the
      frame drawn last yields null. */
  ghost predicate RequestsShown(gif: Gif)
    requires WellFormed(gif)
  {
    forall st: State, index: int ::
      FrameBitmap(gif, st, index).0
      == if st.last >= 0 && st.last == index then None else Some(Shown(gif, Clamp(gif, index)))
  }

  lemma SafeRequestsAreShown(gif: Gif)
    requires WellFormed(gif) && SafeRequests(gif)
    ensures RequestsShown(gif)
  {
    forall st: State, index: int
      ensures FrameBitmap(gif, st, index).0
              == if st.last >= 0 && st.last == index then None else Some(Shown(gif, Clamp(gif, index)))
    {
      if !(st.last >= 0 && st.last == index) {
        RequestIsReady(gif, st, index);
        ReadyIsGood(gif, Clamp(gif, index));
        DrawnIsShown(gif, Ready(gif, Clamp(gif, index)), Clamp(gif, index));
      }
    }
  }

  // ----- Unsafe requests are answered wrongly for some pixels -----

  /** The canvas, and the backup that will be restored, hold something at `p`. */
  ghost predicate Stays(gif: Gif, t: Canvases, i: nat, p: int)
    requires i < |gif.frames|
  {
    && 0 <= p < |t.bm| == |t.backup| && t.bm[p] != CLEAR
    && (Disposal(gif.frames[i]) == 3 ==> t.backup[p] != CLEAR)
  }

  lemma DrawingNeverClears(gif: Gif, f: Frame, c: Color, p: int)
    requires gif.width > 0 && Drawable(gif, f) && c != CLEAR
    ensures DrawnPixel(gif, f, c, p) != CLEAR
  {
    if Inside(gif, f, p) {
      SourceInRaster(gif, f, p);
    }
  }

  lemma StayOn(gif: Gif, t: Canvases, i: nat, p: int)
    requires WellFormed(gif) && i + 1 < |gif.frames| && 0 <= p < Size(gif)
    requires |t.bm| == |t.backup| == Size(gif) && Passed(gif, t, i).bm[p] != CLEAR
    requires Disposal(gif.frames[i]) == 3 ==> t.backup[p] != CLEAR
    requires Disposal(gif.frames[i]) == 2 && !SkipsDisposal(gif, i + 1) ==> !Inside(gif, gif.frames[i], p)
    ensures Stays(gif, Prepared(gif, Passed(gif, t, i), i + 1), i + 1, p)
  {}

  /** The frame drawn white is there afterwards. */
  lemma WhiteStays(gif: Gif, k: nat, p: int)
    requires WellFormed(gif) && k + 1 < |gif.frames| && 0 <= p < Size(gif)
    requires Disposal(gif.frames[k]) !in {2, 3} && Inside(gif, gif.frames[k], p)
    ensures Stays(Spoiled(gif, k), Ready(Spoiled(gif, k), k + 1), k + 1, p)
  {
    var g := Spoiled(gif, k);
    var t := Ready(g, k);
    hide Ready, Stays;
    SpoiledDraws(gif, k, k, t.bm[p], p);
    StayOn(g, t, k, p);
    ReadyNext(g, k);
  }

  lemma ReadyNext(gif: Gif, i: nat)
    requires WellFormed(gif) && i + 1 < |gif.frames|
    ensures Ready(gif, i + 1) == Prepared(gif, Passed(gif, Ready(gif, i), i), i + 1)
  {}

  /** It is still there after a frame that does not remove it. */
  lemma StillStays(gif: Gif, i: nat, p: int)
    requires WellFormed(gif) && i + 1 < |gif.frames| && 0 <= p < Size(gif)
    requires Stays(gif, Ready(gif, i), i, p)
    requires Disposal(gif.frames[i]) == 2 && !SkipsDisposal(gif, i + 1) ==> !Inside(gif, gif.frames[i], p)
    ensures Stays(gif, Ready(gif, i + 1), i + 1, p)
  {
    var t := Ready(gif, i);
    ReadyNext(gif, i);
    hide Ready;
    DrawingNeverClears(gif, gif.frames[i], t.bm[p], p);
    StayOn(gif, t, i, p);
  }

  /** What may remain does remain in the spoiled GIF of some frame. */
  lemma {:induction false} RemainsStays(gif: Gif, i: nat, p: int) returns (k: nat)
    requires WellFormed(gif) && i < |gif.frames| && 0 <= p < Size(gif) && Remains(gif, i, p)
    ensures k < i && Stays(Spoiled(gif, k), Ready(Spoiled(gif, k), i), i, p)
  {
    hide Ready, Stays, Spoiled, SkipsDisposal, Inside, Control;
    var f := gif.frames[i - 1];
    if Disposal(f) !in {2, 3} && Inside(gif, f, p) {
      k := i - 1;
      WhiteStays(gif, k, p);
    } else {
      k := RemainsStays(gif, i - 1, p);
      SpoiledStays(gif, k, i - 1, p);
    }
  }

  lemma SpoiledStays(gif: Gif, k: nat, i: nat, p: int)
    requires WellFormed(gif) && k < i && i + 1 < |gif.frames| && 0 <= p < Size(gif)
    requires Stays(Spoiled(gif, k), Ready(Spoiled(gif, k), i), i, p)
    requires Disposal(gif.frames[i]) == 2 && !SkipsDisposal(gif, i + 1) ==> !Inside(gif, gif.frames[i], p)
    ensures Stays(Spoiled(gif, k), Ready(Spoiled(gif, k), i + 1), i + 1, p)
  {
    hide Ready, Stays;
    ShapeDecidesControl(gif, Spoiled(gif, k));
    StillStays(Spoiled(gif, k), i, p);
  }

  /** Frame `i` saved something at `p`, where the reference has background. */
  ghost predicate FaultyReady(gif: Gif, t: Canvases, i: nat, p: int)
    requires WellFormed(gif) && i < |gif.frames|
  {
    && Disposal(gif.frames[i]) == 3 && |t.bm| == |t.backup| == Size(gif) && 0 <= p < Size(gif)
    && t.bm == t.backup && t.bm[p] != CLEAR && Before(gif, i)[p] == CLEAR
  }

  lemma FaultPassedOn(gif: Gif, t: Canvases, i: nat, p: int)
    requires WellFormed(gif) && i + 1 < |gif.frames| && FaultyReady(gif, t, i, p)
    ensures var u := Prepared(gif, Passed(gif, t, i), i + 1);
            && u.bm == t.bm && Before(gif, i + 1)[p] == CLEAR
            && (Disposal(gif.frames[i + 1]) == 3 ==> FaultyReady(gif, u, i + 1, p))
  {
    assert WillBeCleared(gif.frames[i]);
  }

  lemma {:induction false} FaultAnswered(gif: Gif, k: nat, i: nat, p: int) returns (last: nat)
    requires WellFormed(gif) && k < i < |gif.frames| && Quiet(gif, k, p)
    requires FaultyReady(gif, Ready(gif, i), i, p) && !Overpainted(gif, i, p)
    ensures last < |gif.frames| && Draw(gif, gif.frames[last], Ready(gif, last).bm) != Shown(gif, last)
    decreases |gif.frames| - i
  {
    FaultPassedOn(gif, Ready(gif, i), i, p);
    if Paints(gif, i + 1, p) {
      last := FaultAnswered(gif, k, i + 1, p);
    } else {
      last := i + 1;
      assert Draw(gif, gif.frames[last], Ready(gif, last).bm)[p] == Ready(gif, last).bm[p];
      assert Shown(gif, last)[p] == CLEAR;
    }
  }

  lemma FaultReady(gif: Gif, i: nat, p: int)
    requires WellFormed(gif) && 0 < i < |gif.frames| && SavesUndisposed(gif, i) && 0 <= p < Size(gif)
    requires Disposal(gif.frames[i - 1]) == 2 && Inside(gif, gif.frames[i - 1], p) && Painting(gif) == CLEAR
    requires Stays(gif, Ready(gif, i - 1), i - 1, p)
    ensures FaultyReady(gif, Ready(gif, i), i, p)
  {
    assert WillBeCleared(gif.frames[i - 1]);
  }

  lemma {:induction false} ShapeDecidesOverpainted(gif: Gif, other: Gif, i: nat, p: int)
    requires SameShapes(gif, other) && gif.width > 0 && i < |gif.frames|
    ensures Overpainted(gif, i, p) == Overpainted(other, i, p)
    decreases |gif.frames| - i
  {
    ShapeDecidesControl(gif, other);
    if i + 1 < |gif.frames| {
      ShapeDecidesOverpainted(gif, other, i + 1, p);
    }
  }

  lemma {:induction false} ShapeDecidesRemains(gif: Gif, other: Gif, i: nat, p: int)
    requires SameShapes(gif, other) && gif.width > 0 && i < |gif.frames|
    ensures Remains(gif, i, p) == Remains(other, i, p)
  {
    ShapeDecidesControl(gif, other);
    if i > 0 {
      ShapeDecidesRemains(gif, other, i - 1, p);
    }
  }

  lemma ShapeDecidesSafeRequests(gif: Gif, other: Gif)
    requires SameShapes(gif, other) && gif.width > 0
    ensures SafeRequests(gif) ==> SafeRequests(other)
  {
    ShapeDecidesControl(gif, other);
    if SafeRequests(gif) {
      forall i, p | 0 < i < |gif.frames| && 0 <= p < Size(gif) && SavesRemains(other, i, p)
        ensures Overpainted(other, i, p)
      {
        ShapeDecidesOverpainted(gif, other, i, p);
        ShapeDecidesRemains(gif, other, i - 1, p);
        assert SavesRemains(gif, i, p);
      }
    }
  }

  lemma UnsafeRequestIsWrong(gif: Gif, i: nat, p: int) returns (g: Gif)
    requires WellFormed(gif) && 0 < i < |gif.frames| && 0 <= p < Size(gif)
    requires SavesRemains(gif, i, p) && !Overpainted(gif, i, p)
    ensures WellFormed(g) && SameShapes(gif, g) && !RequestsShown(g)
  {
    hide Remains, Overpainted, Ready, Stays, FaultyReady, Quiet;
    var k := RemainsStays(gif, i - 1, p);
    g := Spoiled(gif, k);
    ShapeDecidesControl(gif, g);
    ShapeDecidesOverpainted(gif, g, i, p);
    SpoiledIsQuiet(gif, k, p);
    FaultReady(g, i, p);
    var last := FaultAnswered(g, k, i, p);
    RequestIsReady(g, START, last);
    assert FrameBitmap(g, START, last).0 != Some(Shown(g, Clamp(g, last)));
  }

  /** The exact condition for requests: every GIF with the rectangles and control blocks of `gif` answers every
      request rightly if and only if that shape is safe for requests. */
  lemma SafeRequestsIffShown(gif: Gif)
    requires WellFormed(gif)
    ensures SafeRequests(gif) <==> forall g: Gif :: WellFormed(g) && SameShapes(gif, g) ==> RequestsShown(g)
  {
    if SafeRequests(gif) {
      forall g: Gif | WellFormed(g) && SameShapes(gif, g) ensures RequestsShown(g) {
        ShapeDecidesSafeRequests(gif, g);
        SafeRequestsAreShown(g);
      }
    } else {
      var i, p :| 0 < i < |gif.frames| && 0 <= p < Size(gif) && SavesRemains(gif, i, p) && !Overpainted(gif, i, p);
      var g := UnsafeRequestIsWrong(gif, i, p);
    }
  }
  // ----- A request that is answered wrongly -----

  /** One pixel: white (kept), white (disposal 2), opaque black (disposal 3), then nothing but transparency. */
  const FOUR_FRAMES := Gif(1, 1, [ExampleFrame(0, 1), ExampleFrame(8, 1), ExampleFrame(12, 0), ExampleFrame(1, 0)],
                           None, 0)

  lemma FourControls()
    ensures WellFormed(FOUR_FRAMES) && Painting(FOUR_FRAMES) == CLEAR
    ensures forall i :: 0 <= i < 4 ==> Inside(FOUR_FRAMES, FOUR_FRAMES.frames[i], 0)
    ensures Disposal(FOUR_FRAMES.frames[0]) == 0 && Disposal(FOUR_FRAMES.frames[1]) == 2
    ensures SavesUndisposed(FOUR_FRAMES, 2)
    ensures Trans(FOUR_FRAMES.frames[3]) && Disposal(FOUR_FRAMES.frames[3]) == 0
  {
    ExampleFrameIsGood(FOUR_FRAMES, 0, 1);
    ExampleFrameIsGood(FOUR_FRAMES, 8, 1);
    ExampleFrameIsGood(FOUR_FRAMES, 12, 0);
    ExampleFrameIsGood(FOUR_FRAMES, 1, 0);
  }

  /** The white of frame 0 is on the canvas when frame 1 would be drawn. */
  lemma WhiteIsLeft()
    requires WellFormed(FOUR_FRAMES)
    ensures Stays(FOUR_FRAMES, Ready(FOUR_FRAMES, 1), 1, 0)
  {
    var g := FOUR_FRAMES;
    FourControls();
    ExampleFrameIsGood(g, 0, 1);
    var t := Ready(g, 0);
    assert !WillBeCleared(g.frames[0]);
    assert Passed(g, t, 0).bm[0] == DrawnPixel(g, g.frames[0], t.bm[0], 0);
    ReadyNext(g, 0);
    hide Ready;
    StayOn(g, t, 0, 0);
  }

  /** A first request, for frame 3, yields a white pixel, where the reference is clear again. */
  lemma ExampleRequestIsWrong()
    ensures WellFormed(FOUR_FRAMES) && !SafeRequests(FOUR_FRAMES)
    ensures FrameBitmap(FOUR_FRAMES, START, 3).0 != Some(Shown(FOUR_FRAMES, 3))
  {
    hide FrameBitmap, Ready, Stays;
    var g := FOUR_FRAMES;
    FourControls();
    WhiteIsLeft();
    FaultReady(g, 2, 0);
    FaultPassedOn(g, Ready(g, 2), 2, 0);
    ReadyNext(g, 2);
    RequestIsReady(g, START, 3);
    ExampleFrameIsGood(g, 1, 0);
    assert Draw(g, g.frames[3], Ready(g, 3).bm)[0] == Ready(g, 3).bm[0];
    assert Shown(g, 3)[0] == CLEAR;
    assert Remains(g, 1, 0);
    assert SavesRemains(g, 2, 0) && !Overpainted(g, 2, 0);
  }
}
