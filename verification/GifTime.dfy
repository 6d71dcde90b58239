/** Seeking by time: durations are accumulated in an unsigned 32-bit millisecond counter. */
module GifTime {
  import opened GifModel

  const TWO_TO_THE_32 := 0x1_0000_0000

  type Msec = n: int | 0 <= n < TWO_TO_THE_32

  /** The display time of a frame, from its first graphic control block. */
  function Duration(blocks: seq<ExtensionBlock>): (d: nat)
    requires forall i :: 0 <= i < |blocks| && blocks[i].code == GRAPHICS_EXT_FUNC_CODE ==> |blocks[i].bytes| >= 4
    ensures d % 10 == 0 && d <= 655350
  {
    if blocks == [] then 0
    else if blocks[0].code == GRAPHICS_EXT_FUNC_CODE then (blocks[0].bytes[2] * 256 + blocks[0].bytes[1]) * 10
    else Duration(blocks[1..])
  }

  ghost predicate Timed(gif: Gif) {
    forall f :: f in gif.frames ==>
      forall i :: 0 <= i < |f.blocks| && f.blocks[i].code == GRAPHICS_EXT_FUNC_CODE ==> |f.blocks[i].bytes| >= 4
  }

  /** Adding a duration to the counter, which wraps. */
  function Tick(dur: Msec, d: nat): (r: Msec)
    requires d <= 655350
    ensures r == if dur + d < TWO_TO_THE_32 then dur + d else dur + d - TWO_TO_THE_32
  {
    (dur + d) % TWO_TO_THE_32
  }

  /** The time at which the first `n` frames have been shown. */
  ghost function Elapsed(gif: Gif, n: nat): (t: nat)
    requires Timed(gif) && n <= |gif.frames|
    ensures t % 10 == 0
  {
    if n == 0 then 0 else Elapsed(gif, n - 1) + Duration(gif.frames[n - 1].blocks)
  }

  lemma {:induction false} ElapsedIsMonotone(gif: Gif, m: nat, n: nat)
    requires Timed(gif) && m <= n <= |gif.frames|
    ensures Elapsed(gif, m) <= Elapsed(gif, n)
    decreases n
  {
    if m < n {
      ElapsedIsMonotone(gif, m, n - 1);
    }
  }

  /** Frame `i` is on display at `time`: the least frame that `time` does not outlast, or the last one. */
  ghost predicate OnDisplay(gif: Gif, time: Msec, i: int)
    requires Timed(gif)
  {
    && 0 <= i < |gif.frames|
    && (forall j :: 0 < j <= i ==> Elapsed(gif, j) < time)
    && (i + 1 < |gif.frames| ==> Elapsed(gif, i + 1) >= time)
  }

  /** What the scan selects, from frame `i` on with the counter at `dur`. */
  ghost function Select(gif: Gif, time: Msec, i: nat, dur: Msec): (r: int)
    requires Timed(gif) && i <= |gif.frames|
    ensures -1 <= r < |gif.frames|
    decreases |gif.frames| - i
  {
    if i == |gif.frames| then |gif.frames| - 1
    else
      var next := Tick(dur, Duration(gif.frames[i].blocks));
      if next >= time then i else Select(gif, time, i + 1, next)
  }

  /** The scan selects a frame before it runs out of frames. */
  ghost predicate Found(gif: Gif, time: Msec, i: nat, dur: Msec)
    requires Timed(gif) && i <= |gif.frames|
    decreases |gif.frames| - i
  {
    i < |gif.frames| &&
    var next := Tick(dur, Duration(gif.frames[i].blocks));
    next >= time || Found(gif, time, i + 1, next)
  }

  method SavedImageDuration(f: Frame) returns (d: nat)
    requires forall i :: 0 <= i < |f.blocks| && f.blocks[i].code == GRAPHICS_EXT_FUNC_CODE ==> |f.blocks[i].bytes| >= 4
    ensures d == Duration(f.blocks)
  {
    for j := 0 to |f.blocks|
      invariant Duration(f.blocks) == Duration(f.blocks[j..])
    {
      var b := f.blocks[j];
      if b.code == GRAPHICS_EXT_FUNC_CODE {
        var high: int, low: int := b.bytes[2], b.bytes[1];
        return (high * 256 + low) * 10;
      }
      assert f.blocks[j..][1..] == f.blocks[j + 1..];
    }
    return 0;
  }

  lemma {:induction false} SelectsDisplayed(gif: Gif, time: Msec, i: nat)
    requires Timed(gif) && i < |gif.frames|
    requires Elapsed(gif, |gif.frames| - 1) < TWO_TO_THE_32 && Elapsed(gif, i) < TWO_TO_THE_32
    requires forall j :: 0 < j <= i ==> Elapsed(gif, j) < time
    ensures OnDisplay(gif, time, Select(gif, time, i, Elapsed(gif, i)))
    decreases |gif.frames| - i
  {
    hide Duration, Tick;
    if i + 1 < |gif.frames| {
      ElapsedIsMonotone(gif, i + 1, |gif.frames| - 1);
      assert Tick(Elapsed(gif, i), Duration(gif.frames[i].blocks)) == Elapsed(gif, i + 1);
      if Elapsed(gif, i + 1) < time {
        SelectsDisplayed(gif, time, i + 1);
      }
    } else {
      assert Select(gif, time, i, Elapsed(gif, i)) == i;
    }
  }

  lemma {:induction false} SelectIsAhead(gif: Gif, time: Msec, i: nat, dur: Msec)
    requires Timed(gif) && i < |gif.frames|
    ensures Select(gif, time, i, dur) >= i
    decreases |gif.frames| - i
  {
    var next := Tick(dur, Duration(gif.frames[i].blocks));
    if next < time && i + 1 < |gif.frames| {
      SelectIsAhead(gif, time, i + 1, next);
    }
  }

  /** When the counter wraps at frame `k`, a late time is not found there. */
  lemma {:induction false} SelectSkips(gif: Gif, time: Msec, i: nat, k: nat)
    requires Timed(gif) && i <= k && k + 1 < |gif.frames| && time > 655350
    requires Elapsed(gif, i) < TWO_TO_THE_32
    requires Elapsed(gif, k) < time && Elapsed(gif, k + 1) >= TWO_TO_THE_32
    ensures Select(gif, time, i, Elapsed(gif, i)) > k
    decreases k - i
  {
    hide Duration, Tick;
    var next := Tick(Elapsed(gif, i), Duration(gif.frames[i].blocks));
    if i < k {
      ElapsedIsMonotone(gif, i + 1, k);
      assert next == Elapsed(gif, i + 1);
      SelectSkips(gif, time, i + 1, k);
    } else {
      assert next == Elapsed(gif, k + 1) - TWO_TO_THE_32 < time;
      SelectIsAhead(gif, time, i + 1, next);
    }
  }

  lemma {:induction false} FirstOverflow(gif: Gif, n: nat) returns (k: nat)
    requires Timed(gif) && n <= |gif.frames| && Elapsed(gif, n) >= TWO_TO_THE_32
    ensures k < n && Elapsed(gif, k) < TWO_TO_THE_32 <= Elapsed(gif, k + 1)
  {
    if Elapsed(gif, n - 1) >= TWO_TO_THE_32 {
      k := FirstOverflow(gif, n - 1);
    } else {
      k := n - 1;
    }
  }

  /** The exact condition: every time selects the frame on display if and only if all frames but the last
      are over before the counter wraps. */
  lemma SelectIsExact(gif: Gif)
    requires Timed(gif) && |gif.frames| > 0
    ensures (forall time: Msec :: OnDisplay(gif, time, Select(gif, time, 0, 0)))
            <==> Elapsed(gif, |gif.frames| - 1) < TWO_TO_THE_32
  {
    if Elapsed(gif, |gif.frames| - 1) < TWO_TO_THE_32 {
      forall time: Msec ensures OnDisplay(gif, time, Select(gif, time, 0, 0)) {
        SelectsDisplayed(gif, time, 0);
      }
    } else {
      var k := FirstOverflow(gif, |gif.frames| - 1);
      var time: Msec := TWO_TO_THE_32 - 1;
      assert Elapsed(gif, k) % 10 == 0;
      SelectSkips(gif, time, 0, k);
      assert !OnDisplay(gif, time, Select(gif, time, 0, 0));
    }
  }

  /** Up to that limit, a later time never selects an earlier frame. */
  lemma SelectIsMonotone(gif: Gif, s: Msec, t: Msec)
    requires Timed(gif) && s <= t && |gif.frames| > 0
    requires Elapsed(gif, |gif.frames| - 1) < TWO_TO_THE_32
    ensures Select(gif, s, 0, 0) <= Select(gif, t, 0, 0)
  {
    SelectsDisplayed(gif, s, 0);
    SelectsDisplayed(gif, t, 0);
  }
  // ----- In the bytes of the blocks -----

  /** The delay time of section 23 of the GIF89a specification, in hundredths of a second: the low and the high byte
      behind the packed field of the first graphic control block; without one, none. */
  ghost predicate HasDelay(blocks: seq<ExtensionBlock>, delay: nat) {
    if exists k: nat :: FirstControl(blocks, k)
    then exists k: nat :: FirstControl(blocks, k) && |blocks[k].bytes| >= 4
                          && blocks[k].bytes[1] == delay % 256 && blocks[k].bytes[2] == delay / 256
    else delay == 0
  }

  predicate FirstControl(blocks: seq<ExtensionBlock>, k: nat) {
    k < |blocks| && blocks[k].code == 0xF9 && forall j :: 0 <= j < k ==> blocks[j].code != 0xF9
  }

  lemma {:induction false} DelayIsRead(blocks: seq<ExtensionBlock>, delay: nat)
    requires forall i :: 0 <= i < |blocks| && blocks[i].code == GRAPHICS_EXT_FUNC_CODE ==> |blocks[i].bytes| >= 4
    requires HasDelay(blocks, delay)
    ensures Duration(blocks) == 10 * delay
  {
    if blocks != [] {
      var rest := blocks[1..];
      if blocks[0].code == 0xF9 {
        assert FirstControl(blocks, 0);
      } else {
        assert forall k: nat :: FirstControl(rest, k) ==> FirstControl(blocks, k + 1);
        assert forall k: nat :: FirstControl(blocks, k) ==> k > 0 && FirstControl(rest, k - 1);
        DelayIsRead(rest, delay);
      }
    }
  }

  function Sum(s: seq<nat>): nat {
    if s == [] then 0 else s[0] + Sum(s[1..])
  }

  lemma {:induction false} SumGrows(s: seq<nat>, x: nat)
    ensures Sum(s + [x]) == Sum(s) + x
  {
    if s == [] {
      assert s + [x] == [x];
    } else {
      SumGrows(s[1..], x);
      assert (s + [x])[1..] == s[1..] + [x];
    }
  }

  ghost predicate HasDelays(gif: Gif, delays: seq<nat>) {
    |delays| == |gif.frames| && forall i :: 0 <= i < |delays| ==> HasDelay(gif.frames[i].blocks, delays[i])
  }

  lemma {:induction false} ElapsedIsSum(gif: Gif, delays: seq<nat>, n: nat)
    requires Timed(gif) && HasDelays(gif, delays) && n <= |delays|
    ensures Elapsed(gif, n) == 10 * Sum(delays[..n])
  {
    if n > 0 {
      hide Duration, HasDelay;
      ElapsedIsSum(gif, delays, n - 1);
      DelayIsRead(gif.frames[n - 1].blocks, delays[n - 1]);
      SumGrows(delays[..n - 1], delays[n - 1]);
      assert delays[..n] == delays[..n - 1] + [delays[n - 1]];
    }
  }

  /** Frame `i` begins after the delays before it and ends with its own; the last one does not end. */
  ghost predicate Spans(delays: seq<nat>, time: Msec, i: nat) {
    && i < |delays|
    && (i > 0 ==> 10 * Sum(delays[..i]) < time)
    && (i + 1 < |delays| ==> time <= 10 * Sum(delays[..i + 1]))
  }

  /** Unless the counter wraps, the frame selected is the one whose span in the delays has the time. */
  lemma SelectSpans(gif: Gif, delays: seq<nat>, time: Msec)
    requires Timed(gif) && |gif.frames| > 0 && HasDelays(gif, delays)
    requires 10 * Sum(delays[..|delays| - 1]) < TWO_TO_THE_32
    ensures forall i: nat :: Spans(delays, time, i) <==> i == Select(gif, time, 0, 0)
  {
    assert |delays| == |gif.frames|;
    hide HasDelays, Select;
    forall n: nat | n <= |delays| ensures Elapsed(gif, n) == 10 * Sum(delays[..n]) {
      ElapsedIsSum(gif, delays, n);
    }
    SelectsDisplayed(gif, time, 0);
    var s := Select(gif, time, 0, 0);
    forall i: nat ensures Spans(delays, time, i) <==> i == s {
      if i < |delays| {
        SpansIsDisplay(gif, delays, time, i);
        OneOnDisplay(gif, time, i, s);
      }
    }
  }

  lemma SpansIsDisplay(gif: Gif, delays: seq<nat>, time: Msec, i: nat)
    requires Timed(gif) && i < |gif.frames| == |delays|
    requires forall n: nat :: n <= |delays| ==> Elapsed(gif, n) == 10 * Sum(delays[..n])
    ensures Spans(delays, time, i) <==> OnDisplay(gif, time, i)
  {
    hide Elapsed, Sum;
    if Spans(delays, time, i) {
      forall j | 0 < j <= i ensures Elapsed(gif, j) < time {
        ElapsedIsMonotone(gif, j, i);
      }
    }
  }

  lemma OneOnDisplay(gif: Gif, time: Msec, i: int, j: int)
    requires Timed(gif) && OnDisplay(gif, time, j) && 0 <= i < |gif.frames|
    ensures OnDisplay(gif, time, i) ==> i == j
  {
    hide Elapsed;
  }

  /** The scan finds a frame exactly if there is one and all of them together last as long as the time, unless the
      counter wraps. */
  lemma {:induction false} FoundIff(gif: Gif, time: Msec, i: nat)
    requires Timed(gif) && i <= |gif.frames| && Elapsed(gif, |gif.frames|) < TWO_TO_THE_32
    requires Elapsed(gif, i) < TWO_TO_THE_32
    ensures Found(gif, time, i, Elapsed(gif, i)) <==> i < |gif.frames| && time <= Elapsed(gif, |gif.frames|)
    decreases |gif.frames| - i
  {
    hide Duration, Tick;
    if i < |gif.frames| {
      ElapsedIsMonotone(gif, i + 1, |gif.frames|);
      assert Tick(Elapsed(gif, i), Duration(gif.frames[i].blocks)) == Elapsed(gif, i + 1);
      FoundIff(gif, time, i + 1);
    }
  }
}
