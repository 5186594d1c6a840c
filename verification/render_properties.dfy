/**
 * What one frame, and a run of frames, of the render loop guarantee: the
 * order of the lines, the interrupt counts and their gating, the order of
 * the frame's events, the image left in the buffer, and that a `stop`
 * during a frame does not cut the frame short.
 */
module RenderProperties {
  import opened Wrappers
  import opened Events
  import opened Display
  import opened Render
  import opened Arith

  // ---------------------------------------------------------------- the line loop

  /** The line loop visits lines `y`, `y + 1`, ..., `rows - 1`, in that order. */
  lemma {:induction false} ScanEventsVisitLines(hbl: Channel, y: nat, rows: nat)
    ensures Lines(ScanEvents(hbl, y, rows)) == Range(y, rows)
    decreases rows - y
  {
    if y < rows {
      ScanEventsVisitLines(hbl, y + 1, rows);
      LinesAppend([Scanline(y)], CallHbl(hbl, y));
      LinesAppend([Scanline(y)] + CallHbl(hbl, y), ScanEvents(hbl, y + 1, rows));
    }
  }

  /** The horizontal-blank listener is called once per line when the channel
      fires, and never otherwise. */
  lemma {:induction false} ScanEventsHblCount(hbl: Channel, y: nat, rows: nat)
    ensures Count(ScanEvents(hbl, y, rows), IsHbl) == (if hbl.Fires() && y < rows then rows - y else 0)
    decreases rows - y
  {
    if y < rows {
      ScanEventsHblCount(hbl, y + 1, rows);
      CountAppend([Scanline(y)], CallHbl(hbl, y), IsHbl);
      CountAppend([Scanline(y)] + CallHbl(hbl, y), ScanEvents(hbl, y + 1, rows), IsHbl);
    }
  }

  /** Every horizontal blank comes straight after its own line has been
      drawn, and reports that line as `vCount`. */
  lemma {:induction false} HblFollowsItsLine(hbl: Channel, y: nat, rows: nat, i: int)
    requires 0 <= i < |ScanEvents(hbl, y, rows)| && ScanEvents(hbl, y, rows)[i].HblInterrupt?
    ensures var t := ScanEvents(hbl, y, rows);
            && hbl.listener.Some? && 0 < i && t[i - 1].Scanline?
            && t[i] == HblInterrupt(hbl.listener.value, t[i - 1].line)
    decreases rows - y
  {
    var head := [Scanline(y)] + CallHbl(hbl, y);
    var rest := ScanEvents(hbl, y + 1, rows);
    var t := ScanEvents(hbl, y, rows);
    assert t == head + rest;
    if i < |head| {
      assert t[i] == head[i];
      assert i == 1 && CallHbl(hbl, y) == [HblInterrupt(hbl.listener.value, y)];
      assert t[i - 1] == head[0];
    } else {
      var j := i - |head|;
      assert t[i] == rest[j];
      HblFollowsItsLine(hbl, y + 1, rows, j);
      assert t[i - 1] == rest[j - 1];
    }
  }

  /** When the channel fires, every drawn line is followed at once by its
      horizontal blank. */
  lemma {:induction false} LineFollowedByHbl(hbl: Channel, y: nat, rows: nat, i: int)
    requires hbl.Fires()
    requires 0 <= i < |ScanEvents(hbl, y, rows)| && ScanEvents(hbl, y, rows)[i].Scanline?
    ensures var t := ScanEvents(hbl, y, rows);
            i + 1 < |t| && t[i + 1] == HblInterrupt(hbl.listener.value, t[i].line)
    decreases rows - y
  {
    var head := [Scanline(y)] + CallHbl(hbl, y);
    var rest := ScanEvents(hbl, y + 1, rows);
    var t := ScanEvents(hbl, y, rows);
    assert t == head + rest;
    assert |head| == 2;
    if i < 2 {
      assert t[i] == head[i];
      assert i == 0 && t[1] == head[1];
    } else {
      var j := i - 2;
      assert t[i] == rest[j];
      LineFollowedByHbl(hbl, y + 1, rows, j);
      assert t[i + 1] == rest[j + 1];
    }
  }

  /** The pixel loop from line `y` on leaves the lines before `y` and the
      pixels past the last line untouched. */
  lemma {:induction false} DrawLinesKeeps(buf: seq<int>, w: nat, rows: nat, hook: Hook, y: nat)
    requires y <= rows && rows * w <= |buf|
    ensures var r := DrawLines(buf, w, rows, hook, y);
            forall i :: 0 <= i < |buf| && (i < y * w || rows * w <= i) ==> r[i] == buf[i]
    decreases rows - y
  {
    if y < rows {
      RowInside(y, rows, w);
      var s := DrawLine(buf, w, y, hook);
      var r := DrawLines(s, w, rows, hook, y + 1);
      assert r == DrawLines(buf, w, rows, hook, y);
      DrawLinesKeeps(s, w, rows, hook, y + 1);
      assert y * w <= (y + 1) * w;
      forall i | 0 <= i < |buf| && (i < y * w || rows * w <= i)
        ensures r[i] == buf[i]
      {
        assert r[i] == s[i];
      }
    }
  }

  /** Two buffers that agree on every pixel up to the end of line `y`
      agree on line `y`. */
  lemma SameLine(a: seq<int>, b: seq<int>, w: nat, y: nat)
    requires y * w + w <= |a| == |b|
    requires forall i :: 0 <= i < y * w + w ==> a[i] == b[i]
    ensures LineOf(a, w, y) == LineOf(b, w, y)
  {
    forall j | 0 <= j < w
      ensures LineOf(a, w, y)[j] == LineOf(b, w, y)[j]
    {
      assert a[y * w + j] == b[y * w + j];
    }
  }

  /** The inductive step of the pixel loop: when line `y` was drawn into
      `s`, and `r` keeps `s` up to the end of line `y` and holds the drawn
      lines after `y`, then `r` holds the drawn lines from `y` on. */
  lemma ImageStep(s: seq<int>, r: seq<int>, w: nat, rows: nat, hook: Hook, y: nat)
    requires y < rows && rows * w <= |s| == |r|
    requires y * w + w <= |s| && LineOf(s, w, y) == hook(Black(w), y)
    requires forall i :: 0 <= i < |s| && i < (y + 1) * w ==> r[i] == s[i]
    requires forall l :: y + 1 <= l < rows ==> l * w + w <= |r| && LineOf(r, w, l) == hook(Black(w), l)
    ensures forall l :: y <= l < rows ==> l * w + w <= |r| && LineOf(r, w, l) == hook(Black(w), l)
  {
    assert (y + 1) * w == y * w + w;
    SameLine(r, s, w, y);
  }

  /** Lines `y` onwards end up as the hook draws them on a black line. */
  lemma {:induction false} DrawLinesImage(buf: seq<int>, w: nat, rows: nat, hook: Hook, y: nat)
    requires y <= rows && rows * w <= |buf|
    ensures var r := DrawLines(buf, w, rows, hook, y);
            forall l :: y <= l < rows ==> l * w + w <= |r| && LineOf(r, w, l) == hook(Black(w), l)
    decreases rows - y
  {
    if y < rows {
      RowInside(y, rows, w);
      var s := DrawLine(buf, w, y, hook);
      var r := DrawLines(s, w, rows, hook, y + 1);
      assert r == DrawLines(buf, w, rows, hook, y);
      DrawLinesImage(s, w, rows, hook, y + 1);
      DrawLinesKeeps(s, w, rows, hook, y + 1);
      ImageStep(s, r, w, rows, hook, y);
    }
  }

  // ---------------------------------------------------------------- one frame

  /** The events that follow the line loop: the viewer notification when a
      viewer is set, the wake-up of a suspended waiter, and the vertical
      blank when it fires. */
  function FrameTail(d: Display): seq<Event> {
    (if d.viewer.Some? then [ScreenUpdated(d.viewer.value)] else [])
    + (if d.waiter then [WaiterWoken] else [])
    + (if d.vbl.Fires() then [VblInterrupt(d.vbl.listener.value)] else [])
  }

  /** The viewer notification and the vertical blank of a frame depend only
      on the viewer, the VBL channel and the waiter. */
  lemma TailParts(d: Display, drawn: Display)
    requires drawn.viewer == d.viewer && drawn.vbl == d.vbl && drawn.waiter == d.waiter
    ensures NotifyViewer(drawn) + CallVbl(drawn).trace == FrameTail(d)
  {
  }

  /** A frame's events are those of the line loop followed by the frame's tail. */
  lemma FrameTrace(d: Display, hook: Hook, stopped: bool)
    requires FrameFits(d)
    ensures Frame(d, hook, stopped).trace == ScanEvents(d.hbl, 0, Rows(d)) + FrameTail(d)
  {
    var drawn := d.(buffer := DrawLines(d.buffer, Cols(d), Rows(d), hook, 0),
                    vCount := if Rows(d) > 0 then Rows(d) - 1 else d.vCount,
                    running := d.running && !stopped);
    TailParts(d, drawn);
  }

  /** A frame leaves the pixels the pixel loop draws and `vCount` on the last line. */
  lemma FrameState(d: Display, hook: Hook, stopped: bool)
    requires FrameFits(d)
    ensures var f := Frame(d, hook, stopped);
            && f.display.buffer == DrawLines(d.buffer, Cols(d), Rows(d), hook, 0)
            && f.display.vCount == (if Rows(d) > 0 then Rows(d) - 1 else d.vCount)
  {
  }

  /** Within a frame `vCount` takes the values 0, 1, ..., height - 1 in
      increasing order, one line each, and ends at height - 1 (it keeps its
      old value when the height is below 1). */
  lemma FrameVisitsLinesInOrder(d: Display, hook: Hook, stopped: bool)
    requires FrameFits(d)
    ensures var f := Frame(d, hook, stopped);
            && Lines(f.trace) == Range(0, Rows(d))
            && f.display.vCount == (if d.height > 0 then d.height - 1 else d.vCount)
  {
    FrameTrace(d, hook, stopped);
    FrameState(d, hook, stopped);
    ScanEventsVisitLines(d.hbl, 0, Rows(d));
    var viewer := if d.viewer.Some? then [ScreenUpdated(d.viewer.value)] else [];
    var wake := if d.waiter then [WaiterWoken] else [];
    var call := if d.vbl.Fires() then [VblInterrupt(d.vbl.listener.value)] else [];
    LinesAppend(viewer, wake);
    LinesAppend(viewer + wake, call);
    LinesAppend(ScanEvents(d.hbl, 0, Rows(d)), FrameTail(d));
  }

  /** The tail of a frame holds no horizontal blank, one viewer
      notification when a viewer is set, one wake-up when a waiter is
      suspended, and one vertical blank when it fires. */
  lemma TailCounts(d: Display)
    ensures Count(FrameTail(d), IsHbl) == 0
    ensures Count(FrameTail(d), IsScreenUpdate) == (if d.viewer.Some? then 1 else 0)
    ensures Count(FrameTail(d), IsWake) == (if d.waiter then 1 else 0)
    ensures Count(FrameTail(d), IsVbl) == (if d.vbl.Fires() then 1 else 0)
  {
    var viewer := if d.viewer.Some? then [ScreenUpdated(d.viewer.value)] else [];
    var wake := if d.waiter then [WaiterWoken] else [];
    var call := if d.vbl.Fires() then [VblInterrupt(d.vbl.listener.value)] else [];
    assert FrameTail(d) == viewer + wake + call;
    CountAppend(viewer, wake, IsHbl);
    CountAppend(viewer, wake, IsScreenUpdate);
    CountAppend(viewer, wake, IsWake);
    CountAppend(viewer, wake, IsVbl);
    CountAppend(viewer + wake, call, IsHbl);
    CountAppend(viewer + wake, call, IsScreenUpdate);
    CountAppend(viewer + wake, call, IsWake);
    CountAppend(viewer + wake, call, IsVbl);
  }

  /** The line loop notifies no viewer, wakes no waiter and raises no
      vertical blank. */
  lemma ScanCounts(hbl: Channel, rows: nat)
    ensures Count(ScanEvents(hbl, 0, rows), IsScreenUpdate) == 0
    ensures Count(ScanEvents(hbl, 0, rows), IsWake) == 0
    ensures Count(ScanEvents(hbl, 0, rows), IsVbl) == 0
  {
    CountZero(ScanEvents(hbl, 0, rows), IsScreenUpdate);
    CountZero(ScanEvents(hbl, 0, rows), IsWake);
    CountZero(ScanEvents(hbl, 0, rows), IsVbl);
  }

  /** The interrupts of one frame: the horizontal-blank listener is called
      once per line when HBL is enabled and a listener is set, and never
      otherwise; the viewer is told once when set; a suspended waiter is
      woken once whatever the VBL flag says; the vertical-blank listener is
      called at most once, and only when VBL is enabled and a listener is set. */
  lemma FrameInterruptCounts(d: Display, hook: Hook, stopped: bool)
    requires FrameFits(d)
    ensures var t := Frame(d, hook, stopped).trace;
            && Count(t, IsHbl) == (if d.hbl.enabled && d.hbl.listener.Some? then Rows(d) else 0)
            && Count(t, IsScreenUpdate) == (if d.viewer.Some? then 1 else 0)
            && Count(t, IsWake) == (if d.waiter then 1 else 0)
            && Count(t, IsVbl) == (if d.vbl.enabled && d.vbl.listener.Some? then 1 else 0)
  {
    FrameTrace(d, hook, stopped);
    var scan := ScanEvents(d.hbl, 0, Rows(d));
    ScanEventsHblCount(d.hbl, 0, Rows(d));
    ScanCounts(d.hbl, Rows(d));
    TailCounts(d);
    CountAppend(scan, FrameTail(d), IsHbl);
    CountAppend(scan, FrameTail(d), IsScreenUpdate);
    CountAppend(scan, FrameTail(d), IsWake);
    CountAppend(scan, FrameTail(d), IsVbl);
  }

  /** The order of a frame's events: all line and horizontal-blank events
      first, then the viewer notification when a viewer is set, then the
      waiter's wake-up when one is suspended, then the vertical blank when
      it fires. */
  lemma FrameEventOrder(d: Display, hook: Hook, stopped: bool)
    requires FrameFits(d)
    ensures var t := Frame(d, hook, stopped).trace;
            && |FrameTail(d)| <= |t|
            && t[|t| - |FrameTail(d)|..] == FrameTail(d)
            && forall i :: 0 <= i < |t| - |FrameTail(d)| ==> InScanPhase(t[i])
  {
    FrameTrace(d, hook, stopped);
    var scan := ScanEvents(d.hbl, 0, Rows(d));
    var t := Frame(d, hook, stopped).trace;
    assert t[|scan|..] == FrameTail(d);
    forall i | 0 <= i < |scan|
      ensures InScanPhase(t[i])
    {
      assert t[i] == scan[i];
    }
  }

  /** After a frame every line holds what the hook draws on a black line;
      pixels past the last line are untouched. */
  lemma FrameImage(d: Display, hook: Hook, stopped: bool)
    requires FrameFits(d)
    ensures var r := Frame(d, hook, stopped).display.buffer;
            && (forall l :: 0 <= l < Rows(d) ==>
                  l * Cols(d) + Cols(d) <= |r| && LineOf(r, Cols(d), l) == hook(Black(Cols(d)), l))
            && (forall i :: Rows(d) * Cols(d) <= i < |d.buffer| ==> r[i] == d.buffer[i])
  {
    FrameState(d, hook, stopped);
    DrawLinesImage(d.buffer, Cols(d), Rows(d), hook, 0);
    DrawLinesKeeps(d.buffer, Cols(d), Rows(d), hook, 0);
  }

  /** Pixel `i` of the drawn lines is pixel `i % w` of what the hook draws
      on a black line for line `i / w`. */
  lemma DrawLinesPixel(buf: seq<int>, w: nat, rows: nat, hook: Hook, i: int)
    requires rows * w <= |buf|
    requires 0 <= i < rows * w
    ensures w > 0 && i % w < |hook(Black(w), i / w)|
    ensures DrawLines(buf, w, rows, hook, 0)[i] == hook(Black(w), i / w)[i % w]
  {
    RowOfIndex(i, rows, w);
    var l, c := i / w, i % w;
    RowInside(l, rows, w);
    DrawLinesImage(buf, w, rows, hook, 0);
    var r := DrawLines(buf, w, rows, hook, 0);
    assert LineOf(r, w, l) == hook(Black(w), l);
    assert LineOf(r, w, l)[c] == r[l * w + c];
  }

  /** Pixel `i` of a frame depends only on the hook: what the buffer held
      before the frame never shows through. */
  lemma FramePixel(d: Display, hook: Hook, stopped: bool, i: int)
    requires FrameFits(d)
    requires 0 <= i < Rows(d) * Cols(d)
    ensures Cols(d) > 0 && i % Cols(d) < |hook(Black(Cols(d)), i / Cols(d))|
    ensures Frame(d, hook, stopped).display.buffer[i] == hook(Black(Cols(d)), i / Cols(d))[i % Cols(d)]
  {
    FrameState(d, hook, stopped);
    DrawLinesPixel(d.buffer, Cols(d), Rows(d), hook, i);
  }

  /** With a hook that draws nothing, every line of the frame is opaque black. */
  lemma FrameWithoutDrawingIsBlack(d: Display, stopped: bool, i: int)
    requires FrameFits(d)
    requires 0 <= i < Rows(d) * Cols(d)
    ensures Frame(d, (row: seq<int>, y: int) => row, stopped).display.buffer[i] == OpaqueBlack
  {
    FramePixel(d, (row: seq<int>, y: int) => row, stopped, i);
  }

  /** A `stop` during a frame does not cut the frame short: the frame emits
      the same events, the viewer notification and the vertical blank
      included, and leaves the same pixels and `vCount`; only the running
      flag is cleared. */
  lemma StopDoesNotTruncateFrame(d: Display, hook: Hook)
    requires FrameFits(d)
    ensures var stopped := Frame(d, hook, true);
            var full := Frame(d, hook, false);
            && stopped.trace == full.trace
            && stopped.display == full.display.(running := false)
  {
  }

  /** Setting the HBL listener to `null` silences the horizontal blank even
      when HBL stays enabled; disabling HBL silences it even with a listener. */
  lemma SilencedHblIsNeverCalled(d: Display, hook: Hook, stopped: bool)
    requires FrameFits(d)
    ensures Count(Frame(SetHblListener(d, None), hook, stopped).trace, IsHbl) == 0
    ensures Count(Frame(SetHblEnable(d, false), hook, stopped).trace, IsHbl) == 0
  {
    FrameInterruptCounts(SetHblListener(d, None), hook, stopped);
    FrameInterruptCounts(SetHblEnable(d, false), hook, stopped);
  }

  /** A caller that `waitVBL` suspends while the display runs is woken by
      the next frame, exactly once and whether or not VBL is enabled, and
      the wait token is given up. */
  lemma WaiterReleasedByNextFrame(d: Display, hook: Hook, stopped: bool)
    requires d.running && FrameFits(d)
    ensures WaitVbl(d).suspended
    ensures var f := Frame(WaitVbl(d).display, hook, stopped);
            Count(f.trace, IsWake) == 1 && !f.display.waiter
  {
    FrameInterruptCounts(WaitVbl(d).display, hook, stopped);
  }

  // ---------------------------------------------------------------- a run of frames

  /** The render loop leaves after a frame during which `stop` was called:
      that frame is the last one rendered, and it is rendered in full. */
  lemma RunEndsAfterStoppedFrame(d: Display, hook: Hook, later: seq<bool>)
    requires d.running && FrameFits(d)
    ensures Run(d, hook, [true] + later) == Frame(d, hook, true)
  {
    var plan := [true] + later;
    assert plan[0] && plan[1..] == later;
    var f := Frame(d, hook, true);
    assert Run(f.display, hook, later) == Outcome(f.display, []);
    assert f.trace + [] == f.trace;
  }

  /** A stopped display renders nothing: `waitVBL` returns at once and the
      render loop does not enter a frame. */
  lemma StoppedDisplayIsIdle(d: Display, hook: Hook, plan: seq<bool>)
    requires !d.running && FrameFits(d)
    ensures WaitVbl(d) == WaitResult(d, false)
    ensures Run(d, hook, plan) == Outcome(d, [])
  {
  }

  /** A 4 x 3 display with HBL enabled and a listener set, VBL disabled and
      a viewer set, running for two frames with `stop` called during the
      second: the HBL listener is called 6 times, the VBL listener never,
      the viewer twice, and `vCount` ends at 2. */
  lemma TwoFramesThenStop(hook: Hook, hblListener: ListenerId, vblListener: ListenerId, viewer: ViewerId)
    ensures var d := Display(4, 3, 0, seq(12, _ => 0), Channel(true, Some(hblListener)),
                             Channel(false, Some(vblListener)), true, Some(viewer), false);
            var r := Run(d, hook, [false, true]);
            && Count(r.trace, IsHbl) == 6
            && Count(r.trace, IsVbl) == 0
            && Count(r.trace, IsScreenUpdate) == 2
            && r.display.vCount == 2
            && !r.display.running
  {
    var d := Display(4, 3, 0, seq(12, _ => 0), Channel(true, Some(hblListener)),
                     Channel(false, Some(vblListener)), true, Some(viewer), false);
    var plan := [false, true];
    var f1 := Frame(d, hook, false);
    FrameInterruptCounts(d, hook, false);
    FrameVisitsLinesInOrder(d, hook, false);
    var d1 := f1.display;
    var f2 := Frame(d1, hook, true);
    FrameInterruptCounts(d1, hook, true);
    FrameVisitsLinesInOrder(d1, hook, true);
    assert plan[1..] == [true] + [];
    RunEndsAfterStoppedFrame(d1, hook, []);
    var r := Run(d, hook, plan);
    assert r.trace == f1.trace + f2.trace;
    CountAppend(f1.trace, f2.trace, IsHbl);
    CountAppend(f1.trace, f2.trace, IsVbl);
    CountAppend(f1.trace, f2.trace, IsScreenUpdate);
  }
}
