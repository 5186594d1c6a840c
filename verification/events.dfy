/**
 * What the virtual display controller does to the world outside it, in the
 * order it does it: the event trace of a frame, and counts over traces.
 */
module Events {

  /** Identifies a registered interrupt listener. */
  type ListenerId = nat
  /** Identifies a registered screen viewer. */
  type ViewerId = nat

  datatype Event =
    /** `vCount` was set to `line` and the drawing hook ran for that line. */
    | Scanline(line: int)
    /** The horizontal-blank listener was called while `vCount` was `line`. */
    | HblInterrupt(listener: ListenerId, line: int)
    /** The screen viewer was told that a frame is complete. */
    | ScreenUpdated(viewer: ViewerId)
    /** A caller suspended in `waitVBL` was woken. */
    | WaiterWoken
    /** The vertical-blank listener was called. */
    | VblInterrupt(listener: ListenerId)
    /** A newly set screen viewer was handed the frame buffer. */
    | BufferRegistered(viewer: ViewerId)

  /** The line numbers of the scanline events of `t`, in order. */
  function Lines(t: seq<Event>): (r: seq<int>)
    ensures |r| <= |t|
  {
    if t == [] then []
    else (if t[0].Scanline? then [t[0].line] else []) + Lines(t[1..])
  }

  /** Number of events of `t` that satisfy `p`. */
  function Count(t: seq<Event>, p: Event -> bool): (n: nat)
    ensures n <= |t|
  {
    if t == [] then 0
    else (if p(t[0]) then 1 else 0) + Count(t[1..], p)
  }

  predicate IsHbl(e: Event) { e.HblInterrupt? }
  predicate IsVbl(e: Event) { e.VblInterrupt? }
  predicate IsScreenUpdate(e: Event) { e.ScreenUpdated? }
  predicate IsWake(e: Event) { e.WaiterWoken? }
  predicate IsScanline(e: Event) { e.Scanline? }

  /** Events that belong to the scanline part of a frame. */
  predicate InScanPhase(e: Event) {
    e.Scanline? || e.HblInterrupt?
  }

  /** The integers `lo`, `lo + 1`, ..., `hi - 1`. */
  function Range(lo: int, hi: int): (r: seq<int>)
    ensures |r| == if lo < hi then hi - lo else 0
    ensures forall i :: 0 <= i < |r| ==> r[i] == lo + i
    decreases hi - lo
  {
    if lo < hi then [lo] + Range(lo + 1, hi) else []
  }

  lemma {:induction false} LinesAppend(a: seq<Event>, b: seq<Event>)
    ensures Lines(a + b) == Lines(a) + Lines(b)
    decreases |a|
  {
    if a == [] {
      assert a + b == b;
    } else {
      var head := if a[0].Scanline? then [a[0].line] else [];
      assert (a + b)[0] == a[0];
      assert (a + b)[1..] == a[1..] + b;
      LinesAppend(a[1..], b);
      calc {
        Lines(a + b);
        head + Lines(a[1..] + b);
        head + (Lines(a[1..]) + Lines(b));
        (head + Lines(a[1..])) + Lines(b);
      }
    }
  }

  lemma {:induction false} CountAppend(a: seq<Event>, b: seq<Event>, p: Event -> bool)
    ensures Count(a + b, p) == Count(a, p) + Count(b, p)
    decreases |a|
  {
    if a == [] {
      assert a + b == b;
    } else {
      assert (a + b)[1..] == a[1..] + b;
      CountAppend(a[1..], b, p);
    }
  }

  /** No event of `t` satisfies `p` exactly when the count is zero. */
  lemma {:induction false} CountZero(t: seq<Event>, p: Event -> bool)
    ensures Count(t, p) == 0 <==> forall i :: 0 <= i < |t| ==> !p(t[i])
    decreases |t|
  {
    if t != [] {
      CountZero(t[1..], p);
      assert forall i :: 1 <= i < |t| ==> t[1..][i - 1] == t[i];
    }
  }
}
