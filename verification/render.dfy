/**
 * The render loop of the virtual display controller, one frame at a time.
 *
 * For each line `y` the loop clears the line to opaque black, sets
 * `vCount` to `y`, runs the drawing hook and raises the horizontal blank;
 * after the last line it tells the screen viewer the frame is complete and
 * raises the vertical blank, which first wakes a suspended `waitVBL` caller
 * and then calls the vertical-blank listener. The running flag is read
 * only between frames, so a `stop` during a frame lets the frame finish.
 */
module Render {
  import opened Wrappers
  import opened Events
  import opened Display
  import opened Arith

  /** The drawing hook: given the contents of line `y` as the hook finds
      them, the new contents of that line. The hook can change only its own
      line and never its length. */
  type Hook = h: (seq<int>, int) -> seq<int> | forall row: seq<int>, y: int :: |h(row, y)| == |row|
    witness (row: seq<int>, y: int) => row

  /** Pixels per line and number of lines the loops run over; the Java
      `for` loops run no iteration for a width or height below 1. */
  function Cols(d: Display): nat {
    if d.width > 0 then d.width as int else 0
  }

  function Rows(d: Display): nat {
    if d.height > 0 then d.height as int else 0
  }

  /** Every line the loop touches lies inside the buffer. */
  predicate FrameFits(d: Display) {
    Rows(d) * Cols(d) <= |d.buffer|
  }

  function Black(n: nat): (r: seq<int>)
    ensures |r| == n && forall i :: 0 <= i < n ==> r[i] == OpaqueBlack
  {
    seq(n, _ => OpaqueBlack)
  }

  /** The `w` pixels of line `y`. */
  function LineOf(buf: seq<int>, w: nat, y: nat): (r: seq<int>)
    requires y * w + w <= |buf|
    ensures |r| == w
  {
    buf[y * w .. y * w + w]
  }

  /** `buf` with line `y` replaced by `row`. */
  function WithLine(buf: seq<int>, w: nat, y: nat, row: seq<int>): (r: seq<int>)
    requires |row| == w && y * w + w <= |buf|
    ensures |r| == |buf|
    ensures LineOf(r, w, y) == row
    ensures forall i :: 0 <= i < |buf| && !(y * w <= i < y * w + w) ==> r[i] == buf[i]
  {
    buf[..y * w] + row + buf[y * w + w..]
  }

  /** One line of the pixel loop: clear line `y` to opaque black, then let
      the hook draw on it. Only line `y` changes. */
  function DrawLine(buf: seq<int>, w: nat, y: nat, hook: Hook): (r: seq<int>)
    requires y * w + w <= |buf|
    ensures |r| == |buf|
    ensures LineOf(r, w, y) == hook(Black(w), y)
    ensures forall i :: 0 <= i < |buf| && !(y * w <= i < y * w + w) ==> r[i] == buf[i]
  {
    var cleared := WithLine(buf, w, y, Black(w));
    WithLine(cleared, w, y, hook(LineOf(cleared, w, y), y))
  }

  /** Lines `y` .. `rows - 1` of the pixel loop. */
  function DrawLines(buf: seq<int>, w: nat, rows: nat, hook: Hook, y: nat): (r: seq<int>)
    requires y <= rows && rows * w <= |buf|
    ensures |r| == |buf|
    decreases rows - y
  {
    if y == rows then buf
    else
      RowInside(y, rows, w);
      DrawLines(DrawLine(buf, w, y, hook), w, rows, hook, y + 1)
  }

  /** The horizontal-blank interrupt raised after line `line` is drawn: the
      listener is called only when HBL is enabled and a listener is set. */
  function CallHbl(hbl: Channel, line: int): (t: seq<Event>)
    ensures |t| <= 1
    ensures t != [] <==> hbl.Fires()
    ensures t != [] ==> hbl.listener.Some? && t == [HblInterrupt(hbl.listener.value, line)]
  {
    if hbl.Fires() then [HblInterrupt(hbl.listener.value, line)] else []
  }

  /** The events of lines `y` .. `rows - 1`: each line is drawn and then
      raises the horizontal blank. */
  function ScanEvents(hbl: Channel, y: nat, rows: nat): (t: seq<Event>)
    ensures forall i :: 0 <= i < |t| ==> InScanPhase(t[i])
    decreases rows - y
  {
    if rows <= y then []
    else [Scanline(y)] + CallHbl(hbl, y) + ScanEvents(hbl, y + 1, rows)
  }

  /** The vertical-blank interrupt: a suspended waiter is woken whatever the
      enable flag says, then the listener is called when VBL is enabled and
      a listener is set. The woken waiter gives up the wait token. */
  function CallVbl(d: Display): (r: Outcome)
    ensures r.display == d.(waiter := false)
    ensures Count(r.trace, IsWake) == (if d.waiter then 1 else 0)
    ensures Count(r.trace, IsVbl) == (if d.vbl.Fires() then 1 else 0)
    ensures d.waiter && d.vbl.Fires() ==> r.trace[0].WaiterWoken? && r.trace[1].VblInterrupt?
    ensures forall i :: 0 <= i < |r.trace| ==>
              r.trace[i] == WaiterWoken || (d.vbl.listener.Some? && r.trace[i] == VblInterrupt(d.vbl.listener.value))
  {
    var wake := if d.waiter then [WaiterWoken] else [];
    var call := if d.vbl.Fires() then [VblInterrupt(d.vbl.listener.value)] else [];
    CountAppend(wake, call, IsWake);
    CountAppend(wake, call, IsVbl);
    Outcome(d.(waiter := false), wake + call)
  }

  /** The screen viewer, when set, is told the frame is complete. */
  function NotifyViewer(d: Display): (t: seq<Event>)
    ensures Count(t, IsScreenUpdate) == (if d.viewer.Some? then 1 else 0)
    ensures forall i :: 0 <= i < |t| ==> d.viewer.Some? && t[i] == ScreenUpdated(d.viewer.value)
  {
    if d.viewer.Some? then [ScreenUpdated(d.viewer.value)] else []
  }

  /** One frame of the render loop: the line loop, the viewer notification
      and the vertical blank. `stopped` says whether another thread calls
      `stop` while the frame is being rendered; nothing in the frame reads
      the running flag, so the frame runs to the end either way. The pixels
      and the events of the line loop are computed separately: the hook sees
      neither listeners nor events, and the listeners see only `vCount`. */
  function Frame(d: Display, hook: Hook, stopped: bool): (r: Outcome)
    requires FrameFits(d)
    ensures r.display.width == d.width && r.display.height == d.height
    ensures |r.display.buffer| == |d.buffer|
    ensures r.display.hbl == d.hbl && r.display.vbl == d.vbl && r.display.viewer == d.viewer
    ensures !r.display.waiter
    ensures r.display.running == (d.running && !stopped)
  {
    var rows := Rows(d);
    var drawn := d.(buffer := DrawLines(d.buffer, Cols(d), rows, hook, 0),
                    vCount := if rows > 0 then rows - 1 else d.vCount,
                    running := d.running && !stopped);
    var vbl := CallVbl(drawn);
    Outcome(vbl.display, ScanEvents(d.hbl, 0, rows) + (NotifyViewer(drawn) + vbl.trace))
  }

  /** The render thread from its first frame on: while the display is
      running it renders a frame, `plan[i]` saying whether `stop` is called
      during frame `i`. The plan bounds the number of frames considered. */
  function Run(d: Display, hook: Hook, plan: seq<bool>): (r: Outcome)
    requires FrameFits(d)
    ensures r.display.width == d.width && r.display.height == d.height
    ensures |r.display.buffer| == |d.buffer|
    ensures !d.running ==> r == Outcome(d, [])
    decreases |plan|
  {
    if !d.running || plan == [] then Outcome(d, [])
    else
      var f := Frame(d, hook, plan[0]);
      var rest := Run(f.display, hook, plan[1..]);
      Outcome(rest.display, f.trace + rest.trace)
  }

  /** Everything that can happen to a display, one at a time: the setters,
      the lifecycle calls, `waitVBL`, and a frame of the render loop. */
  datatype Op =
    | HblEnable(status: bool)
    | HblListener(listener: Option<ListenerId>)
    | VblEnable(status: bool)
    | VblListener(listener: Option<ListenerId>)
    | ScreenViewer(viewer: Option<ViewerId>)
    | StartCall(initialized: bool)
    | StopCall
    | WaitCall
    | RenderFrame(stopped: bool)

  /** The effect of one operation; a frame is rendered only while running. */
  function Apply(d: Display, hook: Hook, op: Op): (r: Display)
    requires FrameFits(d)
    ensures r.width == d.width && r.height == d.height
    ensures |r.buffer| == |d.buffer|
  {
    match op
    case HblEnable(s) => SetHblEnable(d, s)
    case HblListener(l) => SetHblListener(d, l)
    case VblEnable(s) => SetVblEnable(d, s)
    case VblListener(l) => SetVblListener(d, l)
    case ScreenViewer(v) => SetScreenViewer(d, v).display
    case StartCall(i) => Start(d, i).display
    case StopCall => Stop(d)
    case WaitCall => WaitVbl(d).display
    case RenderFrame(s) => if d.running then Frame(d, hook, s).display else d
  }

  /** No sequence of operations reallocates the frame buffer or changes the
      screen size. */
  function ApplyAll(d: Display, hook: Hook, ops: seq<Op>): (r: Display)
    requires FrameFits(d)
    ensures r.width == d.width && r.height == d.height
    ensures |r.buffer| == |d.buffer|
    decreases |ops|
  {
    if ops == [] then d else ApplyAll(Apply(d, hook, ops[0]), hook, ops[1..])
  }
}
