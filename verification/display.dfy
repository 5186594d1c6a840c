/**
 * The registers of the virtual display controller and the operations that
 * external callers use on them: construction, the interrupt enable flags
 * and listeners, the screen viewer, the start/stop lifecycle and the
 * vertical-blank wait.
 *
 * Listeners and the viewer are represented by identifiers; `None` is Java's
 * `null`. Threads are not modelled: starting reports how many render
 * threads it spawns, and `waitVBL` reports whether its caller is suspended.
 */
module Display {
  import opened Wrappers
  import opened JavaInt
  import opened Events

  /** The Java literal 0xff000000 (opaque black) stored in an `int` array:
      as a signed 32-bit value it is -16777216. */
  const OpaqueBlack: int := -0x0100_0000

  /** One interrupt channel: its enable flag and its listener. */
  datatype Channel = Channel(enabled: bool, listener: Option<ListenerId>) {
    /** An interrupt on this channel reaches a listener: the channel is
        enabled and a listener is set. */
    predicate Fires() {
      enabled && listener.Some?
    }
  }

  /** The display registers. `waiter` says whether a `waitVBL` caller holds
      the wait token and is suspended until the next vertical blank. */
  datatype Display = Display(
    width: Int32,
    height: Int32,
    vCount: int,
    buffer: seq<int>,
    hbl: Channel,
    vbl: Channel,
    running: bool,
    viewer: Option<ViewerId>,
    waiter: bool)

  /** A display state together with the events that led to it. */
  datatype Outcome = Outcome(display: Display, trace: seq<Event>)

  /** `new int[n]` with a negative `n` throws NegativeArraySizeException. */
  datatype NewError = NegativeArraySize(size: int)

  /** The constructor: a zero-filled buffer of `width * height` pixels
      (computed in 32-bit arithmetic), line 0, no interrupts enabled, no
      listeners, no viewer, not running. */
  function New(width: Int32, height: Int32): (r: Result<Display, NewError>)
    ensures r.Success? <==> Wrap(width * height) >= 0
    ensures r.Failure? ==> r.error == NegativeArraySize(Wrap(width * height))
    ensures r.Success? ==>
              && r.value.width == width && r.value.height == height
              && |r.value.buffer| == Wrap(width * height)
              && (forall i :: 0 <= i < |r.value.buffer| ==> r.value.buffer[i] == 0)
              && r.value.vCount == 0
              && !r.value.hbl.enabled && !r.value.vbl.enabled
              && r.value.hbl.listener.None? && r.value.vbl.listener.None?
              && r.value.viewer.None? && !r.value.running && !r.value.waiter
  {
    var size := Wrap(width * height);
    if size < 0 then Failure(NegativeArraySize(size))
    else
      var silent := Channel(false, None);
      Success(Display(width, height, 0, seq(size, _ => 0), silent, silent, false, None, false))
  }

  /** When `width * height` fits an `int`, construction succeeds for
      non-negative products and the buffer holds exactly `width * height` pixels. */
  lemma NewBufferSize(width: Int32, height: Int32)
    requires 0 <= width * height <= MaxInt
    ensures New(width, height).Success?
    ensures |New(width, height).value.buffer| == width * height
  {
  }

  function SetHblEnable(d: Display, status: bool): (r: Display)
    ensures r.hbl.enabled == status && r.hbl.listener == d.hbl.listener
    ensures r.(hbl := d.hbl) == d
  {
    d.(hbl := d.hbl.(enabled := status))
  }

  function SetHblListener(d: Display, listener: Option<ListenerId>): (r: Display)
    ensures r.hbl.listener == listener && r.hbl.enabled == d.hbl.enabled
    ensures r.(hbl := d.hbl) == d
  {
    d.(hbl := d.hbl.(listener := listener))
  }

  function SetVblEnable(d: Display, status: bool): (r: Display)
    ensures r.vbl.enabled == status && r.vbl.listener == d.vbl.listener
    ensures r.(vbl := d.vbl) == d
  {
    d.(vbl := d.vbl.(enabled := status))
  }

  function SetVblListener(d: Display, listener: Option<ListenerId>): (r: Display)
    ensures r.vbl.listener == listener && r.vbl.enabled == d.vbl.enabled
    ensures r.(vbl := d.vbl) == d
  {
    d.(vbl := d.vbl.(listener := listener))
  }

  /** Sets the screen viewer; a viewer that is not `null` is handed the
      frame buffer straight away. */
  function SetScreenViewer(d: Display, viewer: Option<ViewerId>): (r: Outcome)
    ensures r.display.viewer == viewer && r.display.(viewer := d.viewer) == d
    ensures viewer.None? ==> r.trace == []
    ensures viewer.Some? ==> r.trace == [BufferRegistered(viewer.value)]
  {
    var d' := d.(viewer := viewer);
    Outcome(d', if viewer.Some? then [BufferRegistered(viewer.value)] else [])
  }

  /** The result of `start`: the new state, the value returned, and the
      number of render threads spawned. */
  datatype StartResult = StartResult(display: Display, started: bool, spawned: nat)

  /** `start`: fails without effect when the display is not initialised
      (`isInitialized` is a parameter); succeeds without spawning when
      already running; otherwise marks the display running and spawns one
      render thread. */
  function Start(d: Display, initialized: bool): (r: StartResult)
    ensures r.started == initialized
    ensures !initialized ==> r.display == d && r.spawned == 0
    ensures initialized ==> r.display.running && r.display.(running := d.running) == d
    ensures r.spawned == (if initialized && !d.running then 1 else 0)
  {
    if !initialized then StartResult(d, false, 0)
    else if !d.running then StartResult(d.(running := true), true, 1)
    else StartResult(d, true, 0)
  }

  /** `stop`: clears the running flag and nothing else; a frame in progress
      is not interrupted (the render loop tests the flag between frames only). */
  function Stop(d: Display): (r: Display)
    ensures !r.running && r.(running := d.running) == d
  {
    d.(running := false)
  }

  /** The result of `waitVBL`: the new state and whether the caller is
      suspended until the next vertical blank. */
  datatype WaitResult = WaitResult(display: Display, suspended: bool)

  /** `waitVBL`: returns at once, with no effect, when the display is not
      running; otherwise takes the wait token and suspends the caller. */
  function WaitVbl(d: Display): (r: WaitResult)
    ensures r.suspended == d.running
    ensures !d.running ==> r.display == d
    ensures d.running ==> r.display.waiter && r.display.(waiter := d.waiter) == d
  {
    if !d.running then WaitResult(d, false)
    else WaitResult(d.(waiter := true), true)
  }

  /** Starting twice spawns one thread: the second start finds the display
      running and spawns nothing. */
  lemma StartIsIdempotent(d: Display)
    ensures var once := Start(d, true);
            Start(once.display, true) == StartResult(once.display, true, 0)
  {
  }

  /** Stopping a display that was just started from the stopped state gives
      back the state it was started from. */
  lemma StopUndoesStart(d: Display)
    requires !d.running
    ensures Stop(Start(d, true).display) == d
  {
  }
}
