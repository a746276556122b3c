/**
 The tracking session (`HeatmapTracker`): the two flags `enabled` and
 `visible`, the redraw throttle (`_rafScheduled`, `_lastRedraw`), the
 accumulated density field and the colorized view, as an immutable record
 with one transition function per public call and per host event.

 The host's clock and its animation frames are inputs: every transition
 that reads `performance.now()` takes the time `now`, and the frame that
 `requestAnimationFrame` schedules arrives as its own event. The deposit of
 one pointer movement and the re-fit of the canvases on a resize are host
 canvas operations; they arrive as the field they leave behind.

 The handlers reach the session only once `init` has bound them to it: a
 `start` before `init` registers the unbound methods, whose `this` is the
 event target, so their `_enabled` guard always returns. The record keeps
 whether the handlers are bound and whether the bound ones are registered.
 */
module Tracker {
  import opened Js
  import Gradient
  import Colorize
  import ColorParse

  type Image = Colorize.Image

  datatype Tracker = Tracker(
    enabled: bool,
    visible: bool,
    /** The accumulated field (the offscreen canvas' pixels). */
    field: Image,
    /** The pixels last put on the visible canvas; `None` when there is
        no visible canvas. */
    view: Option<Image>,
    /** A deferred redraw is waiting for the next animation frame. */
    pending: bool,
    lastRedraw: real,
    /** How many colorize passes have run. */
    redraws: nat,
    lut: seq<Byte>,
    intervalMs: real,
    /** `init` has bound the two handlers to the session. */
    bound: bool,
    /** The bound handlers are registered with the host. */
    listening: bool)

  /** The throttle interval used unless the options give another. */
  const DefaultIntervalMs: real := 80.0

  /** Every byte is 0. */
  predicate Zero(img: Image) {
    forall k :: 0 <= k < |img| ==> img[k] == 0
  }

  /** The visible canvas exists exactly while the overlay is shown; after
      `init` the table has its 256 entries; only bound handlers of an
      enabled session are registered; and before `init` nothing has been
      deposited. */
  predicate Consistent(t: Tracker) {
    && (t.view.Some? <==> t.visible)
    && (t.bound ==> |t.lut| == Gradient.TableSize)
    && (t.listening ==> t.bound && t.enabled)
    && (!t.bound ==> Zero(t.field))
  }

  /** An all-zero (fully transparent) image of the same size. */
  function Blank(img: Image): (r: Image)
    ensures |r| == |img|
    ensures forall k :: 0 <= k < |r| ==> r[k] == 0
  {
    seq(|img|, _ => 0)
  }

  // ---------------------------------------------------------------------
  // Colorize pass and throttle

  /** `_colorizeAll`: with the overlay hidden or no visible canvas nothing
      happens; otherwise the time is recorded and the view replaced by the
      colorized field. */
  function ColorizeAll(t: Tracker, now: real): (r: Tracker)
    ensures r.enabled == t.enabled && r.visible == t.visible && r.field == t.field
    ensures r.pending == t.pending && r.lut == t.lut && r.intervalMs == t.intervalMs
    ensures !t.visible || t.view.None? ==> r == t
    ensures t.visible && t.view.Some? ==>
              r.view == Some(Colorize.Colorize(t.field, t.lut)) && r.lastRedraw == now && r.redraws == t.redraws + 1
    ensures r.bound == t.bound && r.listening == t.listening
  {
    if !t.visible || t.view.None? then t
    else t.(lastRedraw := now, view := Some(Colorize.Colorize(t.field, t.lut)), redraws := t.redraws + 1)
  }

  /** `_scheduleColorize`: a request while a frame is pending is absorbed;
      one inside the interval defers the redraw to the next frame; any
      other redraws at once. */
  function Schedule(t: Tracker, now: real): (r: Tracker)
    ensures r.enabled == t.enabled && r.visible == t.visible && r.field == t.field && r.lut == t.lut
    ensures t.pending ==> r == t
    ensures !t.pending && now - t.lastRedraw < t.intervalMs ==> r == t.(pending := true)
    ensures !t.pending && now - t.lastRedraw >= t.intervalMs ==> r == ColorizeAll(t, now) && !r.pending
  {
    if t.pending then t
    else if now - t.lastRedraw < t.intervalMs then t.(pending := true)
    else ColorizeAll(t, now)
  }

  /** The animation frame requested by `Schedule` fires: the flag is
      cleared first, then the field is colorized, however little time has
      passed since the last redraw. */
  function FrameFired(t: Tracker, now: real): (r: Tracker)
    requires t.pending
    ensures !r.pending && r.visible == t.visible && r.field == t.field
    ensures !t.visible || t.view.None? ==> r == t.(pending := false)
    ensures t.visible && t.view.Some? ==>
              r.view == Some(Colorize.Colorize(t.field, t.lut)) && r.lastRedraw == now && r.redraws == t.redraws + 1
    ensures r.(view := t.view, lastRedraw := t.lastRedraw, redraws := t.redraws) == t.(pending := false)
  {
    ColorizeAll(t.(pending := false), now)
  }

  // ---------------------------------------------------------------------
  // Session calls

  /** `start`: enables tracking and registers the handlers unless it is
      already enabled; they reach the session only if `init` bound them. */
  function Start(t: Tracker): (r: Tracker)
    ensures r.enabled && r.visible == t.visible && r.field == t.field && r.view == t.view
    ensures t.enabled ==> r == t
    ensures !t.enabled ==> r == t.(enabled := true, listening := t.bound)
  {
    if t.enabled then t else t.(enabled := true, listening := t.bound)
  }

  /** `hide`: removes the visible canvas unless the overlay is already
      hidden. */
  function Hide(t: Tracker): (r: Tracker)
    ensures !r.visible && r.enabled == t.enabled
    ensures !t.visible ==> r == t
    ensures t.visible ==> r == t.(visible := false, view := None)
  {
    if !t.visible then t else t.(visible := false, view := None)
  }

  /** `stop`: disables tracking and hides the overlay, unless tracking is
      already off. */
  function Stop(t: Tracker): (r: Tracker)
    ensures !t.enabled ==> r == t
    ensures t.enabled ==> !r.enabled && !r.visible && !r.listening
    ensures r.field == t.field && r.pending == t.pending && r.lastRedraw == t.lastRedraw
    ensures t.enabled ==> r == t.(enabled := false, listening := false, visible := false,
                                  view := if t.visible then None else t.view)
  {
    if !t.enabled then t else Hide(t.(enabled := false, listening := false))
  }

  /** `show`: unless already shown, creates the visible canvas and
      colorizes the whole field into it. It does not look at `enabled`. */
  function Show(t: Tracker, now: real): (r: Tracker)
    ensures r.visible && r.enabled == t.enabled
    ensures t.visible ==> r == t
    ensures !t.visible ==> r.view == Some(Colorize.Colorize(t.field, t.lut)) && r.lastRedraw == now
    ensures !t.visible ==> r.redraws == t.redraws + 1 && r.pending == t.pending && r.field == t.field
  {
    if t.visible then t
    else
      var shown := t.(visible := true, view := if t.view.Some? then t.view else Some(Blank(t.field)));
      ColorizeAll(shown, now)
  }

  /** `toggle`. */
  function Toggle(t: Tracker, now: real): (r: Tracker)
    ensures r.visible == !t.visible && r.enabled == t.enabled
  {
    if t.visible then Hide(t) else Show(t, now)
  }

  /** `clear`: empties the field and, while shown, the visible canvas. */
  function Clear(t: Tracker): (r: Tracker)
    ensures |r.field| == |t.field| && forall k :: 0 <= k < |r.field| ==> r.field[k] == 0
    ensures r.visible == t.visible && r.enabled == t.enabled && r.pending == t.pending
    ensures t.visible && t.view.Some? ==> r.view == Some(Blank(t.view.value))
    ensures !t.visible || t.view.None? ==> r.view == t.view
    ensures r.(field := t.field, view := t.view) == t
  {
    var cleared := t.(field := Blank(t.field));
    if t.visible && t.view.Some? then cleared.(view := Some(Blank(t.view.value))) else cleared
  }

  // ---------------------------------------------------------------------
  // Host events

  /** `_onMouseMove`: without the bound handler registered, or while
      disabled, nothing happens; otherwise the deposit leaves the field
      `deposited`, and a shown overlay asks for a redraw. */
  function MouseMove(t: Tracker, now: real, deposited: Image): (r: Tracker)
    ensures !t.listening || !t.enabled ==> r == t
    ensures t.listening && t.enabled && !t.visible ==> r == t.(field := deposited)
    ensures t.listening && t.enabled && t.visible ==> r == Schedule(t.(field := deposited), now)
  {
    if !t.listening || !t.enabled then t
    else
      var d := t.(field := deposited);
      if d.visible then Schedule(d, now) else d
  }

  /** `_onResizeMaybe`: without the bound handler registered, or while
      disabled, nothing happens; otherwise the canvases are re-fitted (the
      field becomes `resized`) and a shown overlay is colorized at once,
      bypassing the throttle. */
  function Resize(t: Tracker, now: real, resized: Image): (r: Tracker)
    ensures !t.listening || !t.enabled ==> r == t
    ensures t.listening && t.enabled ==> r == ColorizeAll(t.(field := resized), now)
  {
    if !t.listening || !t.enabled then t
    else ColorizeAll(t.(field := resized), now)
  }

  /** The session before `init`: nothing enabled, shown or bound, no
      table, and an empty field of `pixels` pixels. */
  function Initial(pixels: nat): (r: Tracker)
    ensures !r.enabled && !r.visible && !r.pending && r.view.None? && !r.bound && !r.listening
    ensures |r.field| == 4 * pixels && Zero(r.field)
  {
    Tracker(false, false, seq(4 * pixels, _ => 0), None, false, 0.0, 0, [], DefaultIntervalMs, false, false)
  }

  /** `init`: binds the handlers, builds the table from the gradient option
      with the given fraction rule, then calls `start`. A gradient the
      builder rejects (no stops, or an `rgb` colour without digits) makes
      `init` throw. A session already enabled keeps the handlers it
      registered. */
  function Init(t: Tracker, gradient: seq<Gradient.Stop>, intervalMs: real, rule: Gradient.FractionRule): (r: Option<Tracker>)
    ensures r.Some? <==> Gradient.BuildGradientLut(gradient, rule).Some?
    ensures r.Some? ==> r.value.enabled && r.value.bound && r.value.intervalMs == intervalMs
    ensures r.Some? ==> r.value.lut == Gradient.BuildGradientLut(gradient, rule).value
    ensures r.Some? ==> r.value.listening == (t.listening || !t.enabled)
    ensures r.Some? ==> r.value.field == t.field && r.value.visible == t.visible
    ensures r.Some? ==> r.value.(lut := t.lut, intervalMs := t.intervalMs, bound := t.bound,
                                 enabled := t.enabled, listening := t.listening) == t
  {
    match Gradient.BuildGradientLut(gradient, rule)
    case None => None
    case Some(lut) => Some(Start(t.(lut := lut, intervalMs := intervalMs, bound := true)))
  }

  datatype Event =
    | InitCall(gradient: seq<Gradient.Stop>, intervalMs: real)
    | StartCall
    | StopCall
    | ShowCall(now: real)
    | HideCall
    | ToggleCall(now: real)
    | ClearCall
    | MouseMoved(now: real, deposited: Image)
    | Resized(now: real, resized: Image)
    | Frame(now: real)

  /** One event, the table being built with `rule`. A throwing `init` has
      already merged its options; a frame fires only while one is pending. */
  function Step(t: Tracker, e: Event, rule: Gradient.FractionRule): (r: Tracker)
    ensures Consistent(t) ==> Consistent(r)
    ensures e.Frame? && !t.pending ==> r == t
    ensures (e.MouseMoved? || e.Resized?) && !t.listening ==> r == t
    ensures !(e.InitCall? || e.StartCall? || e.StopCall?) ==> r.enabled == t.enabled
  {
    match e
    case InitCall(gradient, intervalMs) =>
      (match Init(t, gradient, intervalMs, rule)
       case None => t.(intervalMs := intervalMs)
       case Some(r) => r)
    case StartCall => Start(t)
    case StopCall => Stop(t)
    case ShowCall(now) => Show(t, now)
    case HideCall => Hide(t)
    case ToggleCall(now) => Toggle(t, now)
    case ClearCall => Clear(t)
    case MouseMoved(now, deposited) => MouseMove(t, now, deposited)
    case Resized(now, resized) => Resize(t, now, resized)
    case Frame(now) => if t.pending then FrameFired(t, now) else t
  }

  /** A sequence of events from `t`; every reachable session is consistent. */
  function Run(t: Tracker, events: seq<Event>, rule: Gradient.FractionRule): (r: Tracker)
    ensures Consistent(t) ==> Consistent(r)
    decreases |events|
  {
    if |events| == 0 then t else Run(Step(t, events[0], rule), events[1..], rule)
  }

  // ---------------------------------------------------------------------
  // Properties

  /** The session before `init` is consistent, so every session `Run`
      reaches from it is. */
  lemma InitialConsistent(pixels: nat)
    ensures Consistent(Initial(pixels))
  {
  }

  /** Two toggles restore the flags and the field. */
  lemma ToggleTwice(t: Tracker, n1: real, n2: real)
    ensures var r := Toggle(Toggle(t, n1), n2);
            r.visible == t.visible && r.enabled == t.enabled && r.field == t.field && r.pending == t.pending
  {
  }

  /** Showing then hiding a hidden, consistent session changes only the
      redraw bookkeeping. */
  lemma ShowThenHide(t: Tracker, now: real)
    requires Consistent(t) && !t.visible
    ensures Hide(Show(t, now)) == t.(lastRedraw := now, redraws := t.redraws + 1)
  {
  }

  /** A shown overlay holds the colorized field right after `show`. */
  lemma ShowDrawsField(t: Tracker, now: real)
    requires !t.visible
    ensures Show(t, now).view == Some(Colorize.Colorize(t.field, t.lut))
  {
  }

  /** `show` before `init` gives a fully transparent overlay: the field is
      still empty, so no pixel reads the missing table. */
  lemma ShowBeforeInitIsTransparent(t: Tracker, now: real)
    requires Consistent(t) && !t.bound && !t.visible
    ensures Show(t, now).view.Some? && Zero(Show(t, now).view.value)
  {
    Colorize.EmptyFieldIsTransparent(t.field, t.lut);
  }

  /** `start` before `init` registers handlers that never reach the
      session, and the `start` inside `init` then returns early: tracking
      is on, yet no movement is ever deposited until `stop` and `start`. */
  lemma StartBeforeInitIgnoresMovements(t: Tracker, gradient: seq<Gradient.Stop>, intervalMs: real,
                                        rule: Gradient.FractionRule, now: real, img: Image)
    requires Consistent(t) && !t.bound && !t.enabled
    requires Gradient.BuildGradientLut(gradient, rule).Some?
    ensures var r := Step(Step(t, StartCall, rule), InitCall(gradient, intervalMs), rule);
            r.enabled && r.bound && !r.listening && Step(r, MouseMoved(now, img), rule) == r
  {
  }

  /** `init` on a disabled session registers the bound handlers, so movements
      are deposited. */
  lemma InitThenMoveDeposits(t: Tracker, gradient: seq<Gradient.Stop>, intervalMs: real,
                             rule: Gradient.FractionRule, now: real, img: Image)
    requires Consistent(t) && !t.enabled
    requires Gradient.BuildGradientLut(gradient, rule).Some?
    ensures var r := Step(t, InitCall(gradient, intervalMs), rule);
            r.listening && Step(r, MouseMoved(now, img), rule).field == img
  {
    var r := Init(t, gradient, intervalMs, rule).value;
    assert Step(t, InitCall(gradient, intervalMs), rule) == r;
    assert r.listening && r.enabled;
    if r.visible {
      assert MouseMove(r, now, img) == Schedule(r.(field := img), now);
    } else {
      assert MouseMove(r, now, img) == r.(field := img);
    }
    StepMoved(r, now, img, rule);
  }

  /** An `init` event with a gradient the builder accepts is `Init`. */
  lemma StepInit(t: Tracker, gradient: seq<Gradient.Stop>, intervalMs: real, rule: Gradient.FractionRule)
    requires Gradient.BuildGradientLut(gradient, rule).Some?
    ensures Step(t, InitCall(gradient, intervalMs), rule) == Init(t, gradient, intervalMs, rule).value
  {
  }

  /** The `stop` and `show` events are the calls of those names. */
  lemma StepCalls(t: Tracker, now: real, rule: Gradient.FractionRule)
    ensures Step(t, StopCall, rule) == Stop(t)
    ensures Step(t, ShowCall(now), rule) == Show(t, now)
  {
  }

  /** A movement event is `_onMouseMove`. */
  lemma StepMoved(t: Tracker, now: real, img: Image, rule: Gradient.FractionRule)
    ensures Step(t, MouseMoved(now, img), rule) == MouseMove(t, now, img)
  {
  }

  /** `init` with the default options, as written: the session's table
      starts at blue but its top entry is yellow, not red. */
  lemma DefaultInitAsWritten(pixels: nat)
    ensures Init(Initial(pixels), Gradient.DefaultGradient, DefaultIntervalMs, Gradient.AsWritten).Some?
    ensures var lut := Init(Initial(pixels), Gradient.DefaultGradient, DefaultIntervalMs, Gradient.AsWritten).value.lut;
            Gradient.LutRgb(lut, 0) == ColorParse.Rgb(0, 0, 255) && Gradient.LutRgb(lut, 255) == ColorParse.Rgb(255, 255, 0)
  {
    Gradient.DefaultGradientEnds();
  }

  /** The overlay can be shown while tracking is off: `init`, `stop`,
      `show` reaches it. */
  lemma DisabledVisibleReachable(pixels: nat, gradient: seq<Gradient.Stop>, intervalMs: real,
                                 rule: Gradient.FractionRule, now: real)
    requires Gradient.BuildGradientLut(gradient, rule).Some?
    ensures var r := Run(Initial(pixels), [InitCall(gradient, intervalMs), StopCall, ShowCall(now)], rule);
            !r.enabled && r.visible && Consistent(r)
  {
    InitialConsistent(pixels);
    var t0 := Initial(pixels);
    var t1 := Step(t0, InitCall(gradient, intervalMs), rule);
    StepInit(t0, gradient, intervalMs, rule);
    var t2 := Step(t1, StopCall, rule);
    StepCalls(t1, now, rule);
    var t3 := Step(t2, ShowCall(now), rule);
    StepCalls(t2, now, rule);
    RunThree(t0, InitCall(gradient, intervalMs), StopCall, ShowCall(now), rule);
  }

  /** Three events in a row. */
  lemma RunThree(t: Tracker, a: Event, b: Event, c: Event, rule: Gradient.FractionRule)
    ensures Run(t, [a, b, c], rule) == Step(Step(Step(t, a, rule), b, rule), c, rule)
  {
    var t1 := Step(t, a, rule);
    var t2 := Step(t1, b, rule);
    assert [a, b, c][1..] == [b, c];
    assert Run(t, [a, b, c], rule) == Run(t1, [b, c], rule);
    assert [b, c][1..] == [c];
    assert Run(t1, [b, c], rule) == Run(t2, [c], rule);
    assert [c][1..] == [];
    assert Run(t2, [c], rule) == Run(Step(t2, c, rule), [], rule);
  }

  /** While disabled, pointer movements and resizes change nothing. */
  lemma DisabledIgnoresHostEvents(t: Tracker, now: real, img: Image, rule: Gradient.FractionRule)
    requires !t.enabled
    ensures Step(t, MouseMoved(now, img), rule) == t && Step(t, Resized(now, img), rule) == t
  {
  }

  /** No request is lost: after a movement over a shown overlay either a
      frame is pending or the view already holds the new field. */
  lemma NoRequestDropped(t: Tracker, now: real, deposited: Image)
    requires Consistent(t) && t.listening && t.visible
    ensures var r := MouseMove(t, now, deposited);
            r.pending || (r.view == Some(Colorize.Colorize(deposited, t.lut)) && r.lastRedraw == now)
  {
  }

  /** A pending frame, once fired, shows the field as it is then. */
  lemma FrameShowsLatestField(t: Tracker, now: real)
    requires Consistent(t) && t.pending && t.visible
    ensures var r := FrameFired(t, now);
            !r.pending && r.view == Some(Colorize.Colorize(t.field, t.lut)) && r.lastRedraw == now
  {
  }

  /** A request redraws at once only when no frame is pending and the
      interval since the last redraw has elapsed. */
  lemma ImmediateRedrawOnlyAfterInterval(t: Tracker, now: real)
    requires Schedule(t, now).redraws != t.redraws
    ensures !t.pending && now - t.lastRedraw >= t.intervalMs
  {
  }

  /** Movements absorbed by a pending frame do not redraw. */
  lemma PendingAbsorbsMovements(t: Tracker, now: real, deposited: Image)
    requires t.pending
    ensures var r := MouseMove(t, now, deposited);
            r.pending && r.redraws == t.redraws && r.lastRedraw == t.lastRedraw
  {
  }

  /** The frame does not look at the interval: on a shown session with a
      frame pending it redraws at any time, however soon after the last
      redraw. */
  lemma FrameRedrawsAtAnyTime(t: Tracker, now: real, rule: Gradient.FractionRule)
    requires Consistent(t) && t.pending && t.visible
    ensures var r := Step(t, Frame(now), rule);
            r.redraws == t.redraws + 1 && r.lastRedraw == now && !r.pending
  {
  }

  /** So two passes can fall inside one interval: with the default 80 ms,
      an overlay shown at 0 ms, a movement at 10 ms that defers, and the
      frame at 16 ms give two redraws 16 ms apart. */
  lemma DeferredRedrawIgnoresInterval(t: Tracker, moved: Image, rule: Gradient.FractionRule)
    requires Consistent(t) && t.listening && !t.visible && !t.pending && t.intervalMs == DefaultIntervalMs
    ensures var t0 := Show(t, 0.0);
            var t1 := MouseMove(t0, 10.0, moved);
            var t2 := Step(t1, Frame(16.0), rule);
            && t1.pending && t1.redraws == t.redraws + 1
            && t2.redraws == t.redraws + 2 && t2.lastRedraw - t0.lastRedraw < DefaultIntervalMs
  {
  }

  /** After `clear`, the next colorize pass shows a fully transparent
      overlay. */
  lemma ClearThenColorizeIsTransparent(t: Tracker, now: real)
    requires Consistent(t) && t.visible
    ensures var r := ColorizeAll(Clear(t), now);
            r.view.Some? && Zero(r.view.value)
  {
    var c := Clear(t);
    Colorize.EmptyFieldIsTransparent(c.field, c.lut);
  }
}
