/**
 * stint's main: open the display, create the crosshair cursor, grab the pointer, run the
 * press/drag/release loop printing one colour line per sample, then release what it holds.
 * The X11 and Imlib2 calls are abstracted: whether the display opens and whether the grab
 * succeeds are inputs, the events come from a scripted array, and the screen is a function
 * from root-window points to colours. The calls that acquire and release resources are
 * recorded in a trace.
 */
module Stint {
  import opened Wrappers
  import opened HexColor
  import opened PointerEvents

  /** print_pixel: the line written for the pixel of the root window at (x, y). */
  function PrintPixel(screen: Point -> Color, x: int, y: int): (line: string)
    ensures 8 <= |line| && line[0] == '#' && line[|line| - 1] == '\n'
    ensures forall k :: 1 <= k < |line| - 1 ==> IsLowerHexDigit(line[k])
    ensures ParseLine(line) == Some(screen(Point(x, y))) <==> InByteRange(screen(Point(x, y)))
  {
    var c := screen(Point(x, y));
    PixelLineRoundTrip(c);
    PixelLine(c)
  }

  /** The lines printed for a sequence of samples, one per sample in the same order. */
  function Render(screen: Point -> Color, samples: seq<Point>): (lines: seq<string>)
    ensures |lines| == |samples|
    decreases |samples|
  {
    if samples == [] then []
    else
      var last := samples[|samples| - 1];
      Render(screen, samples[..|samples| - 1]) + [PrintPixel(screen, last.x, last.y)]
  }

  /** The k-th printed line is print_pixel's line for the k-th sample. */
  lemma {:induction false} RenderAt(screen: Point -> Color, samples: seq<Point>, k: nat)
    requires k < |samples|
    ensures Render(screen, samples)[k] == PrintPixel(screen, samples[k].x, samples[k].y)
    decreases |samples|
  {
    if k < |samples| - 1 {
      var init := samples[..|samples| - 1];
      RenderAt(screen, init, k);
      assert init[k] == samples[k];
    }
  }

  lemma RenderAppend(screen: Point -> Color, samples: seq<Point>, p: Point)
    ensures Render(screen, samples + [p]) == Render(screen, samples) + [PrintPixel(screen, p.x, p.y)]
  {
  }

  /**
   * Lines 50-54 of main: read events until a press of button 1. On success the press is
   * the last event consumed and `next` indexes the first event after it; when the script
   * runs out first, XNextEvent would block for ever.
   */
  method WaitForButton1(events: array<Event>) returns (next: nat, armed: bool)
    ensures next <= events.Length
    ensures armed ==> next == FirstArmFrom(events[..], 0) + 1
    ensures !armed ==> next == events.Length && FirstArmFrom(events[..], 0) == events.Length
    ensures armed ==> Capture(events[..]) == Then([], next, Track(Dragging, events[next..]))
    ensures !armed ==> Capture(events[..]) == Exhausted([], Waiting)
  {
    ghost var evs := events[..];
    var n := events.Length;
    next := 0;
    assert evs[0..] == evs;
    ThenEmpty(Capture(evs));
    // A do-while in the source: at least one event is read.
    armed := false;
    while !armed
      invariant 0 <= next <= n
      invariant armed ==> 1 <= next && IsArm(evs[next - 1])
      invariant forall k :: 0 <= k < (if armed then next - 1 else next) ==> !IsArm(evs[k])
      invariant !armed ==> Capture(evs) == Then([], next, Track(Waiting, evs[next..]))
      invariant armed ==> Capture(evs) == Then([], next, Track(Dragging, evs[next..]))
      decreases n - next
    {
      if next == n {
        assert evs[next..] == [];
        return;
      }
      var ev := events[next];
      WaitingStep(evs, next);
      ThenThen([], next, [], 1, Track(if IsArm(ev) then Dragging else Waiting, evs[next + 1..]));
      next := next + 1;
      armed := IsArm(ev);
    }
  }

  /** One iteration of the sampling loop at position i, in terms of the protocol from position start. */
  lemma DraggingAdvance(evs: seq<Event>, start: nat, i: nat, samples: seq<Point>)
    requires start <= i < |evs|
    requires Track(Dragging, evs[start..]) == Then(samples, i - start, Track(Dragging, evs[i..]))
    ensures var taken := samples + if IsSampled(evs[i]) then [At(evs[i])] else [];
      if IsFinish(evs[i]) then Track(Dragging, evs[start..]) == Finished(taken, i + 1 - start)
      else Track(Dragging, evs[start..]) == Then(taken, i + 1 - start, Track(Dragging, evs[i + 1..]))
  {
    DraggingStep(evs, i);
    if !IsFinish(evs[i]) {
      var pre := if evs[i].MotionNotify? then [At(evs[i])] else [];
      ThenThen(samples, i - start, pre, 1, Track(Dragging, evs[i + 1..]));
    }
  }

  /**
   * Lines 56-71 of main, from position `start`: print a colour line at every motion event and
   * at the button-1 release, which ends the loop; other events are skipped. When the script
   * runs out first, XNextEvent would block for ever and the lines printed so far stay printed.
   */
  method SampleUntilRelease(events: array<Event>, start: nat, screen: Point -> Color)
    returns (outcome: Outcome, lines: seq<string>)
    requires start <= events.Length
    ensures outcome == Track(Dragging, events[start..])
    ensures lines == Render(screen, outcome.samples)
  {
    ghost var evs := events[..];
    assert events[start..] == evs[start..];
    var n := events.Length;
    var i := start;
    var samples: seq<Point> := [];
    lines := [];
    ThenEmpty(Track(Dragging, evs[start..]));
    var done := false;
    assert Track(Dragging, evs[start..]) == Then(samples, i - start, Track(Dragging, evs[i..]));
    while !done
      invariant start <= i <= n
      invariant !done ==> Track(Dragging, evs[start..]) == Then(samples, i - start, Track(Dragging, evs[i..]))
      invariant done ==> Track(Dragging, evs[start..]) == Finished(samples, i - start)
      invariant lines == Render(screen, samples)
      decreases n - i
    {
      if i == n {
        assert evs[i..] == [];
        outcome := Exhausted(samples, Dragging);
        return;
      }
      var ev := events[i];
      ghost var before := samples;
      // The switch: a button-1 release sets done and falls through into the motion case.
      var sample := false;
      match ev {
        case ButtonRelease(button, _, _) =>
          if button == 1 {
            done := true;
            sample := true;
          }
        case MotionNotify(_, _) =>
          sample := true;
        case ButtonPress(_, _, _) =>
      }
      assert ev == evs[i] && done == IsFinish(ev) && sample == IsSampled(ev);
      if sample {
        RenderAppend(screen, samples, At(ev));
        samples := samples + [At(ev)];
        lines := lines + [PrintPixel(screen, ev.xRoot, ev.yRoot)];
      }
      DraggingAdvance(evs, start, i, before);
      assert samples == before + if IsSampled(ev) then [At(ev)] else [];
      i := i + 1;
    }
    outcome := Finished(samples, i - start);
  }

  /**
   * Lines 50-71 of main: wait for a button-1 press, then sample until the button-1 release.
   * The outcome is the protocol's on the whole script, and one line is printed per sample.
   */
  method TrackPointer(events: array<Event>, screen: Point -> Color)
    returns (outcome: Outcome, lines: seq<string>)
    ensures outcome == Capture(events[..])
    ensures lines == Render(screen, outcome.samples)
  {
    var next, armed := WaitForButton1(events);
    if !armed {
      outcome, lines := Exhausted([], Waiting), [];
      return;
    }
    var dragged;
    dragged, lines := SampleUntilRelease(events, next, screen);
    outcome := Then([], next, dragged);
    assert outcome.samples == dragged.samples;
  }

  // ---------------------------------------------------------------------------
  // Resources and their teardown.

  /** What main acquires, in order: the display connection, the crosshair cursor, the pointer grab. */
  datatype Resource = Display | Cursor | PointerGrab

  /** A successful acquisition or a release, as a call into X11 performs it. */
  datatype Action = Acquire(r: Resource) | Release(r: Resource)

  /** Exited(rv) is main returning rv; Blocked is XNextEvent waiting for an event that never comes. */
  datatype Status = Exited(code: int) | Blocked

  datatype RunResult = RunResult(status: Status, trace: seq<Action>, lines: seq<string>)

  /**
   * Which resources are held, replaying a trace with a stack discipline: each acquisition must
   * be of a resource not yet held, each release must be of the most recently acquired resource
   * still held. None when the trace breaks that discipline.
   */
  function Held(trace: seq<Action>): Option<seq<Resource>>
    decreases |trace|
  {
    if trace == [] then Some([])
    else
      match Held(trace[..|trace| - 1])
      case None => None
      case Some(stack) =>
        match trace[|trace| - 1]
        case Acquire(r) => if r in stack then None else Some(stack + [r])
        case Release(r) =>
          if stack != [] && stack[|stack| - 1] == r then Some(stack[..|stack| - 1]) else None
  }

  /** The resources main still holds when it reaches the cleanup code. */
  function Acquired(displayOk: bool, grabOk: bool): seq<Resource> {
    if !displayOk then [] else if !grabOk then [Display, Cursor] else [Display, Cursor, PointerGrab]
  }

  function Acquisitions(held: seq<Resource>): seq<Action> {
    seq(|held|, k requires 0 <= k < |held| => Acquire(held[k]))
  }

  /** Releases of `held`, most recently acquired first. */
  function Releases(held: seq<Resource>): seq<Action> {
    seq(|held|, k requires 0 <= k < |held| => Release(held[|held| - 1 - k]))
  }

  /**
   * What one run of main does: it acquires what it can and, unless it blocks for ever waiting
   * for events, releases everything it acquired in the reverse order and returns 0 when the
   * pointer was grabbed and 1 otherwise: exit 0 exactly when the display opened, the grab
   * succeeded and the button-1 release arrived; exit 1 exactly when the display or the grab
   * failed; blocked exactly when the events ran out after the grab. Output only follows a grab.
   */
  function Session(displayOk: bool, grabOk: bool, evs: seq<Event>, screen: Point -> Color): (r: RunResult)
    ensures r.status == Exited(0) <==> displayOk && grabOk && Capture(evs).Finished?
    ensures r.status == Exited(1) <==> !(displayOk && grabOk)
    ensures r.status == Blocked <==> displayOk && grabOk && Capture(evs).Exhausted?
    ensures r.lines != [] ==> displayOk && grabOk
  {
    var held := Acquired(displayOk, grabOk);
    if !(displayOk && grabOk) then
      RunResult(Exited(1), Acquisitions(held) + Releases(held), [])
    else
      var o := Capture(evs);
      var lines := Render(screen, o.samples);
      if o.Exhausted? then RunResult(Blocked, Acquisitions(held), lines)
      else RunResult(Exited(0), Acquisitions(held) + Releases(held), lines)
  }

  /**
   * The traces of acquisitions and releases on each of the three paths, written out from the
   * definitions: a step towards SessionPaths, which states the whole trace of each path.
   */
  lemma AcquiredTraces(displayOk: bool, grabOk: bool)
    ensures var held := Acquired(displayOk, grabOk);
      (!displayOk ==> Acquisitions(held) == [] && Releases(held) == [])
      && (displayOk && !grabOk ==>
            Acquisitions(held) == [Acquire(Display), Acquire(Cursor)]
            && Releases(held) == [Release(Cursor), Release(Display)])
      && (displayOk && grabOk ==>
            Acquisitions(held) == [Acquire(Display), Acquire(Cursor), Acquire(PointerGrab)]
            && Releases(held) == [Release(PointerGrab), Release(Cursor), Release(Display)])
  {
  }

  /**
   * Lines 25-80 of main. The grab-failure path's `goto out_free` is a break out of the labelled
   * block, which skips the ungrab and goes on to free the cursor and close the display.
   */
  method Run(displayOk: bool, grabOk: bool, events: array<Event>, screen: Point -> Color)
    returns (status: Status, trace: seq<Action>, lines: seq<string>)
    ensures RunResult(status, trace, lines) == Session(displayOk, grabOk, events[..], screen)
  {
    ghost var evs := events[..];
    var rv := 0;
    trace, lines := [], [];
    if !displayOk {
      // could not open display
      status := Exited(1);
      assert Session(displayOk, grabOk, evs, screen) == RunResult(status, trace, lines) by {
        SessionPaths(displayOk, grabOk, evs, screen);
      }
      return;
    }
    trace := trace + [Acquire(Display)];
    trace := trace + [Acquire(Cursor)];
    label outFree: {
      if !grabOk {
        // could not grab pointer
        rv := 1;
        break outFree;
      }
      trace := trace + [Acquire(PointerGrab)];
      var outcome;
      outcome, lines := TrackPointer(events, screen);
      if outcome.Exhausted? {
        status := Blocked;
        assert Session(displayOk, grabOk, evs, screen) == RunResult(status, trace, lines) by {
          SessionPaths(displayOk, grabOk, evs, screen);
        }
        return;
      }
      trace := trace + [Release(PointerGrab)];
    }
    trace := trace + [Release(Cursor)];
    trace := trace + [Release(Display)];
    status := Exited(rv);
    assert Session(displayOk, grabOk, evs, screen) == RunResult(status, trace, lines) by {
      SessionPaths(displayOk, grabOk, evs, screen);
      if grabOk {
        assert trace == [Acquire(Display), Acquire(Cursor), Acquire(PointerGrab),
                         Release(PointerGrab), Release(Cursor), Release(Display)];
      } else {
        assert trace == [Acquire(Display), Acquire(Cursor), Release(Cursor), Release(Display)];
      }
    }
  }

  // ---------------------------------------------------------------------------
  // Lemmas about teardown.

  lemma {:induction false} AcquireAll(prefix: seq<Action>, stack: seq<Resource>, held: seq<Resource>)
    requires Held(prefix) == Some(stack)
    requires forall j, k :: 0 <= j < k < |stack + held| ==> (stack + held)[j] != (stack + held)[k]
    ensures Held(prefix + Acquisitions(held)) == Some(stack + held)
    decreases |held|
  {
    if held == [] {
      assert prefix + Acquisitions(held) == prefix;
      assert stack + held == stack;
    } else {
      var init := held[..|held| - 1];
      var last := held[|held| - 1];
      assert held == init + [last];
      assert stack + held == (stack + init) + [last];
      assert forall j, k :: 0 <= j < k < |stack + init| ==> (stack + init)[j] != (stack + init)[k] by {
        forall j, k | 0 <= j < k < |stack + init| ensures (stack + init)[j] != (stack + init)[k] {
          assert (stack + init)[j] == (stack + held)[j] && (stack + init)[k] == (stack + held)[k];
        }
      }
      AcquireAll(prefix, stack, init);
      var t := prefix + Acquisitions(held);
      assert Acquisitions(held) == Acquisitions(init) + [Acquire(last)];
      assert t[..|t| - 1] == prefix + Acquisitions(init);
      assert last !in stack + init by {
        forall j | 0 <= j < |stack + init| ensures (stack + init)[j] != last {
          assert (stack + init)[j] == (stack + held)[j] && last == (stack + held)[|stack + held| - 1];
        }
      }
    }
  }

  lemma {:induction false} ReleaseAll(prefix: seq<Action>, stack: seq<Resource>, held: seq<Resource>)
    requires Held(prefix) == Some(stack + held)
    ensures Held(prefix + Releases(held)) == Some(stack)
    decreases |held|
  {
    if held == [] {
      assert prefix + Releases(held) == prefix;
      assert stack + held == stack;
    } else {
      var init := held[..|held| - 1];
      var last := held[|held| - 1];
      var p := prefix + [Release(last)];
      assert p[..|p| - 1] == prefix;
      assert (stack + held)[..|stack + held| - 1] == stack + init;
      assert Held(p) == Some(stack + init);
      ReleaseAll(p, stack, init);
      assert Releases(held) == [Release(last)] + Releases(init);
      assert prefix + Releases(held) == p + Releases(init);
    }
  }

  /**
   * Acquiring distinct resources and then releasing them in the reverse order keeps the stack
   * discipline and leaves nothing held.
   */
  lemma ReverseReleaseFreesAll(held: seq<Resource>)
    requires forall j, k :: 0 <= j < k < |held| ==> held[j] != held[k]
    ensures Held(Acquisitions(held)) == Some(held)
    ensures Held(Acquisitions(held) + Releases(held)) == Some([])
  {
    assert [] + held == held;
    AcquireAll([], [], held);
    assert [] + Acquisitions(held) == Acquisitions(held);
    ReleaseAll(Acquisitions(held), [], held);
  }

  /**
   * Every run that returns has released all it acquired, each release undoing the most recent
   * acquisition still held; a run that blocks still holds the display, the cursor and the grab.
   */
  lemma SessionReleasesInReverse(displayOk: bool, grabOk: bool, evs: seq<Event>, screen: Point -> Color)
    ensures var r := Session(displayOk, grabOk, evs, screen);
      (r.status.Exited? ==> Held(r.trace) == Some([]))
      && (r.status.Blocked? ==> Held(r.trace) == Some([Display, Cursor, PointerGrab]))
  {
    ReverseReleaseFreesAll(Acquired(displayOk, grabOk));
  }

  /**
   * The paths through main. No display: exit 1 having touched nothing. No grab: exit 1
   * after freeing the cursor and closing the display, without an ungrab. Otherwise: the loop's
   * output, then ungrab, cursor free and display close, and exit 0; or, when the events run
   * out before the button-1 release, blocked for ever with all three resources held.
   */
  lemma SessionPaths(displayOk: bool, grabOk: bool, evs: seq<Event>, screen: Point -> Color)
    ensures var r := Session(displayOk, grabOk, evs, screen);
      (!displayOk ==> r == RunResult(Exited(1), [], []))
      && (displayOk && !grabOk ==>
            r == RunResult(Exited(1),
                   [Acquire(Display), Acquire(Cursor), Release(Cursor), Release(Display)], []))
      && (displayOk && grabOk && Capture(evs).Finished? ==>
            r == RunResult(Exited(0),
                   [Acquire(Display), Acquire(Cursor), Acquire(PointerGrab),
                    Release(PointerGrab), Release(Cursor), Release(Display)],
                   Render(screen, Capture(evs).samples)))
      && (displayOk && grabOk && Capture(evs).Exhausted? ==>
            r == RunResult(Blocked,
                   [Acquire(Display), Acquire(Cursor), Acquire(PointerGrab)],
                   Render(screen, Capture(evs).samples)))
  {
    AcquiredTraces(displayOk, grabOk);
  }
}
