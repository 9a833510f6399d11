/**
 * The pointer-event protocol of stint's main loop, as a pure function of the event stream.
 * The grab selects button presses, button-1 motion and button releases; the program first
 * discards events until button 1 goes down, then samples at every motion event and at the
 * button-1 release, which also ends the loop. A script that runs out of events stands for
 * XNextEvent blocking with nothing more to deliver.
 */
module PointerEvents {

  /** An event as XNextEvent delivers it under the grab, with its root-window coordinates. */
  datatype Event =
    | ButtonPress(button: nat, xRoot: int, yRoot: int)
    | ButtonRelease(button: nat, xRoot: int, yRoot: int)
    | MotionNotify(xRoot: int, yRoot: int)

  /** A point of the root window at which a pixel is sampled. */
  datatype Point = Point(x: int, y: int)

  function At(e: Event): Point {
    Point(e.xRoot, e.yRoot)
  }

  /** The event that starts sampling: a press of button 1. */
  predicate IsArm(e: Event) {
    e.ButtonPress? && e.button == 1
  }

  /** The event that ends sampling: a release of button 1. */
  predicate IsFinish(e: Event) {
    e.ButtonRelease? && e.button == 1
  }

  /** The events that produce a sample once sampling has started. */
  predicate IsSampled(e: Event) {
    e.MotionNotify? || IsFinish(e)
  }

  /** Waiting: before the button-1 press. Dragging: after it, until the button-1 release. */
  datatype Phase = Waiting | Dragging

  /**
   * What the loop does with a finite stream: either it reaches the button-1 release after
   * consuming `consumed` events, or the stream runs out while the program is still in `phase`.
   */
  datatype Outcome =
    | Finished(samples: seq<Point>, consumed: nat)
    | Exhausted(samples: seq<Point>, phase: Phase)

  /** `o`, preceded by `skipped` consumed events that produced the samples `prefix`. */
  function Then(prefix: seq<Point>, skipped: nat, o: Outcome): Outcome {
    match o
    case Finished(s, n) => Finished(prefix + s, skipped + n)
    case Exhausted(s, ph) => Exhausted(prefix + s, ph)
  }

  /**
   * The loop run one event at a time from phase `ph`: at most one sample per event, and when
   * it finishes it has consumed at least the terminating event and no more than the stream.
   */
  function Track(ph: Phase, evs: seq<Event>): (r: Outcome)
    ensures |r.samples| <= |evs|
    ensures r.Finished? ==> 1 <= r.consumed <= |evs|
    decreases |evs|
  {
    if evs == [] then Exhausted([], ph)
    else
      var e := evs[0];
      match ph
      case Waiting =>
        Then([], 1, Track(if IsArm(e) then Dragging else Waiting, evs[1..]))
      case Dragging =>
        if IsFinish(e) then Finished([At(e)], 1)
        else Then(if e.MotionNotify? then [At(e)] else [], 1, Track(Dragging, evs[1..]))
  }

  /**
   * The whole protocol: main enters its loops in the waiting phase. Run event by event, it
   * agrees on every stream with the index-based description `Reference` below.
   */
  function Capture(evs: seq<Event>): (r: Outcome)
    ensures r == Reference(evs)
  {
    assert evs[0..] == evs;
    WaitingByPosition(evs, 0);
    var p := FirstArmFrom(evs, 0);
    if p < |evs| then
      DraggingByPosition(evs, p + 1);
      Track(Waiting, evs)
    else
      Track(Waiting, evs)
  }

  // ---------------------------------------------------------------------------
  // An independent, index-based description of the same behaviour.

  /** The first button-1 press at or after index i, or |evs| when there is none. */
  function FirstArmFrom(evs: seq<Event>, i: nat): (p: nat)
    requires i <= |evs|
    ensures i <= p <= |evs|
    ensures p < |evs| ==> IsArm(evs[p])
    ensures forall k :: i <= k < p ==> !IsArm(evs[k])
    decreases |evs| - i
  {
    if i == |evs| || IsArm(evs[i]) then i else FirstArmFrom(evs, i + 1)
  }

  /** The first button-1 release at or after index i, or |evs| when there is none. */
  function FirstFinishFrom(evs: seq<Event>, i: nat): (q: nat)
    requires i <= |evs|
    ensures i <= q <= |evs|
    ensures q < |evs| ==> IsFinish(evs[q])
    ensures forall k :: i <= k < q ==> !IsFinish(evs[k])
    decreases |evs| - i
  {
    if i == |evs| || IsFinish(evs[i]) then i else FirstFinishFrom(evs, i + 1)
  }

  /** One point per motion event and button-1 release of s, in the order of s. */
  function Sampled(s: seq<Event>): (r: seq<Point>)
    ensures |r| <= |s|
  {
    if s == [] then [] else (if IsSampled(s[0]) then [At(s[0])] else []) + Sampled(s[1..])
  }

  /** The number of motion events in s. */
  function MotionCount(s: seq<Event>): nat {
    if s == [] then 0 else (if s[0].MotionNotify? then 1 else 0) + MotionCount(s[1..])
  }

  /**
   * The protocol stated by positions: p is the first button-1 press, q the first button-1
   * release after it; the samples are those of the events strictly after p up to and
   * including q, and exactly q + 1 events are consumed.
   */
  function Reference(evs: seq<Event>): Outcome {
    var p := FirstArmFrom(evs, 0);
    if p == |evs| then Exhausted([], Waiting)
    else
      var q := FirstFinishFrom(evs, p + 1);
      if q == |evs| then Exhausted(Sampled(evs[p + 1..]), Dragging)
      else Finished(Sampled(evs[p + 1..q + 1]), q + 1)
  }

  // ---------------------------------------------------------------------------
  // Lemmas.

  /** A run of the loop that finishes has just consumed a button-1 release. */
  lemma {:induction false} TrackEndsAtFinish(ph: Phase, evs: seq<Event>)
    requires Track(ph, evs).Finished?
    ensures IsFinish(evs[Track(ph, evs).consumed - 1])
    decreases |evs|
  {
    var e := evs[0];
    var next := if ph == Waiting && IsArm(e) then Dragging else ph;
    if !(ph == Dragging && IsFinish(e)) {
      TrackEndsAtFinish(next, evs[1..]);
      assert evs[1..][Track(next, evs[1..]).consumed - 1] == evs[Track(next, evs[1..]).consumed];
    }
  }

  lemma ThenThen(a: seq<Point>, k: nat, b: seq<Point>, m: nat, o: Outcome)
    ensures Then(a, k, Then(b, m, o)) == Then(a + b, k + m, o)
  {
  }

  lemma ThenEmpty(o: Outcome)
    ensures Then([], 0, o) == o
  {
  }

  /** One step of the waiting phase at position i: the event is consumed, and a button-1 press starts dragging. */
  lemma WaitingStep(evs: seq<Event>, i: nat)
    requires i < |evs|
    ensures Track(Waiting, evs[i..]) ==
      Then([], 1, Track(if IsArm(evs[i]) then Dragging else Waiting, evs[i + 1..]))
  {
  }

  /** One step of the dragging phase at position i. */
  lemma DraggingStep(evs: seq<Event>, i: nat)
    requires i < |evs|
    ensures Track(Dragging, evs[i..]) ==
      if IsFinish(evs[i]) then Finished([At(evs[i])], 1)
      else Then(if evs[i].MotionNotify? then [At(evs[i])] else [], 1, Track(Dragging, evs[i + 1..]))
  {
  }

  /** The samples taken are those of the events, and nothing but them: a sequence splits. */
  lemma {:induction false} SampledAppend(a: seq<Event>, b: seq<Event>)
    ensures Sampled(a + b) == Sampled(a) + Sampled(b)
    decreases |a|
  {
    if a == [] {
      assert a + b == b;
    } else {
      var head := if IsSampled(a[0]) then [At(a[0])] else [];
      assert (a + b)[0] == a[0];
      assert (a + b)[1..] == a[1..] + b;
      assert Sampled(a + b) == head + Sampled(a[1..] + b);
      SampledAppend(a[1..], b);
      assert head + (Sampled(a[1..]) + Sampled(b)) == (head + Sampled(a[1..])) + Sampled(b);
    }
  }

  /** Without a button-1 release among them, the sampled events are exactly the motion events. */
  lemma {:induction false} SampledWithoutFinish(s: seq<Event>)
    requires forall k :: 0 <= k < |s| ==> !IsFinish(s[k])
    ensures |Sampled(s)| == MotionCount(s)
    decreases |s|
  {
    if s != [] {
      assert forall k :: 0 <= k < |s[1..]| ==> s[1..][k] == s[k + 1];
      SampledWithoutFinish(s[1..]);
    }
  }

  /** Running the loop over a + b is running it over a, then over b from where a left off. */
  lemma {:induction false} TrackAppend(ph: Phase, a: seq<Event>, b: seq<Event>)
    ensures Track(ph, a + b) ==
      match Track(ph, a)
      case Finished(_, _) => Track(ph, a)
      case Exhausted(s, next) => Then(s, |a|, Track(next, b))
    decreases |a|
  {
    if a == [] {
      assert a + b == b;
      ThenEmpty(Track(ph, b));
    } else {
      var e := a[0];
      assert (a + b)[0] == e;
      assert (a + b)[1..] == a[1..] + b;
      match ph
      case Waiting =>
        var next := if IsArm(e) then Dragging else Waiting;
        TrackAppend(next, a[1..], b);
        if Track(next, a[1..]).Exhausted? {
          var o := Track(next, a[1..]);
          ThenThen([], 1, o.samples, |a[1..]|, Track(o.phase, b));
        }
      case Dragging =>
        if !IsFinish(e) {
          var pre := if e.MotionNotify? then [At(e)] else [];
          TrackAppend(Dragging, a[1..], b);
          if Track(Dragging, a[1..]).Exhausted? {
            var o := Track(Dragging, a[1..]);
            ThenThen(pre, 1, o.samples, |a[1..]|, Track(o.phase, b));
          }
        }
    }
  }

  /** In the dragging phase the loop matches the index-based description from position i on. */
  lemma {:induction false} DraggingByPosition(evs: seq<Event>, i: nat)
    requires i <= |evs|
    ensures var q := FirstFinishFrom(evs, i);
      Track(Dragging, evs[i..]) ==
        if q == |evs| then Exhausted(Sampled(evs[i..]), Dragging)
        else Finished(Sampled(evs[i..q + 1]), q + 1 - i)
    decreases |evs| - i
  {
    if i < |evs| {
      var e := evs[i];
      assert evs[i..][0] == e;
      assert evs[i..][1..] == evs[i + 1..];
      var q := FirstFinishFrom(evs, i);
      if IsFinish(e) {
        assert evs[i..i + 1] == [e];
        assert Sampled([e]) == [At(e)] + Sampled([]);
      } else {
        DraggingByPosition(evs, i + 1);
        var pre := if e.MotionNotify? then [At(e)] else [];
        if q < |evs| {
          assert evs[i..q + 1][0] == e;
          assert evs[i..q + 1][1..] == evs[i + 1..q + 1];
        }
      }
    }
  }

  /** In the waiting phase the loop discards everything up to and including the first button-1 press. */
  lemma {:induction false} WaitingByPosition(evs: seq<Event>, i: nat)
    requires i <= |evs|
    ensures var p := FirstArmFrom(evs, i);
      Track(Waiting, evs[i..]) ==
        if p == |evs| then Exhausted([], Waiting)
        else Then([], p + 1 - i, Track(Dragging, evs[p + 1..]))
    decreases |evs| - i
  {
    if i < |evs| {
      var e := evs[i];
      assert evs[i..][0] == e;
      assert evs[i..][1..] == evs[i + 1..];
      if !IsArm(e) {
        WaitingByPosition(evs, i + 1);
        var p := FirstArmFrom(evs, i);
        if p < |evs| {
          ThenThen([], 1, [], p - i, Track(Dragging, evs[p + 1..]));
        }
      }
    }
  }

  /**
   * Nothing is sampled before the first button-1 press: any events that are not such a press,
   * put in front of a stream, are consumed and change nothing but the count of consumed events.
   */
  lemma {:induction false} NoSampleBeforeArm(pre: seq<Event>, rest: seq<Event>)
    requires forall k :: 0 <= k < |pre| ==> !IsArm(pre[k])
    ensures Capture(pre + rest) == Then([], |pre|, Capture(rest))
  {
    DiscardedWhileWaiting(pre);
    TrackAppend(Waiting, pre, rest);
  }

  lemma {:induction false} DiscardedWhileWaiting(pre: seq<Event>)
    requires forall k :: 0 <= k < |pre| ==> !IsArm(pre[k])
    ensures Track(Waiting, pre) == Exhausted([], Waiting)
    decreases |pre|
  {
    if pre != [] {
      assert !IsArm(pre[0]);
      assert forall k :: 0 <= k < |pre[1..]| ==> pre[1..][k] == pre[k + 1];
      DiscardedWhileWaiting(pre[1..]);
    }
  }

  /** A stream that never presses button 1 produces no sample and is consumed to its end. */
  lemma NeverArmed(evs: seq<Event>)
    requires forall k :: 0 <= k < |evs| ==> !IsArm(evs[k])
    ensures Capture(evs) == Exhausted([], Waiting)
  {
    DiscardedWhileWaiting(evs);
  }

  /**
   * When the loop ends, it has consumed the stream through the first button-1 release after the
   * first button-1 press, and it has taken one sample per motion event in between, plus one.
   */
  lemma SampleCount(evs: seq<Event>)
    requires Capture(evs).Finished?
    ensures var n := Capture(evs).consumed;
      var p := FirstArmFrom(evs, 0);
      p + 2 <= n <= |evs|
      && n - 1 == FirstFinishFrom(evs, p + 1)
      && |Capture(evs).samples| == MotionCount(evs[p + 1..n - 1]) + 1
  {
    var p := FirstArmFrom(evs, 0);
    var q := FirstFinishFrom(evs, p + 1);
    assert p < |evs| && q < |evs| && Capture(evs) == Finished(Sampled(evs[p + 1..q + 1]), q + 1);
    assert evs[p + 1..q + 1] == evs[p + 1..q] + [evs[q]];
    SampledAppend(evs[p + 1..q], [evs[q]]);
    assert Sampled([evs[q]]) == [At(evs[q])] + Sampled([]);
    SampledWithoutFinish(evs[p + 1..q]);
  }

  /** The last sample is taken at the coordinates of the button-1 release that ends the loop. */
  lemma LastSampleAtRelease(evs: seq<Event>)
    requires Capture(evs).Finished?
    ensures var o := Capture(evs);
      1 <= o.consumed <= |evs| && IsFinish(evs[o.consumed - 1])
      && |o.samples| > 0 && o.samples[|o.samples| - 1] == At(evs[o.consumed - 1])
  {
    var p := FirstArmFrom(evs, 0);
    var q := FirstFinishFrom(evs, p + 1);
    assert p < |evs| && q < |evs| && Capture(evs) == Finished(Sampled(evs[p + 1..q + 1]), q + 1);
    assert evs[p + 1..q + 1] == evs[p + 1..q] + [evs[q]];
    SampledAppend(evs[p + 1..q], [evs[q]]);
    assert Sampled([evs[q]]) == [At(evs[q])] + Sampled([]);
  }

  /**
   * Once button 1 is down, a press of any button or a release of another button neither
   * samples nor ends the loop: inserting one changes only the count of consumed events.
   */
  lemma IgnoredWhileDragging(before: seq<Event>, e: Event, after: seq<Event>)
    requires Capture(before) == Exhausted(Capture(before).samples, Dragging)
    requires e.ButtonPress? || (e.ButtonRelease? && e.button != 1)
    ensures Capture(before + [e] + after) == Then([], 1, Capture(before + after))
  {
    var s := Capture(before).samples;
    var rest := Track(Dragging, after);
    assert Track(Dragging, [e] + after) == Then([], 1, rest) by {
      assert ([e] + after)[0] == e && ([e] + after)[1..] == after;
    }
    assert Capture(before + [e] + after) == Then(s, |before|, Then([], 1, rest)) by {
      assert before + [e] + after == before + ([e] + after);
      TrackAppend(Waiting, before, [e] + after);
    }
    assert Capture(before + after) == Then(s, |before|, rest) by {
      TrackAppend(Waiting, before, after);
    }
    ThenThen(s, |before|, [], 1, rest);
    ThenThen([], 1, s, |before|, rest);
  }

  /**
   * The loop stops at the first button-1 release after the press: no later event is read,
   * so whatever follows the consumed events leaves the outcome unchanged.
   */
  lemma StopsAtFinish(evs: seq<Event>, rest: seq<Event>)
    requires Capture(evs).Finished?
    ensures Capture(evs).consumed <= |evs|
    ensures Capture(evs[..Capture(evs).consumed] + rest) == Capture(evs)
  {
    var n := Capture(evs).consumed;
    LastSampleAtRelease(evs);
    assert evs == evs[..n] + evs[n..];
    TrackAppend(Waiting, evs[..n], evs[n..]);
    TrackAppend(Waiting, evs[..n], rest);
  }
}
