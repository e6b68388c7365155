/** The double-tap detector of `main`'s event loop (src/main.rs:89-131).

    The loop keeps two locals, `last_press` and `tap_count`. Only a press
    (value 1) of the left Super key (`KEY_LEFTMETA`) touches them: a press
    within 240 ms of the previous one counts one more tap, and the second
    counted tap launches the application picker and resets the count; a
    press after a longer pause starts a new count at 1.

    The monotonic clock is an input: every event carries the reading that
    `Instant::now()` gives when the loop handles it. */
module TapDetector {

  /** The double-tap window in milliseconds (src/main.rs:90). */
  const TimeoutMs: nat := 240

  /** `EventType::KEY` (EV_KEY in the Linux input protocol). */
  const EvKey: nat := 1

  /** `KeyCode::KEY_LEFTMETA`, the left Super key. */
  const KeyLeftMeta: nat := 125

  /** The event value of a key going down (0 is a release, 2 a repeat). */
  const KeyDown: int := 1

  datatype InputEvent = InputEvent(eventType: nat, code: nat, value: int)

  /** An event together with the clock reading, in milliseconds, taken when
      the loop handles it. */
  datatype Reading = Reading(event: InputEvent, now: nat)

  /** The locals `last_press` and `tap_count`. */
  datatype TapState = TapState(lastPress: nat, tapCount: nat)

  /** The state before the first event: `last_press` is the start instant and
      `tap_count` is 0 (src/main.rs:91-92). */
  function Initial(start: nat): TapState {
    TapState(start, 0)
  }

  /** The event the detector reacts to: a press of the left Super key. */
  predicate Qualifies(e: InputEvent) {
    e.eventType == EvKey && e.code == KeyLeftMeta && e.value == KeyDown
  }

  /** `now.duration_since(since)` in milliseconds; Rust saturates it at zero
      when `since` is the later instant. */
  function Elapsed(since: nat, now: nat): nat {
    if now >= since then now - since else 0
  }

  datatype StepResult = StepResult(state: TapState, launched: bool)

  /** How one event changes the tap state, and whether it launches the picker
      (src/main.rs:102-121). */
  function Step(s: TapState, r: Reading): (o: StepResult)
    // Releases, repeats and other keys change nothing and never launch.
    ensures !Qualifies(r.event) ==> o == StepResult(s, false)
    // Every press becomes the new `last_press`.
    ensures Qualifies(r.event) ==> o.state.lastPress == r.now
    // A press after a pause of at least the window starts a new count.
    ensures Qualifies(r.event) && Elapsed(s.lastPress, r.now) >= TimeoutMs ==>
              o.state.tapCount == 1 && !o.launched
    // A press inside the window that completes a double tap launches once
    // and resets the count; one that does not just counts.
    ensures Qualifies(r.event) && Elapsed(s.lastPress, r.now) < TimeoutMs ==>
              (o.launched <==> s.tapCount == 1) &&
              o.state.tapCount == (if s.tapCount == 1 then 0 else s.tapCount + 1)
    // Between events the count stays in {0, 1}.
    ensures s.tapCount <= 1 ==> o.state.tapCount <= 1
  {
    if !Qualifies(r.event) then
      StepResult(s, false)
    else if Elapsed(s.lastPress, r.now) < TimeoutMs then
      if s.tapCount + 1 == 2 then StepResult(TapState(r.now, 0), true)
      else StepResult(TapState(r.now, s.tapCount + 1), false)
    else
      StepResult(TapState(r.now, 1), false)
  }

  /** The tap state after a run of events, and the clock readings at which
      the picker was launched, in order. */
  datatype Trace = Trace(state: TapState, launches: seq<nat>)

  /** The events handled one after another, in delivery order. */
  function Run(s: TapState, rs: seq<Reading>): (t: Trace)
    ensures s.tapCount <= 1 ==> t.state.tapCount <= 1
    ensures |t.launches| <= |rs|
  {
    if rs == [] then Trace(s, [])
    else
      var t := Run(s, rs[..|rs| - 1]);
      var o := Step(t.state, rs[|rs| - 1]);
      Trace(o.state, t.launches + if o.launched then [rs[|rs| - 1].now] else [])
  }

  // ---------------------------------------------------------------------
  // A reference description of when the picker launches
  // ---------------------------------------------------------------------

  /** The clock readings of the qualifying presses among `rs`. */
  function Presses(rs: seq<Reading>): (ts: seq<nat>)
    ensures |ts| <= |rs|
  {
    if rs == [] then []
    else Presses(rs[..|rs| - 1]) + if Qualifies(rs[|rs| - 1].event) then [rs[|rs| - 1].now] else []
  }

  /** The 1-based position of the last press in its burst, a burst being a
      maximal run of presses each less than the window after the one before;
      0 when there is no press. */
  function BurstPosition(ts: seq<nat>): nat {
    if |ts| == 0 then 0
    else if |ts| == 1 || Elapsed(ts[|ts| - 2], ts[|ts| - 1]) >= TimeoutMs then 1
    else BurstPosition(ts[..|ts| - 1]) + 1
  }

  /** The presses that complete a double tap: the second, fourth, sixth, ...
      press of each burst. */
  function DoubleTaps(ts: seq<nat>): seq<nat> {
    if ts == [] then []
    else DoubleTaps(ts[..|ts| - 1]) + if BurstPosition(ts) % 2 == 0 then [ts[|ts| - 1]] else []
  }

  /** What the detector should have done after the presses `ts`, starting
      at `start`: launched at every double tap, kept as `tap_count` the parity
      of the last press's position in its burst, and kept the last press (or
      the start instant when there was none) as `last_press`. */
  function Expected(start: nat, ts: seq<nat>): Trace {
    Trace(TapState(if ts == [] then start else ts[|ts| - 1], BurstPosition(ts) % 2), DoubleTaps(ts))
  }

  /** One more press takes the expected state of `ts` to that of `ts + [t]`. */
  lemma PressFollowsBursts(start: nat, ts: seq<nat>, r: Reading)
    requires Qualifies(r.event)
    ensures Expected(start, ts + [r.now]) ==
              Trace(Step(Expected(start, ts).state, r).state,
                    Expected(start, ts).launches +
                    if Step(Expected(start, ts).state, r).launched then [r.now] else [])
  {
  }

  /** From the start state, the detector launches exactly at the even-numbered
      presses of each burst; afterwards `tap_count` is the parity of the last
      press's position in its burst and `last_press` is the last press (or the
      start instant when there was none). */
  lemma {:induction false} RunFollowsBursts(start: nat, rs: seq<Reading>)
    ensures Run(Initial(start), rs) == Expected(start, Presses(rs))
    decreases |rs|
  {
    if rs != [] {
      var front, r := rs[..|rs| - 1], rs[|rs| - 1];
      RunFollowsBursts(start, front);
      assert Run(Initial(start), rs) ==
             Trace(Step(Run(Initial(start), front).state, r).state,
                   Run(Initial(start), front).launches +
                   if Step(Run(Initial(start), front).state, r).launched then [r.now] else []);
      if Qualifies(r.event) {
        assert Presses(rs) == Presses(front) + [r.now];
        PressFollowsBursts(start, Presses(front), r);
      } else {
        assert Presses(rs) == Presses(front);
      }
    }
  }

  /** Only the qualifying presses matter: two event streams with the same
      presses at the same instants leave the same state and launch alike. */
  lemma OnlyPressesMatter(start: nat, a: seq<Reading>, b: seq<Reading>)
    requires Presses(a) == Presses(b)
    ensures Run(Initial(start), a) == Run(Initial(start), b)
  {
    RunFollowsBursts(start, a);
    RunFollowsBursts(start, b);
  }

  /** Every gap between consecutive presses is below the window. */
  predicate IsBurst(ts: seq<nat>) {
    forall k | 1 <= k < |ts| :: Elapsed(ts[k - 1], ts[k]) < TimeoutMs
  }

  /** A single burst of n presses launches n / 2 times. */
  lemma {:induction false} BurstLaunchCount(ts: seq<nat>)
    requires IsBurst(ts)
    ensures BurstPosition(ts) == |ts|
    ensures |DoubleTaps(ts)| == |ts| / 2
    decreases |ts|
  {
    if ts != [] {
      var front := ts[..|ts| - 1];
      assert IsBurst(front) by {
        forall k | 1 <= k < |front| ensures Elapsed(front[k - 1], front[k]) < TimeoutMs {
          assert front[k - 1] == ts[k - 1] && front[k] == ts[k];
        }
      }
      BurstLaunchCount(front);
    }
  }

  /** Three presses inside the window launch exactly once, at the second
      press, and leave one tap counted: the third press only moves the count
      from 0 to 1. */
  lemma TripleTapLaunchesOnce(start: nat, rs: seq<Reading>)
    requires |Presses(rs)| == 3 && IsBurst(Presses(rs))
    ensures Run(Initial(start), rs).launches == [Presses(rs)[1]]
    ensures Run(Initial(start), rs).state.tapCount == 1
  {
    var ts := Presses(rs);
    var a, b, c := ts[0], ts[1], ts[2];
    assert ts == [a, b, c];
    RunFollowsBursts(start, rs);
    BurstLaunchCount(ts);
    assert [a, b, c][..2] == [a, b] && [a, b][..1] == [a] && [a][..0] == [];
    assert BurstPosition([a]) == 1;
    assert BurstPosition([a, b]) == 2;
    assert DoubleTaps([a, b]) == [b];
  }

  /** Three presses inside the window, the first of which starts a new count,
      launch exactly once, at the second press, wherever in a session they
      occur; the third press only moves the count from 0 to 1. */
  lemma TripleTapAfterPause(s: TapState, a: Reading, b: Reading, c: Reading)
    requires s.tapCount <= 1
    requires Qualifies(a.event) && Qualifies(b.event) && Qualifies(c.event)
    requires Elapsed(s.lastPress, a.now) >= TimeoutMs
    requires Elapsed(a.now, b.now) < TimeoutMs && Elapsed(b.now, c.now) < TimeoutMs
    ensures Run(s, [a, b, c]) == Trace(TapState(c.now, 1), [b.now])
  {
    assert [a, b, c][..2] == [a, b];
    TwoPresses(s, a, b);
  }

  /** A press inside the window after exactly one counted tap launches once
      and resets the count; a press after the window never launches and
      counts one tap. */
  lemma TwoPresses(s: TapState, first: Reading, second: Reading)
    requires s.tapCount <= 1 && Qualifies(first.event) && Qualifies(second.event)
    requires Elapsed(s.lastPress, first.now) >= TimeoutMs
    ensures Elapsed(first.now, second.now) < TimeoutMs ==>
              Run(s, [first, second]) == Trace(TapState(second.now, 0), [second.now])
    ensures Elapsed(first.now, second.now) >= TimeoutMs ==>
              Run(s, [first, second]) == Trace(TapState(second.now, 1), [])
  {
    assert [first, second][..1] == [first] && [first][..0] == [];
    assert Run(s, [first]) == Trace(TapState(first.now, 1), []);
  }

  /** Handling two runs of events one after the other is handling their
      concatenation: batches are processed strictly in delivery order. */
  lemma {:induction false} RunConcat(s: TapState, a: seq<Reading>, b: seq<Reading>)
    ensures Run(s, a + b) ==
              Trace(Run(Run(s, a).state, b).state,
                    Run(s, a).launches + Run(Run(s, a).state, b).launches)
    decreases |b|
  {
    if b == [] {
      assert a + b == a;
    } else {
      var front := b[..|b| - 1];
      RunConcat(s, a, front);
      assert (a + b)[..|a + b| - 1] == a + front;
    }
  }

  /** The presses, releases and repeats of the scenario below. */
  function ScenarioEvents(): seq<Reading> {
    [Reading(InputEvent(EvKey, KeyLeftMeta, 1), 0),
     Reading(InputEvent(EvKey, KeyLeftMeta, 0), 60),
     Reading(InputEvent(EvKey, KeyLeftMeta, 1), 150),
     Reading(InputEvent(EvKey, KeyLeftMeta, 2), 400),
     Reading(InputEvent(EvKey, KeyLeftMeta, 0), 420),
     Reading(InputEvent(EvKey, KeyLeftMeta, 1), 600)]
  }

  /** Only the three key-down events of the scenario qualify. */
  lemma ScenarioPresses()
    ensures Presses(ScenarioEvents()) == [0, 150, 600]
  {
    var rs := ScenarioEvents();
    assert rs[..1][..0] == [];
    assert rs[..2][..1] == rs[..1] && rs[..3][..2] == rs[..2];
    assert rs[..4][..3] == rs[..3] && rs[..5][..4] == rs[..4] && rs[..6][..5] == rs[..5];
    assert Presses(rs[..1]) == [0];
    assert Presses(rs[..2]) == [0];
    assert Presses(rs[..3]) == [0, 150];
    assert Presses(rs[..4]) == [0, 150];
    assert Presses(rs[..5]) == [0, 150];
    assert rs[..6] == rs;
  }

  /** The scenario of presses at 0 ms, 150 ms and 600 ms with a release and a
      repeat in between: one launch, at 150 ms, and the press at 600 ms
      starts a new count. */
  lemma PressReleaseScenario()
    ensures Run(Initial(0), ScenarioEvents()) == Trace(TapState(600, 1), [150])
  {
    ScenarioPresses();
    RunFollowsBursts(0, ScenarioEvents());
    assert [0, 150, 600][..2] == [0, 150] && [0, 150][..1] == [0] && [0][..0] == [];
    assert BurstPosition([0, 150]) == 2;
    assert BurstPosition([0, 150, 600]) == 1;
    assert DoubleTaps([0, 150]) == [150];
  }

  // ---------------------------------------------------------------------
  // The polling loop
  // ---------------------------------------------------------------------

  /** The outcome of one `fetch_events` call. */
  datatype Fetch = Batch(events: seq<Reading>) | FetchFailed

  /** The events of the successful fetches, in delivery order. */
  function Delivered(fs: seq<Fetch>): seq<Reading> {
    if fs == [] then []
    else Delivered(fs[..|fs| - 1]) +
         match fs[|fs| - 1]
         case Batch(events) => events
         case FetchFailed => []
  }

  /** The number of fetches the loop performs: one per check of the shutdown
      flag that still reads `true`, as long as fetch outcomes remain. */
  function Performed(fs: seq<Fetch>, checksPassed: nat): (n: nat)
    ensures n <= |fs| && n <= checksPassed
    ensures n == |fs| || n == checksPassed
  {
    if checksPassed < |fs| then checksPassed else |fs|
  }

  /** What the loop has done once it stops. */
  function Session(start: nat, fs: seq<Fetch>, checksPassed: nat): Trace {
    Run(Initial(start), Delivered(fs[..Performed(fs, checksPassed)]))
  }

  /** The inner `for ev in events` loop (src/main.rs:100-124): the events of
      one batch, handled in order, starting from `last_press`, `tap_count`
      and the launches so far. */
  method HandleBatch(lastPress0: nat, tapCount0: nat, launches0: seq<nat>, events: seq<Reading>)
    returns (lastPress: nat, tapCount: nat, launches: seq<nat>)
    ensures TapState(lastPress, tapCount) == Run(TapState(lastPress0, tapCount0), events).state
    ensures launches == launches0 + Run(TapState(lastPress0, tapCount0), events).launches
  {
    lastPress, tapCount, launches := lastPress0, tapCount0, launches0;
    for j := 0 to |events|
      invariant TapState(lastPress, tapCount) == Run(TapState(lastPress0, tapCount0), events[..j]).state
      invariant launches == launches0 + Run(TapState(lastPress0, tapCount0), events[..j]).launches
    {
      var ev := events[j];
      if ev.event.eventType == EvKey && ev.event.code == KeyLeftMeta {
        if ev.event.value == KeyDown {
          var now := ev.now;
          if Elapsed(lastPress, now) < TimeoutMs {
            tapCount := tapCount + 1;
            if tapCount == 2 {
              // `wofi --show drun` is spawned here; its outcome is only logged.
              launches := launches + [now];
              tapCount := 0;
            }
          } else {
            tapCount := 1;
          }
          lastPress := now;
        }
      }
      assert events[..j + 1][..j] == events[..j];
    }
    assert events[..|events|] == events;
  }

  /** The loop of src/main.rs:97-132. `checksPassed` is how many times
      `running.load` reads `true`: the signal handler only ever stores
      `false`, so the flag reads `true` for some number of checks and `false`
      from then on. A failed fetch is retried (after a pause that the model
      leaves out). */
  method EventLoop(start: nat, fetches: seq<Fetch>, checksPassed: nat)
    returns (lastPress: nat, tapCount: nat, launches: seq<nat>)
    ensures Trace(TapState(lastPress, tapCount), launches) == Session(start, fetches, checksPassed)
    ensures tapCount <= 1
  {
    lastPress, tapCount, launches := start, 0, [];
    var i := 0;
    while i < checksPassed && i < |fetches|
      invariant i <= Performed(fetches, checksPassed)
      invariant Trace(TapState(lastPress, tapCount), launches) ==
                Run(Initial(start), Delivered(fetches[..i]))
    {
      assert fetches[..i + 1][..i] == fetches[..i];
      match fetches[i] {
        case Batch(events) =>
          RunConcat(Initial(start), Delivered(fetches[..i]), events);
          lastPress, tapCount, launches := HandleBatch(lastPress, tapCount, launches, events);
          assert Delivered(fetches[..i + 1]) == Delivered(fetches[..i]) + events;
        case FetchFailed =>
          assert Delivered(fetches[..i + 1]) == Delivered(fetches[..i]);
      }
      i := i + 1;
    }
  }

  // ---------------------------------------------------------------------
  // Properties of the loop
  // ---------------------------------------------------------------------

  lemma {:induction false} DeliveredConcat(a: seq<Fetch>, b: seq<Fetch>)
    ensures Delivered(a + b) == Delivered(a) + Delivered(b)
    decreases |b|
  {
    if b == [] {
      assert a + b == a;
    } else {
      DeliveredConcat(a, b[..|b| - 1]);
      assert (a + b)[..|a + b| - 1] == a + b[..|b| - 1];
    }
  }

  /** A failed fetch leaves the tap state as it was and changes nothing that
      follows: the session is as if the failure had not happened. */
  lemma FetchFailureIsHarmless(start: nat, before: seq<Fetch>, after: seq<Fetch>)
    ensures Session(start, before + [FetchFailed] + after, |before| + 1 + |after|) ==
            Session(start, before + after, |before| + |after|)
  {
    var withFailure, without := before + [FetchFailed] + after, before + after;
    assert withFailure[..Performed(withFailure, |before| + 1 + |after|)] == withFailure;
    assert without[..Performed(without, |before| + |after|)] == without;
    DeliveredConcat(before + [FetchFailed], after);
    DeliveredConcat(before, [FetchFailed]);
    DeliveredConcat(before, after);
    assert [FetchFailed][..0] == [];
    assert Delivered([FetchFailed]) == [];
    assert Delivered(withFailure) == Delivered(without);
  }

  /** Once the shutdown flag reads `false`, no further fetch is looked at:
      whatever the device would still deliver does not change the session. */
  lemma ShutdownIgnoresLaterFetches(start: nat, fs: seq<Fetch>, later: seq<Fetch>, checksPassed: nat)
    requires checksPassed <= |fs|
    ensures Session(start, fs + later, checksPassed) == Session(start, fs, checksPassed)
  {
    assert (fs + later)[..checksPassed] == fs[..checksPassed];
  }

  /** The loop's launches are exactly the double taps among the presses it
      has handled. */
  lemma SessionLaunchesDoubleTaps(start: nat, fs: seq<Fetch>, checksPassed: nat)
    ensures Session(start, fs, checksPassed).launches ==
              DoubleTaps(Presses(Delivered(fs[..Performed(fs, checksPassed)])))
  {
    RunFollowsBursts(start, Delivered(fs[..Performed(fs, checksPassed)]));
  }
}
