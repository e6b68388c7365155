# supipi in Dafny

supipi watches a USB keyboard through the Linux input-event interface and
launches the `wofi` application picker when the left Super key is tapped twice
within 240 ms. The whole program is one Rust file, `src/main.rs`. This project
models its two pieces of sequential logic and proves what they promise. It
also models the start-up sequence of `main` that connects them.

- **Device resolver** (`DeviceScan`, `device_scan.dfy`). `find_usb_keyboard`
  probes `/dev/input/event0` .. `/dev/input/event31` in ascending order. What
  the operating system answers for each index is the input: a `Probe` that is
  `Missing`, `OpenFailed`, `Unnamed` or `Named(name)`. The scan is a `for`
  loop with the source's two mutable options and its early `break`. It is
  proved equal to the policy function `Resolve`: the lowest exact
  "KB USB KB" wins, else the lowest name containing "KB USB KB", else
  `NoKeyboard`. The path `/dev/input/event{i}` is built with a decimal
  rendering of `i`. That rendering is proved to round-trip, so the chosen path
  determines the index.
- **Double-tap detector** (`TapDetector`, `tap_detector.dfy`). `Step` is the
  effect of one event on `(last_press, tap_count)`. `Run` handles a sequence
  of events. `EventLoop` is the source's loop over fetched batches, and `HandleBatch` is
  its inner loop over one batch. Both keep the source's mutable locals, and
  both are proved equal to `Run` over the events they handle. The
  independent reference definition is `DoubleTaps`. A burst is a maximal run
  of presses, each less than 240 ms after the one before. The picker launches
  exactly at the 2nd, 4th, 6th … press of each burst. `RunFollowsBursts`
  proves that the state machine launches at exactly those presses.
- **Start-up** (`Supipi`, `supipi.dfy`). `RunProgram` models `main`. It
  installs the signal handler, then resolves the keyboard, then opens it
  again, then runs the loop. The first failing step decides the error.

Time is a natural number of milliseconds. Each event carries the clock
reading that `Instant::now()` gives when the loop handles it. Elapsed time
saturates at zero, as `Instant::duration_since` does. The shutdown flag is
written only by the signal handler, which only ever stores `false`. So the
flag reads `true` for some number of loop checks and `false` from then on.
That number, `checksPassed`, is an input.

The double-tap window is 240 ms (src/main.rs:90); `PressReleaseScenario`
runs presses at 0, 150 and 600 ms against it.

## Model

| member | source | states |
|---|---|---|
| `DeviceScan.FindUsbKeyboard` | src/main.rs:34-71 | Given the answers for the 32 candidate indices, the scan loop (early `break` on an exact name, first containing name remembered) returns exactly `Resolve(probes)`. |
| `DeviceScan.Resolve` | src/main.rs:60-70 | A successful result is a well-formed `/dev/input/event{i}` path whose index is below the number of probed indices. The only error is `NoKeyboard`. |
| `DeviceScan.ResolveChoosesIndex` | src/main.rs:46-53 | Index `i` is chosen iff it is the lowest exact match, or there is no exact match at all and it is the lowest containing match. A partial match below an exact one loses, and a later partial match never replaces the first. |
| `DeviceScan.ResolveFails` | src/main.rs:42-44 | The scan fails with `NoKeyboard` iff no probe reports a name containing "KB USB KB". Missing, unopenable and nameless indices never count. |
| `DeviceScan.NamelessProbesAreSkipped` | src/main.rs:42-44 | Replacing a missing, unopenable or nameless probe by another of those three kinds never changes the outcome. |
| `DeviceScan.EarliestBelow` | src/main.rs:40-58 | The index found is the lowest below `n` whose probe matches the tier. `None` means that no probe below `n` matches. |
| `DeviceScan.Contains` | src/main.rs:52 | `str::contains`: true iff the pattern occurs at some position of the name. |
| `DeviceScan.ExactIsPartial` | src/main.rs:46-53 | A name equal to "KB USB KB" also contains it, so the exact tier lies inside the partial tier. |
| `DeviceScan.Decimal` | src/main.rs:41 | The index is printed as a canonical decimal numeral: at least one digit and no leading zero. |
| `DeviceScan.DecimalRoundTrip` | src/main.rs:41 | Reading back the printed numeral gives the index. |
| `DeviceScan.CanonicalRoundTrip` | src/main.rs:41 | Every canonical numeral is the printing of the number it denotes. |
| `DeviceScan.DevicePathRoundTrip` | src/main.rs:41 | The path probed for index `i` parses back to `i`. |
| `DeviceScan.EventIndexRoundTrip` | src/main.rs:41 | Every well-formed `/dev/input/event<n>` path is the probed path of index `n`. |
| `DeviceScan.DevicePathInjective` | src/main.rs:41 | Distinct indices are probed at distinct paths. |
| `DeviceScan.ExactBeatsEarlierPartial` | src/main.rs:46-49 | With an exact name at index 5 and a containing name at index 2, the result is `/dev/input/event5`. |
| `DeviceScan.FirstPartialIsKept` | src/main.rs:52-53 | With containing names at indices 10 and 20 and no exact name, the result is `/dev/input/event10`. |
| `DeviceScan.NoMatchFails` | src/main.rs:69-70 | With no name containing the target among the 32 probes, the result is `NoKeyboard`. |
| `TapDetector.Step` | src/main.rs:102-121 | A non-qualifying event (another key, a release, a repeat) changes nothing and does not launch. A qualifying press always becomes `last_press`. A press 240 ms or more after the previous one sets the count to 1 without launching. A press inside the window launches iff one tap was already counted, and then resets the count to 0; otherwise it adds one tap. The count stays in {0, 1}. |
| `TapDetector.Run` | src/main.rs:100-124 | Handling events in delivery order from a count in {0, 1} keeps the count in {0, 1}. There are never more launches than events. |
| `TapDetector.RunFollowsBursts` | src/main.rs:90-121 | From the start state (count 0), the launches are exactly the even-numbered presses of each burst, in order. Afterwards `tap_count` is the parity of the last press's position in its burst, and `last_press` is the last press, or the start instant when there was none. |
| `TapDetector.PressFollowsBursts` | src/main.rs:106-121 | One more press takes the reference outcome of the earlier presses to the reference outcome of all of them, exactly as `Step` does. |
| `TapDetector.OnlyPressesMatter` | src/main.rs:102-103 | Two event streams with the same qualifying presses at the same instants give the same state and the same launches. |
| `TapDetector.BurstLaunchCount` | src/main.rs:106-119 | A burst of `n` presses ends at position `n` and contains `n / 2` double taps. |
| `TapDetector.TripleTapLaunchesOnce` | src/main.rs:107-119 | At session start, a stream whose only presses are three inside the window launches exactly once, at the second press, and leaves one tap counted. |
| `TapDetector.TripleTapAfterPause` | src/main.rs:106-121 | From any state with a count in {0, 1}, three presses inside the window, the first of which starts a new count, launch exactly once, at the second press, and leave one tap counted at the third press. |
| `TapDetector.TwoPresses` | src/main.rs:106-121 | After a press that starts a new count, a second press inside the window launches once and leaves the count at 0. A second press 240 ms or more later does not launch and leaves the count at 1. |
| `TapDetector.PressReleaseScenario` | src/main.rs:100-124 | Presses at 0, 150 and 600 ms, with releases and a repeat between them, launch once at 150 ms and end with one tap counted at 600 ms. |
| `TapDetector.ScenarioPresses` | src/main.rs:102-103 | Of the scenario's key-down, release, key-down, repeat, release and key-down events, only the three key-downs (at 0, 150 and 600 ms) qualify. |
| `TapDetector.RunConcat` | src/main.rs:98-124 | Handling batch `a` and then batch `b` gives the same state and launches as handling `a + b`. |
| `TapDetector.Performed` | src/main.rs:97 | The loop performs as many fetches as the flag checks that read `true`, but never more than the fetch outcomes available. |
| `TapDetector.HandleBatch` | src/main.rs:100-124 | The loop over one fetched batch, with the source's mutable `last_press`, `tap_count` and launches, ends in exactly the state `Run` gives for that batch. Its launches are the earlier launches followed by those of `Run`. |
| `TapDetector.EventLoop` | src/main.rs:89-132 | The nested polling loop returns exactly the state and launches of `Run` over the events of the fetches it performed, and `tap_count` ends in {0, 1}. |
| `TapDetector.DeliveredConcat` | src/main.rs:98-131 | The events delivered by two runs of fetches are the first run's events followed by the second's. |
| `TapDetector.FetchFailureIsHarmless` | src/main.rs:126-130 | A failed fetch does not affect the session: the result is as if the failure had not happened. |
| `TapDetector.ShutdownIgnoresLaterFetches` | src/main.rs:97 | Once the flag reads `false`, whatever the device would still deliver does not change the session. |
| `TapDetector.SessionLaunchesDoubleTaps` | src/main.rs:97-124 | The launches of a whole session are exactly the double taps among the presses it handled. |
| `Supipi.RunProgram` | src/main.rs:73-136 | A failed handler installation gives `Signal`, then a failed scan gives `NoKeyboard`, then a failed reopen gives `Io`. Otherwise the result is the loop's session, whose count is in {0, 1} and whose launches are the double taps. |

## Left out

- Device I/O is not modelled: `Path::exists`, `Device::open`, `device.name()` and `fetch_events` from the `evdev` crate. They are inputs: a `Probe` per index, a `deviceOpens` flag for the second open in `main`, and a sequence of fetch outcomes.
- The blocking of `fetch_events` is not modelled. The model's loop also stops when the given fetch outcomes run out, which corresponds to the real program waiting for input.
- Spawning `wofi --show drun` is recorded only as the clock reading of the press that launched it. The spawn's success or failure is logged by the source and changes nothing, so the model leaves it out.
- The `ctrlc` handler and the `Arc<AtomicBool>` flag are left out as concurrency. The number of flag checks that read `true` is an input. The handler only stores `false`, so this captures every order in which the loop can observe it.
- `Instant::now()` and the 100 ms `thread::sleep` after a failed fetch are left out. Clock readings are inputs in whole milliseconds, so sub-millisecond comparisons against the 240 ms window are not modelled.
- Console output (`println!`, `eprintln!`) and the `thiserror` display strings are left out. So are the error payloads of `Io` and `Signal`, which are opaque values from other crates.
- `tap_count` is an `i32` in Rust and a `nat` here. Its bound in {0, 1} between events is proved, so no overflow can occur.
- Closing the device when `main` returns is not modelled: the model has no handles.
