/** `main` (src/main.rs:73-136): install the SIGINT/SIGTERM handler, resolve
    and open the keyboard, then run the event loop until the shutdown flag
    reads `false`.

    What the environment answers is passed in: whether `ctrlc::set_handler`
    succeeds, what each of the 32 candidate event nodes reports, whether the
    chosen device opens again, the clock reading at start, the fetch outcomes
    and how many flag checks still read `true`. */
module Supipi {
  import opened Wrappers
  import opened Errors
  import opened DeviceScan
  import opened TapDetector

  /** The program's run: the first start-up step that fails decides the
      error; when none fails, the result is the session the loop ran. */
  method RunProgram(handlerInstalled: bool, probes: seq<Probe>, deviceOpens: bool,
                    start: nat, fetches: seq<Fetch>, checksPassed: nat)
    returns (r: Result<Trace, SupipiError>)
    requires |probes| == EventDeviceCount
    ensures !handlerInstalled ==> r == Err(Signal)
    ensures handlerInstalled && Resolve(probes).Err? ==> r == Err(NoKeyboard)
    ensures handlerInstalled && Resolve(probes).Ok? && !deviceOpens ==> r == Err(Io)
    ensures handlerInstalled && Resolve(probes).Ok? && deviceOpens ==>
              r.Ok? && r.value == Session(start, fetches, checksPassed)
    ensures r.Ok? ==> r.value.state.tapCount <= 1 &&
                      r.value.launches == DoubleTaps(Presses(Delivered(fetches[..Performed(fetches, checksPassed)])))
  {
    if !handlerInstalled {
      return Err(Signal);
    }
    var found := FindUsbKeyboard(probes);
    if found.Err? {
      return Err(found.error);
    }
    if !deviceOpens {
      return Err(Io);
    }
    var lastPress, tapCount, launches := EventLoop(start, fetches, checksPassed);
    SessionLaunchesDoubleTaps(start, fetches, checksPassed);
    return Ok(Trace(TapState(lastPress, tapCount), launches));
  }
}
