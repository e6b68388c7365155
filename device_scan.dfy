/** The device resolver `find_usb_keyboard` (src/main.rs:34-71).

    The program probes `/dev/input/event0` .. `/dev/input/event31` in
    ascending order. What the operating system answers for each index is the
    input of the model: one `Probe` per index. A device named exactly
    "KB USB KB" stops the scan and wins; otherwise the first device whose
    name merely contains "KB USB KB" is used; otherwise the scan fails with
    `NoKeyboard`. */
module DeviceScan {
  import opened Wrappers
  import opened Errors

  /** The name the author's keyboard reports (src/main.rs:46, 52). */
  const TargetName: string := "KB USB KB"

  /** Number of candidate event nodes (the range `0..32`, src/main.rs:40). */
  const EventDeviceCount: nat := 32

  const EventPathPrefix: string := "/dev/input/event"

  /** What probing one candidate index yields: the path is absent
      (`Path::exists` is false), `Device::open` fails, the device reports no
      name, or it reports a name. */
  datatype Probe = Missing | OpenFailed | Unnamed | Named(name: string)

  // ---------------------------------------------------------------------
  // Decimal rendering of the index, as `format!("{}", i)` writes it
  // ---------------------------------------------------------------------

  predicate IsDigit(c: char) {
    '0' <= c <= '9'
  }

  predicate AllDigits(s: string) {
    forall k | 0 <= k < |s| :: IsDigit(s[k])
  }

  /** A decimal numeral as Rust prints a `usize`: at least one digit, and no
      leading zero unless the numeral is "0" itself. */
  predicate Canonical(s: string) {
    |s| >= 1 && AllDigits(s) && (|s| > 1 ==> s[0] != '0')
  }

  function DigitChar(d: nat): (c: char)
    requires d < 10
    ensures IsDigit(c) && (c == '0' <==> d == 0)
  {
    ('0' as int + d) as char
  }

  function DigitValue(c: char): (d: nat)
    requires IsDigit(c)
    ensures d < 10 && DigitChar(d) == c
  {
    c as int - '0' as int
  }

  /** The decimal numeral of `n`. */
  function Decimal(n: nat): (s: string)
    ensures Canonical(s)
    decreases n
  {
    if n < 10 then [DigitChar(n)] else Decimal(n / 10) + [DigitChar(n % 10)]
  }

  /** The number a string of digits denotes. */
  function DecimalValue(s: string): nat
    requires AllDigits(s)
  {
    if s == [] then 0 else DecimalValue(s[..|s| - 1]) * 10 + DigitValue(s[|s| - 1])
  }

  lemma {:induction false} DecimalRoundTrip(n: nat)
    ensures DecimalValue(Decimal(n)) == n
    decreases n
  {
    if n >= 10 {
      var s := Decimal(n);
      assert s[..|s| - 1] == Decimal(n / 10);
      DecimalRoundTrip(n / 10);
    }
  }

  lemma {:induction false} LeadingDigitPositive(s: string)
    requires |s| >= 1 && AllDigits(s) && s[0] != '0'
    ensures DecimalValue(s) >= 1
    decreases |s|
  {
    if |s| > 1 {
      LeadingDigitPositive(s[..|s| - 1]);
    }
  }

  lemma {:induction false} CanonicalRoundTrip(s: string)
    requires Canonical(s)
    ensures Decimal(DecimalValue(s)) == s
    decreases |s|
  {
    if |s| > 1 {
      var front, d := s[..|s| - 1], DigitValue(s[|s| - 1]);
      assert front[0] == s[0];
      LeadingDigitPositive(front);
      CanonicalRoundTrip(front);
      var v := DecimalValue(s);
      assert v == DecimalValue(front) * 10 + d;
      assert v / 10 == DecimalValue(front) && v % 10 == d;
      assert s == front + [s[|s| - 1]];
    }
  }

  /** The path probed for index `i` (src/main.rs:41). */
  function DevicePath(i: nat): string {
    EventPathPrefix + Decimal(i)
  }

  /** The index named by an event-node path, or `None` when `path` is not of
      the form `/dev/input/event<decimal>`. */
  function EventIndex(path: string): Option<nat> {
    var n := |EventPathPrefix|;
    if |path| > n && path[..n] == EventPathPrefix && Canonical(path[n..])
    then Some(DecimalValue(path[n..]))
    else None
  }

  /** Every probed path names its own index. */
  lemma DevicePathRoundTrip(i: nat)
    ensures EventIndex(DevicePath(i)) == Some(i)
  {
    var p := DevicePath(i);
    assert p[..|EventPathPrefix|] == EventPathPrefix;
    assert p[|EventPathPrefix|..] == Decimal(i);
    DecimalRoundTrip(i);
  }

  /** Every well-formed event-node path is the probed path of its index. */
  lemma EventIndexRoundTrip(path: string)
    requires EventIndex(path).Some?
    ensures DevicePath(EventIndex(path).value) == path
  {
    var n := |EventPathPrefix|;
    CanonicalRoundTrip(path[n..]);
    assert path == path[..n] + path[n..];
  }

  /** Distinct indices are probed at distinct paths. */
  lemma DevicePathInjective(i: nat, j: nat)
    requires DevicePath(i) == DevicePath(j)
    ensures i == j
  {
    DevicePathRoundTrip(i);
    DevicePathRoundTrip(j);
  }

  // ---------------------------------------------------------------------
  // Name matching (`==` and `str::contains`)
  // ---------------------------------------------------------------------

  predicate OccursAt(pattern: string, s: string, k: nat) {
    k + |pattern| <= |s| && s[k..k + |pattern|] == pattern
  }

  lemma OccursAtShift(pattern: string, s: string, k: nat)
    requires |s| >= 1
    ensures OccursAt(pattern, s[1..], k) <==> OccursAt(pattern, s, k + 1)
  {
  }

  /** `s.contains(pattern)`: the pattern occurs somewhere in `s`. */
  function Contains(s: string, pattern: string): (b: bool)
    ensures b <==> exists k: nat :: OccursAt(pattern, s, k)
    decreases |s|
  {
    if pattern <= s then
      assert OccursAt(pattern, s, 0);
      true
    else if s == [] then
      false
    else
      var b := Contains(s[1..], pattern);
      assert b <==> exists k: nat :: OccursAt(pattern, s, k) by {
        if b {
          var k: nat :| OccursAt(pattern, s[1..], k);
          OccursAtShift(pattern, s, k);
        } else {
          forall k: nat | OccursAt(pattern, s, k) ensures false {
            assert k != 0;
            OccursAtShift(pattern, s, k - 1);
          }
        }
      }
      b
  }

  // ---------------------------------------------------------------------
  // The selection policy
  // ---------------------------------------------------------------------

  /** The two match tiers: an exact name, or a name containing the target. */
  datatype Tier = Exact | Partial

  predicate Matches(p: Probe, tier: Tier) {
    p.Named? &&
    match tier
    case Exact => p.name == TargetName
    case Partial => Contains(p.name, TargetName)
  }

  /** An exact match is also a partial one. */
  lemma ExactIsPartial(p: Probe)
    requires Matches(p, Exact)
    ensures Matches(p, Partial)
  {
  }

  /** The lowest index below `n` whose probe matches `tier`. */
  function EarliestBelow(probes: seq<Probe>, tier: Tier, n: nat): (r: Option<nat>)
    requires n <= |probes|
    ensures r.Some? ==> r.value < n && Matches(probes[r.value], tier)
    ensures r.Some? ==> forall j | 0 <= j < r.value :: !Matches(probes[j], tier)
    ensures r.None? <==> forall j | 0 <= j < n :: !Matches(probes[j], tier)
  {
    if n == 0 then None
    else match EarliestBelow(probes, tier, n - 1)
      case Some(k) => Some(k)
      case None => if Matches(probes[n - 1], tier) then Some(n - 1) else None
  }

  function Earliest(probes: seq<Probe>, tier: Tier): Option<nat> {
    EarliestBelow(probes, tier, |probes|)
  }

  /** The index the policy picks: the earliest exact match, else the earliest
      partial match. */
  function Selected(probes: seq<Probe>): Option<nat> {
    match Earliest(probes, Exact)
    case Some(i) => Some(i)
    case None => Earliest(probes, Partial)
  }

  /** The outcome of the scan (src/main.rs:60-70). */
  function Resolve(probes: seq<Probe>): (r: Result<string, SupipiError>)
    ensures r.Ok? ==> EventIndex(r.value).Some? && EventIndex(r.value).value < |probes|
    ensures r.Err? ==> r.error == NoKeyboard
  {
    match Selected(probes)
    case Some(i) =>
      DevicePathRoundTrip(i);
      Ok(DevicePath(i))
    case None => Err(NoKeyboard)
  }

  /** `find_usb_keyboard`: the 32-step scan with its early `break`. */
  method FindUsbKeyboard(probes: seq<Probe>) returns (r: Result<string, SupipiError>)
    requires |probes| == EventDeviceCount
    ensures r == Resolve(probes)
  {
    var exactMatch: Option<(string, string)> := None;
    var firstMatch: Option<(string, string)> := None;
    for i := 0 to EventDeviceCount
      invariant exactMatch.None?
      invariant EarliestBelow(probes, Exact, i).None?
      invariant firstMatch.None? <==> EarliestBelow(probes, Partial, i).None?
      invariant firstMatch.Some? ==>
                  firstMatch.value.1 == DevicePath(EarliestBelow(probes, Partial, i).value)
    {
      var path := DevicePath(i);
      if probes[i].Named? {
        var name := probes[i].name;
        if name == TargetName {
          exactMatch := Some((name, path));
          break;
        } else if Contains(name, TargetName) && firstMatch.None? {
          firstMatch := Some((name, path));
        }
      }
    }
    if exactMatch.Some? {
      return Ok(exactMatch.value.1);
    } else if firstMatch.Some? {
      return Ok(firstMatch.value.1);
    }
    return Err(NoKeyboard);
  }

  // ---------------------------------------------------------------------
  // Properties of the policy
  // ---------------------------------------------------------------------

  /** The scan picks index `i` exactly when `i` is the lowest exact match, or
      there is no exact match and `i` is the lowest partial match. A partial
      match below an exact one does not win, and a later partial match never
      replaces an earlier one. */
  lemma ResolveChoosesIndex(probes: seq<Probe>, i: nat)
    requires i < |probes|
    ensures Resolve(probes) == Ok(DevicePath(i)) <==>
              (Matches(probes[i], Exact) &&
               forall j | 0 <= j < i :: !Matches(probes[j], Exact)) ||
              ((forall j | 0 <= j < |probes| :: !Matches(probes[j], Exact)) &&
               Matches(probes[i], Partial) &&
               forall j | 0 <= j < i :: !Matches(probes[j], Partial))
  {
    match Selected(probes)
    case Some(k) =>
      if Resolve(probes) == Ok(DevicePath(i)) {
        DevicePathInjective(i, k);
      }
    case None =>
  }

  /** The scan fails exactly when no probed device reports a name equal to,
      or containing, the target; absent, unopenable and nameless devices
      never count. */
  lemma ResolveFails(probes: seq<Probe>)
    ensures Resolve(probes) == Err(NoKeyboard) <==>
              forall j | 0 <= j < |probes| ::
                !probes[j].Named? || !Contains(probes[j].name, TargetName)
  {
    if Earliest(probes, Exact).Some? {
      ExactIsPartial(probes[Earliest(probes, Exact).value]);
    }
  }

  /** The three ways a probe can yield no name are interchangeable: none of
      them can change the outcome. */
  lemma NamelessProbesAreSkipped(probes: seq<Probe>, i: nat, p: Probe)
    requires i < |probes| && !probes[i].Named? && !p.Named?
    ensures Resolve(probes[i := p]) == Resolve(probes)
  {
    var q := probes[i := p];
    forall tier: Tier ensures Earliest(q, tier) == Earliest(probes, tier) {
      assert forall j | 0 <= j < |q| :: Matches(q[j], tier) == Matches(probes[j], tier);
      EarliestUnique(q, probes, tier);
    }
  }

  /** Two probe sequences that agree on which indices match a tier have the
      same earliest match in it. */
  lemma EarliestUnique(a: seq<Probe>, b: seq<Probe>, tier: Tier)
    requires |a| == |b|
    requires forall j | 0 <= j < |a| :: Matches(a[j], tier) == Matches(b[j], tier)
    ensures Earliest(a, tier) == Earliest(b, tier)
  {
  }

  /** An exact match at index 5 beats a partial match at the lower index 2. */
  lemma ExactBeatsEarlierPartial()
    ensures Resolve(seq(32, j => if j == 2 then Named("KB USB KB Consumer Control")
                                 else if j == 5 then Named(TargetName) else Missing))
            == Ok(DevicePath(5))
  {
    var a := seq(32, j => if j == 2 then Named("KB USB KB Consumer Control")
                          else if j == 5 then Named(TargetName) else Missing);
    assert forall j | 0 <= j < 5 :: !Matches(a[j], Exact);
    ResolveChoosesIndex(a, 5);
  }

  /** Of two partial matches, at 10 and at 20, the first is used. */
  lemma FirstPartialIsKept()
    ensures Resolve(seq(32, j => if j == 10 || j == 20 then Named("KB USB KB Keyboard")
                                 else OpenFailed))
            == Ok(DevicePath(10))
  {
    var b := seq(32, j => if j == 10 || j == 20 then Named("KB USB KB Keyboard") else OpenFailed);
    assert OccursAt(TargetName, b[10].name, 0);
    assert forall j | 0 <= j < 32 :: !Matches(b[j], Exact);
    assert forall j | 0 <= j < 10 :: !Matches(b[j], Partial);
    ResolveChoosesIndex(b, 10);
  }

  /** With no name containing the target among the 32 probes, the scan fails. */
  lemma NoMatchFails()
    ensures Resolve(seq(32, j => if j % 2 == 0 then Named("Mouse") else Unnamed))
            == Err(NoKeyboard)
  {
  }
}
