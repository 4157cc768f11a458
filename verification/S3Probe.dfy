/**
 * Probing S3 again while it is unavailable (src/common/storage/storage.service.ts:85-150): one shared probe, at
 * most one start in ten seconds, and an availability flag that never falls. The clock never goes backwards.
 */
module S3Probe {
  import opened Wrappers
  import opened Throttle
  import opened Sharing

  const PROBE_INTERVAL_MS: nat := 10_000

  /** A call either answers at once or waits for the probe in flight. */
  datatype Answer = Now(available: bool) | Awaits

  // ---------------------------------------------------------------- one call, one settlement

  /** `waiting` holds the callers that await the probe in flight, if there is one. */
  datatype Probe = Probe(usesS3: bool, available: bool, lastCheck: nat, waiting: Option<seq<Caller>>)

  function Answered(p: Probe, now: nat): Answer {
    if !p.usesS3 || p.available then Now(p.available)
    else if p.waiting.Some? then Awaits
    else if now - p.lastCheck < PROBE_INTERVAL_MS then Now(false)
    else Awaits
  }

  predicate Starts(p: Probe, now: nat) {
    Answered(p, now) == Awaits && p.waiting.None?
  }

  function AfterCall(p: Probe, caller: Caller, now: nat): Probe {
    if Answered(p, now) == Awaits then
      p.(lastCheck := if p.waiting.None? then now else p.lastCheck,
         waiting := Joined(p.waiting, caller))
    else p
  }

  function AfterSettlement(p: Probe, reachable: bool): Probe {
    p.(available := p.available || reachable, waiting := None)
  }

  /** The bucket check that the constructor starts comes to its end. */
  function AfterInitialization(p: Probe, reachable: bool): Probe {
    p.(available := p.available || reachable)
  }

  class Storage {
    const usesS3: bool
    var s3Available: bool
    var lastS3Check: nat
    var s3CheckInFlight: Option<seq<Caller>>

    function State(): Probe
      reads this
    {
      Probe(usesS3, s3Available, lastS3Check, s3CheckInFlight)
    }

    constructor (usesS3: bool)
      ensures State() == Probe(usesS3, false, 0, None)
    {
      this.usesS3 := usesS3;
      s3Available, lastS3Check, s3CheckInFlight := false, 0, None;
    }

    /** `initializeS3Bucket`: the bucket was found or created, or neither. */
    method InitializeS3Bucket(reachable: bool)
      modifies this`s3Available
      ensures State() == AfterInitialization(old(State()), reachable)
    {
      if reachable {
        s3Available := true;
      }
    }

    /** `refreshS3Availability`, up to the point where the caller has an answer or awaits the probe. */
    method RefreshS3Availability(caller: Caller, now: nat) returns (answer: Answer, started: bool)
      modifies this
      ensures State() == AfterCall(old(State()), caller, now)
      ensures answer == Answered(old(State()), now) && started == Starts(old(State()), now)
    {
      if !usesS3 || s3Available {
        return Now(s3Available), false;
      }
      if s3CheckInFlight.Some? {
        s3CheckInFlight := Some(s3CheckInFlight.value + [caller]);
        return Awaits, false;
      }
      if now - lastS3Check < PROBE_INTERVAL_MS {
        return Now(s3Available), false;
      }
      lastS3Check := now;
      s3CheckInFlight := Some([caller]);
      return Awaits, true;
    }

    /** The probe's reply; every caller that awaits it gets the flag as it then stands. */
    method ProbeSettled(reachable: bool) returns (available: bool, callers: seq<Caller>)
      requires s3CheckInFlight.Some?
      modifies this
      ensures State() == AfterSettlement(old(State()), reachable)
      ensures available == s3Available && callers == old(s3CheckInFlight).value
    {
      callers := s3CheckInFlight.value;
      if reachable {
        s3Available := true;
      }
      s3CheckInFlight := None;
      available := s3Available;
    }
  }

  /** A reachable bucket raises the flag, whoever finds it; an unreachable one changes nothing about it. */
  lemma ReachableRaisesFlag(p: Probe, later: nat)
    requires p.usesS3
    ensures Answered(AfterSettlement(p, true), later) == Now(true)
    ensures Answered(AfterInitialization(p, true), later) == Now(true)
    ensures AfterSettlement(p, false) == p.(waiting := None) && AfterInitialization(p, false) == p
  {
  }

  /** A call probes again once ten seconds have passed since the last start, and is refused until then. */
  lemma ProbesAfterInterval(p: Probe, caller: Caller, now: nat)
    requires p.usesS3 && !p.available && p.waiting.None? && p.lastCheck <= now
    ensures now < p.lastCheck + 10000 ==> Answered(p, now) == Now(false) && AfterCall(p, caller, now) == p
    ensures now >= p.lastCheck + 10000 ==>
              && Answered(p, now) == Awaits && Starts(p, now)
              && AfterCall(p, caller, now) == p.(lastCheck := now, waiting := Some([caller]))
  {
  }

  /** While a probe is in flight calls await it; without S3 there is nothing to probe. */
  lemma CallsShareOneProbe(p: Probe, caller: Caller, now: nat)
    ensures p.usesS3 && !p.available && p.waiting.Some? ==>
              && Answered(p, now) == Awaits && !Starts(p, now)
              && AfterCall(p, caller, now) == p.(waiting := Some(p.waiting.value + [caller]))
    ensures !p.usesS3 ==> Answered(p, now) == Now(p.available) && AfterCall(p, caller, now) == p
  {
  }

  // ---------------------------------------------------------------- runs

  datatype Event = Called(caller: Caller, now: nat) | Settled(reachable: bool) | Initialized(reachable: bool)

  /** The probe with a record of what has happened around it; `denials` counts answers of `false`. */
  datatype World = World(
    probe: Probe,
    clock: nat,
    outstanding: nat,
    starts: seq<nat>,
    asked: multiset<Caller>,
    answered: multiset<Caller>,
    denials: nat
  )

  function Fresh(usesS3: bool): World {
    World(Probe(usesS3, false, 0, None), 0, 0, [], multiset{}, multiset{}, 0)
  }

  /** Time does not go back, and only a probe that is under way can settle. */
  predicate Possible(w: World, e: Event) {
    match e
    case Called(_, now) => w.clock <= now
    case Settled(_) => w.outstanding > 0
    case Initialized(_) => w.probe.usesS3
  }

  function Step(w: World, e: Event): World {
    match e
    case Called(caller, now) =>
      var answer, started := Answered(w.probe, now), Starts(w.probe, now);
      World(
        AfterCall(w.probe, caller, now),
        now,
        w.outstanding + if started then 1 else 0,
        if started then w.starts + [now] else w.starts,
        w.asked + multiset{caller},
        if answer.Now? then w.answered + multiset{caller} else w.answered,
        w.denials + if answer == Now(false) then 1 else 0)
    case Settled(reachable) =>
      var probe := AfterSettlement(w.probe, reachable);
      World(
        probe,
        w.clock,
        if w.outstanding > 0 then w.outstanding - 1 else 0,
        w.starts,
        w.asked,
        w.answered + Waiting(w.probe.waiting),
        w.denials + if probe.available then 0 else |Waiting(w.probe.waiting)|)
    case Initialized(reachable) =>
      w.(probe := AfterInitialization(w.probe, reachable))
  }

  predicate PossibleRun(w: World, events: seq<Event>)
    decreases |events|
  {
    events == [] || (Possible(w, events[0]) && PossibleRun(Step(w, events[0]), events[1..]))
  }

  function Run(w: World, events: seq<Event>): World
    decreases |events|
  {
    if events == [] then w else Run(Step(w, events[0]), events[1..])
  }

  ghost predicate Paced(p: Probe, clock: nat, starts: seq<nat>) {
    && Spaced(starts, PROBE_INTERVAL_MS)
    && (starts != [] ==> starts[|starts| - 1] == p.lastCheck <= clock)
  }

  ghost predicate Safe(w: World) {
    // One probe at most, and none where S3 is not in use.
    && w.outstanding == (if w.probe.waiting.Some? then 1 else 0)
    && (!w.probe.usesS3 ==> w.starts == [] && w.probe.waiting.None? && !w.probe.available)
    && Paced(w.probe, w.clock, w.starts)
    // Every caller has been answered once, or waits.
    && w.asked == w.answered + Waiting(w.probe.waiting)
  }

  lemma CallKeepsPace(p: Probe, clock: nat, starts: seq<nat>, caller: Caller, now: nat)
    requires Paced(p, clock, starts) && clock <= now
    ensures Paced(AfterCall(p, caller, now), now, if Starts(p, now) then starts + [now] else starts)
  {
    if Starts(p, now) {
      SpacedAppend(starts, PROBE_INTERVAL_MS, now);
    }
  }

  /** A call is either answered or added to those that wait. */
  lemma CallIsAccounted(p: Probe, caller: Caller, now: nat)
    ensures Waiting(AfterCall(p, caller, now).waiting)
         == if Answered(p, now).Now? then Waiting(p.waiting) else Waiting(p.waiting) + multiset{caller}
  {
  }

  lemma AnsweredCallIsSafe(w: World, caller: Caller, now: nat)
    requires Safe(w) && Possible(w, Called(caller, now)) && Answered(w.probe, now).Now?
    ensures Safe(Step(w, Called(caller, now)))
  {
    CallKeepsPace(w.probe, w.clock, w.starts, caller, now);
    OneMoreCaller(w.asked, w.answered, Waiting(w.probe.waiting), caller);
  }

  lemma SharedCallIsSafe(w: World, caller: Caller, now: nat)
    requires Safe(w) && Possible(w, Called(caller, now)) && Answered(w.probe, now) == Awaits
    ensures Safe(Step(w, Called(caller, now)))
  {
    CallKeepsPace(w.probe, w.clock, w.starts, caller, now);
    CallIsAccounted(w.probe, caller, now);
    OneMoreCaller(w.asked, w.answered, Waiting(w.probe.waiting), caller);
  }

  lemma CallIsSafe(w: World, caller: Caller, now: nat)
    requires Safe(w) && Possible(w, Called(caller, now))
    ensures Safe(Step(w, Called(caller, now)))
  {
    if Answered(w.probe, now).Now? {
      AnsweredCallIsSafe(w, caller, now);
    } else {
      SharedCallIsSafe(w, caller, now);
    }
  }

  lemma SettledIsSafe(w: World, reachable: bool)
    requires Safe(w) && Possible(w, Settled(reachable))
    ensures Safe(Step(w, Settled(reachable)))
  {
  }

  lemma InitializedIsSafe(w: World, reachable: bool)
    requires Safe(w) && Possible(w, Initialized(reachable))
    ensures Safe(Step(w, Initialized(reachable)))
  {
  }

  lemma StepIsSafe(w: World, e: Event)
    requires Safe(w) && Possible(w, e)
    ensures Safe(Step(w, e))
  {
    match e {
      case Called(caller, now) => CallIsSafe(w, caller, now);
      case Settled(reachable) => SettledIsSafe(w, reachable);
      case Initialized(reachable) => InitializedIsSafe(w, reachable);
    }
  }

  lemma {:induction false} RunIsSafe(w: World, events: seq<Event>)
    requires Safe(w) && PossibleRun(w, events)
    ensures Safe(Run(w, events))
    decreases |events|
  {
    if events != [] {
      StepIsSafe(w, events[0]);
      RunIsSafe(Step(w, events[0]), events[1..]);
    }
  }

  /**
   * Every run: at most one probe is under way, starts lie ten seconds apart, so a window of `width` ms sees at most
   * `width / 10000 + 1` of them, and once no probe is under way every call has been answered exactly once.
   */
  lemma EveryRun(usesS3: bool, events: seq<Event>, start: nat, width: nat)
    requires PossibleRun(Fresh(usesS3), events)
    ensures
      var w := Run(Fresh(usesS3), events);
      && w.outstanding <= 1
      && (forall i :: 0 <= i < |w.starts| - 1 ==> w.starts[i] + 10000 <= w.starts[i + 1])
      && CountIn(w.starts, start, width) <= width / PROBE_INTERVAL_MS + 1
      && (w.outstanding == 0 ==> w.answered == w.asked)
  {
    RunIsSafe(Fresh(usesS3), events);
    WindowBound(Run(Fresh(usesS3), events).starts, PROBE_INTERVAL_MS, start, width);
  }

  /** The flag latches: once S3 is available no probe starts again and nobody is ever told otherwise. */
  lemma {:induction false} AvailableForever(w: World, events: seq<Event>, later: nat)
    requires w.probe.usesS3 && w.probe.available && PossibleRun(w, events)
    ensures
      var end := Run(w, events);
      && end.probe.available && end.starts == w.starts && end.denials == w.denials
      && Answered(end.probe, later) == Now(true)
    decreases |events|
  {
    if events != [] {
      AvailableForever(Step(w, events[0]), events[1..], later);
    }
  }
}
