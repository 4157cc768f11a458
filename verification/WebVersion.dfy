/**
 * Resolving the current WhatsApp Web build (src/engine/wa-web-version.ts:18-81): one shared fetch, a cache for
 * the life of the process, and a back-off after a failure. The clock never goes backwards and is never 0.
 */
module WebVersion {
  import opened Wrappers
  import opened Throttle
  import opened Sharing

  const FAILURE_BACKOFF_MS: nat := 60_000

  /** How a fetch ends; `currentVersion` is `None` where the payload holds no string. */
  datatype Outcome = Reply(ok: bool, currentVersion: Option<string>) | Rejected

  /** `/^\d/`. */
  predicate StartsWithDigit(v: string) {
    v != "" && '0' <= v[0] <= '9'
  }

  /** The version a fetch yields, if it yields one: a string that starts with a digit. */
  function VersionOf(outcome: Outcome): Option<string> {
    match outcome
    case Reply(true, Some(v)) => if StartsWithDigit(v) then Some(v) else None
    case _ => None
  }

  /** A call either answers at once or hands out the fetch in flight. */
  datatype Answer = Now(version: Option<string>) | Shared

  // ---------------------------------------------------------------- one call, one settlement

  /** `waiting` holds the callers that share the fetch in flight, if there is one; no failure yet is 0. */
  datatype Resolver = Resolver(cached: Option<string>, waiting: Option<seq<Caller>>, lastFailureAt: nat)

  function Answered(r: Resolver, now: nat): Answer {
    if r.cached.Some? then Now(r.cached)
    else if r.waiting.Some? then Shared
    else if r.lastFailureAt != 0 && now - r.lastFailureAt < FAILURE_BACKOFF_MS then Now(None)
    else Shared
  }

  /** A call starts a fetch when it is to share one and there is none. */
  predicate Starts(r: Resolver, now: nat) {
    Answered(r, now) == Shared && r.waiting.None?
  }

  function AfterCall(r: Resolver, caller: Caller, now: nat): Resolver {
    if Answered(r, now) != Shared then r
    else r.(waiting := Joined(r.waiting, caller))
  }

  function AfterSettlement(r: Resolver, outcome: Outcome, now: nat): Resolver {
    var version := VersionOf(outcome);
    if version.Some? then Resolver(version, None, r.lastFailureAt) else Resolver(r.cached, None, now)
  }

  class VersionResolver {
    var cachedCurrentVersion: Option<string>
    var inFlight: Option<seq<Caller>>
    var lastFailureAt: nat

    function State(): Resolver
      reads this
    {
      Resolver(cachedCurrentVersion, inFlight, lastFailureAt)
    }

    constructor ()
      ensures State() == Resolver(None, None, 0)
    {
      cachedCurrentVersion, inFlight, lastFailureAt := None, None, 0;
    }

    /** `resolveCurrentWebVersion`, up to the point where the caller has an answer or a shared fetch. */
    method ResolveCurrentWebVersion(caller: Caller, now: nat) returns (answer: Answer, started: bool)
      modifies this
      ensures State() == AfterCall(old(State()), caller, now)
      ensures answer == Answered(old(State()), now) && started == Starts(old(State()), now)
    {
      if cachedCurrentVersion.Some? {
        return Now(cachedCurrentVersion), false;
      }
      if inFlight.Some? {
        inFlight := Some(inFlight.value + [caller]);
        return Shared, false;
      }
      if lastFailureAt != 0 && now - lastFailureAt < FAILURE_BACKOFF_MS {
        return Now(None), false;
      }
      inFlight := Some([caller]);
      return Shared, true;
    }

    /** The body of the shared fetch from its reply to its end; every caller that shares it gets the version. */
    method FetchSettled(outcome: Outcome, now: nat) returns (version: Option<string>, callers: seq<Caller>)
      requires inFlight.Some?
      modifies this
      ensures State() == AfterSettlement(old(State()), outcome, now)
      ensures version == VersionOf(outcome) && callers == old(inFlight).value
    {
      callers := inFlight.value;
      version := None;
      if outcome.Reply? && outcome.ok && outcome.currentVersion.Some? {
        var v := outcome.currentVersion.value;
        if StartsWithDigit(v) {
          cachedCurrentVersion := Some(v);
          version := Some(v);
        } else {
          lastFailureAt := now;
        }
      } else {
        lastFailureAt := now;
      }
      inFlight := None;
    }
  }

  /** A good reply is the answer from then on. */
  lemma GoodReplyIsCached(r: Resolver, v: string, now: nat, later: nat)
    requires v != "" && '0' <= v[0] <= '9'
    ensures VersionOf(Reply(true, Some(v))) == Some(v)
    ensures var after := AfterSettlement(r, Reply(true, Some(v)), now);
            after.cached == Some(v) && after.waiting.None? && Answered(after, later) == Now(Some(v))
  {
  }

  /** Any other end yields nothing and leaves the cache alone; the next fetch starts no sooner than a minute later. */
  lemma BadReplyBacksOff(r: Resolver, outcome: Outcome, now: nat, caller: Caller, later: nat)
    requires r.cached.None? && 0 < now <= later
    requires forall v :: outcome == Reply(true, Some(v)) ==> v == "" || v[0] < '0' || '9' < v[0]
    ensures VersionOf(outcome) == None
    ensures var after := AfterSettlement(r, outcome, now);
            && after.cached.None? && after.waiting.None?
            && (later < now + 60000 ==> Answered(after, later) == Now(None))
            && (later >= now + 60000 ==>
                  Starts(after, later) && AfterCall(after, caller, later).waiting == Some([caller]))
  {
  }

  /** The first call starts a fetch, and further ones share it, until it settles. */
  lemma CallsShareOneFetch(first: Caller, second: Caller, now: nat, later: nat)
    ensures
      var r := Resolver(None, None, 0);
      var once := AfterCall(r, first, now);
      && Answered(r, now) == Shared && Starts(r, now)
      && Answered(once, later) == Shared && !Starts(once, later)
      && AfterCall(once, second, later).waiting == Some([first, second])
  {
    assert [first] + [second] == [first, second];
  }

  // ---------------------------------------------------------------- runs

  datatype Event = Called(caller: Caller, now: nat) | Settled(outcome: Outcome, now: nat)

  /** The resolver with a record of what has happened around it. */
  datatype World = World(
    resolver: Resolver,
    clock: nat,
    outstanding: nat,
    starts: seq<nat>,
    asked: multiset<Caller>,
    answered: multiset<Caller>,
    versions: set<string>
  )

  function Versions(v: Option<string>): set<string> {
    if v.Some? then {v.value} else {}
  }

  const FRESH := World(Resolver(None, None, 0), 0, 0, [], multiset{}, multiset{}, {})

  /** Time does not go back, and only a fetch that is under way can settle. */
  predicate Possible(w: World, e: Event) {
    0 < e.now && w.clock <= e.now && (e.Settled? ==> w.outstanding > 0)
  }

  function Step(w: World, e: Event): World {
    match e
    case Called(caller, now) =>
      var answer, started := Answered(w.resolver, now), Starts(w.resolver, now);
      World(
        AfterCall(w.resolver, caller, now),
        now,
        w.outstanding + if started then 1 else 0,
        if started then w.starts + [now] else w.starts,
        w.asked + multiset{caller},
        if answer.Now? then w.answered + multiset{caller} else w.answered,
        if answer.Now? then w.versions + Versions(answer.version) else w.versions)
    case Settled(outcome, now) =>
      World(
        AfterSettlement(w.resolver, outcome, now),
        now,
        if w.outstanding > 0 then w.outstanding - 1 else 0,
        w.starts,
        w.asked,
        w.answered + Waiting(w.resolver.waiting),
        w.versions + Versions(VersionOf(outcome)))
  }

  predicate PossibleRun(w: World, events: seq<Event>)
    decreases |events|
  {
    events == [] || (Possible(w, events[0]) && PossibleRun(Step(w, events[0]), events[1..]))
  }

  function Run(w: World, events: seq<Event>): World
    decreases |events|
  {
    if events == [] then w else Run(Step(w, events[0]), events[1..])
  }

  /**
   * Fetches start a back-off apart, and while nothing is cached or in flight the last failure is no older than
   * the last start.
   */
  ghost predicate Paced(r: Resolver, clock: nat, starts: seq<nat>) {
    && Spaced(starts, FAILURE_BACKOFF_MS)
    && r.lastFailureAt <= clock
    && (starts != [] ==> 0 < starts[|starts| - 1] <= clock)
    && (starts != [] && r.cached.None? && r.waiting.None? ==> starts[|starts| - 1] <= r.lastFailureAt)
  }

  ghost predicate Safe(w: World) {
    // One fetch at most, and none once a version is cached.
    && w.outstanding == (if w.resolver.waiting.Some? then 1 else 0)
    && (w.resolver.cached.Some? ==> w.resolver.waiting.None? && StartsWithDigit(w.resolver.cached.value))
    && Paced(w.resolver, w.clock, w.starts)
    // Every caller has been answered once, or waits; all versions ever given out are the cached one.
    && w.asked == w.answered + Waiting(w.resolver.waiting)
    && w.versions <= Versions(w.resolver.cached)
  }

  lemma CallKeepsPace(r: Resolver, clock: nat, starts: seq<nat>, caller: Caller, now: nat)
    requires Paced(r, clock, starts) && clock <= now && 0 < now
    ensures Paced(AfterCall(r, caller, now), now, if Starts(r, now) then starts + [now] else starts)
  {
    if Starts(r, now) {
      SpacedAppend(starts, FAILURE_BACKOFF_MS, now);
    }
  }

  /** A call is either answered or added to those that wait. */
  lemma CallIsAccounted(r: Resolver, caller: Caller, now: nat)
    ensures Waiting(AfterCall(r, caller, now).waiting)
         == if Answered(r, now).Now? then Waiting(r.waiting) else Waiting(r.waiting) + multiset{caller}
  {
  }

  lemma AnsweredCallIsSafe(w: World, caller: Caller, now: nat)
    requires Safe(w) && Possible(w, Called(caller, now)) && Answered(w.resolver, now).Now?
    ensures Safe(Step(w, Called(caller, now)))
  {
    CallKeepsPace(w.resolver, w.clock, w.starts, caller, now);
    OneMoreCaller(w.asked, w.answered, Waiting(w.resolver.waiting), caller);
  }

  lemma SharedCallIsSafe(w: World, caller: Caller, now: nat)
    requires Safe(w) && Possible(w, Called(caller, now)) && Answered(w.resolver, now) == Shared
    ensures Safe(Step(w, Called(caller, now)))
  {
    CallKeepsPace(w.resolver, w.clock, w.starts, caller, now);
    CallIsAccounted(w.resolver, caller, now);
    OneMoreCaller(w.asked, w.answered, Waiting(w.resolver.waiting), caller);
  }

  lemma CallIsSafe(w: World, caller: Caller, now: nat)
    requires Safe(w) && Possible(w, Called(caller, now))
    ensures Safe(Step(w, Called(caller, now)))
  {
    if Answered(w.resolver, now).Now? {
      AnsweredCallIsSafe(w, caller, now);
    } else {
      SharedCallIsSafe(w, caller, now);
    }
  }

  lemma SettledIsSafe(w: World, outcome: Outcome, now: nat)
    requires Safe(w) && Possible(w, Settled(outcome, now))
    ensures Safe(Step(w, Settled(outcome, now)))
  {
  }

  lemma StepIsSafe(w: World, e: Event)
    requires Safe(w) && Possible(w, e)
    ensures Safe(Step(w, e))
  {
    match e {
      case Called(caller, now) => CallIsSafe(w, caller, now);
      case Settled(outcome, now) => SettledIsSafe(w, outcome, now);
    }
  }

  lemma {:induction false} RunIsSafe(w: World, events: seq<Event>)
    requires Safe(w) && PossibleRun(w, events)
    ensures Safe(Run(w, events))
    decreases |events|
  {
    if events != [] {
      StepIsSafe(w, events[0]);
      RunIsSafe(Step(w, events[0]), events[1..]);
    }
  }

  /**
   * Every run: at most one fetch is under way, starts lie a minute apart, so a window of `width` ms sees at most
   * `width / 60000 + 1` of them, once no fetch is under way every call has been answered exactly once, and every
   * version given out is the cached one and starts with a digit.
   */
  lemma EveryRun(events: seq<Event>, start: nat, width: nat)
    requires PossibleRun(FRESH, events)
    ensures
      var w := Run(FRESH, events);
      && w.outstanding <= 1
      && (forall i :: 0 <= i < |w.starts| - 1 ==> w.starts[i] + 60000 <= w.starts[i + 1])
      && CountIn(w.starts, start, width) <= width / FAILURE_BACKOFF_MS + 1
      && (w.outstanding == 0 ==> w.answered == w.asked)
      && w.versions <= Versions(w.resolver.cached)
      && forall v :: v in w.versions ==> StartsWithDigit(v)
  {
    RunIsSafe(FRESH, events);
    WindowBound(Run(FRESH, events).starts, FAILURE_BACKOFF_MS, start, width);
  }

  /** Once a version is cached no fetch ever starts again, and every later call answers it at once. */
  lemma {:induction false} CachedForever(w: World, events: seq<Event>, later: nat)
    requires Safe(w) && w.resolver.cached.Some? && PossibleRun(w, events)
    ensures
      var end := Run(w, events);
      && end.resolver == w.resolver && end.starts == w.starts && end.outstanding == 0
      && Answered(end.resolver, later) == Now(w.resolver.cached)
    decreases |events|
  {
    if events != [] {
      StepIsSafe(w, events[0]);
      CachedForever(Step(w, events[0]), events[1..], later);
    }
  }
}
