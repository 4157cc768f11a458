/**
 * Enabling and disabling a sandboxed plugin (src/core/plugins/plugin-loader.service.ts, `enablePlugin`,
 * `disablePlugin`, `enableSandboxed` with its `onHookSubscribe`).
 *
 * The methods of the loader run without interruption between two awaits, and anything may happen in
 * between. So a run is a sequence of actions, each the code from one await to the next, on the state
 * that concerns one plugin: `Step` says what an action does, whether or not the run is well-behaved.
 * An action that does not apply (no such call, or the awaited thing has not happened) changes nothing.
 */
module PluginLifecycle {
  import opened Wrappers
  import opened HookHandlers
  import opened Sequences

  datatype Status = Installed | Enabled | Disabled | Error

  /** Worker hosts and calls are told apart by numbers. */
  type HostId = nat
  type CallId = nat

  datatype Stage = Load | OnLoad | OnEnable

  /** Where a call of `enablePlugin` or `disablePlugin` is suspended. */
  datatype Pc =
    | Starting(host: HostId, stage: Stage)   // awaiting load, onLoad or onEnable in the worker
    | TearingDown(host: HostId)              // enable failed; awaiting the worker's termination
    | EnableSucceeded | EnableFailed         // `enableSandboxed` has settled; `enablePlugin` has not resumed
    | Stopping(host: HostId)                 // awaiting onDisable
    | Terminating(host: HostId)              // awaiting the worker's termination

  datatype State = State(
    status: Status,                            // plugin.status
    persisted: Status,                         // the status in the plugin registry
    enabling: bool,                            // whether the id is in the `enabling` set
    host: Option<HostId>,                      // the entry in `sandboxHosts`
    running: set<HostId>,                      // workers that have not exited
    subscribed: map<HostId, set<HookEvent>>,   // the `subscribedEvents` of each `enableSandboxed` call
    hooks: seq<HookEvent>,                     // the plugin's registrations with the hook manager
    calls: map<CallId, Pc>,                    // suspended calls
    nextHost: HostId)

  datatype Action =
    | EnableCall(call: CallId, mainEscapes: bool)   // `mainEscapes`: the containment guard throws
    | StageSettled(call: CallId, ok: bool)          // the awaited start-up step resolves or rejects
    | TornDown(call: CallId)                        // the termination after a failed start-up resolves
    | EnableReturns(call: CallId)                   // `enablePlugin` runs to its end
    | DisableCall(call: CallId)
    | OnDisableSettled(call: CallId)                // resolved, rejected or timed out: all the same
    | DisableReturns(call: CallId)
    | Subscribes(host: HostId, event: Option<HookEvent>)  // a worker's hook-subscribe; `None` is an unknown name
    | Exits(host: HostId)                           // a worker exits, terminated or by itself

  function Step(s: State, a: Action): State {
    match a
    case EnableCall(c, mainEscapes) => StepEnableCall(s, c, mainEscapes)
    case StageSettled(c, ok) => StepStageSettled(s, c, ok)
    case TornDown(c) => StepTornDown(s, c)
    case EnableReturns(c) => StepEnableReturns(s, c)
    case DisableCall(c) => StepDisableCall(s, c)
    case OnDisableSettled(c) => StepOnDisableSettled(s, c)
    case DisableReturns(c) => StepDisableReturns(s, c)
    case Subscribes(h, event) => StepSubscribes(s, h, event)
    case Exits(h) => s.(running := s.running - {h})
  }

  /** Up to the first await: the early return, the concurrency guard, and starting the worker. */
  function StepEnableCall(s: State, c: CallId, mainEscapes: bool): State {
    if c in s.calls || s.status.Enabled? || s.enabling then s
    else if mainEscapes then s.(enabling := true, calls := s.calls[c := EnableFailed])
    else
      var h := s.nextHost;
      s.(enabling := true,
         host := Some(h),
         running := s.running + {h},
         subscribed := s.subscribed[h := {}],
         calls := s.calls[c := Starting(h, Load)],
         nextHost := h + 1)
  }

  function StepStageSettled(s: State, c: CallId, ok: bool): State {
    if c in s.calls && s.calls[c].Starting? then
      var Starting(h, stage) := s.calls[c];
      if !ok then s.(host := None, calls := s.calls[c := TearingDown(h)])
      else
        match stage
        case Load => s.(calls := s.calls[c := Starting(h, OnLoad)])
        case OnLoad => s.(calls := s.calls[c := Starting(h, OnEnable)])
        case OnEnable => s.(calls := s.calls[c := EnableSucceeded])
    else s
  }

  function StepTornDown(s: State, c: CallId): State {
    if c in s.calls && s.calls[c].TearingDown? && s.calls[c].host !in s.running then
      s.(calls := s.calls[c := EnableFailed])
    else s
  }

  function StepEnableReturns(s: State, c: CallId): State {
    if c in s.calls && s.calls[c].EnableSucceeded? then
      s.(status := Enabled, persisted := Enabled, enabling := false, calls := s.calls - {c})
    else if c in s.calls && s.calls[c].EnableFailed? then
      s.(status := Error, persisted := Error, hooks := [], enabling := false, calls := s.calls - {c})
    else s
  }

  function StepDisableCall(s: State, c: CallId): State {
    if c in s.calls || !s.status.Enabled? then s
    else if s.host.Some? then s.(calls := s.calls[c := Stopping(s.host.value)])
    else s.(hooks := [], status := Disabled, persisted := Disabled)
  }

  function StepOnDisableSettled(s: State, c: CallId): State {
    if c in s.calls && s.calls[c].Stopping? then s.(calls := s.calls[c := Terminating(s.calls[c].host)]) else s
  }

  function StepDisableReturns(s: State, c: CallId): State {
    if c in s.calls && s.calls[c].Terminating? && s.calls[c].host !in s.running then
      s.(host := None, hooks := [], status := Disabled, persisted := Disabled, calls := s.calls - {c})
    else s
  }

  /** `onHookSubscribe`: unknown names dropped, one registration per event, and a cap on top. */
  function StepSubscribes(s: State, h: HostId, event: Option<HookEvent>): State {
    if h !in s.running || h !in s.subscribed || event.None? then s
    else if event.value in s.subscribed[h] || |s.subscribed[h]| >= |KNOWN_HOOK_EVENTS| then s
    else s.(subscribed := s.subscribed[h := s.subscribed[h] + {event.value}], hooks := s.hooks + [event.value])
  }

  // ---------------------------------------------------------------- the invariant

  predicate IsEnable(pc: Pc) {
    pc.Starting? || pc.TearingDown? || pc.EnableSucceeded? || pc.EnableFailed?
  }

  /** No call is suspended: the plugin is up with one host, or down with nothing. */
  ghost predicate Settled(s: State) {
    && s.calls == map[]
    && !s.enabling
    && (s.status.Enabled? <==> s.host.Some?)
    && (s.host.None? ==> s.hooks == [] && s.running == {})
  }

  /** One enable call is suspended, and nothing else. */
  ghost predicate BeingEnabled(s: State, c: CallId) {
    && c in s.calls && s.calls == map[c := s.calls[c]]
    && s.enabling && !s.status.Enabled?
    && match s.calls[c] {
         case Starting(h, _) => s.host == Some(h)
         case TearingDown(h) => s.host.None? && h in s.subscribed && s.running <= {h}
         case EnableSucceeded => s.host.Some?
         case EnableFailed => s.host.None? && s.running == {}
         case _ => false
       }
  }

  /** One disable call is suspended, and nothing else. */
  ghost predicate BeingDisabled(s: State, c: CallId) {
    && c in s.calls && s.calls == map[c := s.calls[c]]
    && !s.enabling && s.status.Enabled?
    && (s.calls[c].Stopping? || s.calls[c].Terminating?)
    && s.host == Some(s.calls[c].host)
  }

  /** The host whose worker may still run and subscribe. */
  ghost function Current(s: State): Option<HostId> {
    if s.host.Some? then s.host
    else if exists c :: c in s.calls && s.calls[c].TearingDown? then
      var c :| c in s.calls && s.calls[c].TearingDown?;
      Some(s.calls[c].host)
    else None
  }

  /** Only the current worker runs, and each registration stems from a different subscription of it. */
  ghost predicate HooksAreCurrent(s: State) {
    && NoDuplicates(s.hooks)
    && (forall h :: h in s.running ==> Current(s) == Some(h))
    && (Current(s).Some? ==>
          Current(s).value in s.subscribed && forall e :: e in s.hooks ==> e in s.subscribed[Current(s).value])
  }

  ghost predicate Inv(s: State) {
    && s.persisted == s.status
    && HooksAreCurrent(s)
    && (forall h :: h in s.subscribed ==> h < s.nextHost)
    && (Settled(s) || (exists c :: BeingEnabled(s, c)) || (exists c :: BeingDisabled(s, c)))
  }

  // ---------------------------------------------------------------- what the invariant means

  ghost predicate Safe(s: State) {
    // at most one enable is in flight, and the guard knows about it
    && (forall c, d :: c in s.calls && d in s.calls && IsEnable(s.calls[c]) && IsEnable(s.calls[d]) ==> c == d)
    && (s.enabling <==> exists c :: c in s.calls && IsEnable(s.calls[c]))
    // a plugin that is neither enabled nor being enabled owns no host, no worker and no registration
    && (!s.status.Enabled? && !s.enabling ==> s.host.None? && s.running == {} && s.hooks == [])
    // at most one registration per event, so never more than the known events
    && NoDuplicates(s.hooks)
    // the status in the plugin registry is the live one
    && s.persisted == s.status
    // no worker is lost: it is in the host map, or the enable call that failed is still tearing it down
    && (forall h :: h in s.running ==> s.host == Some(h) || exists c :: c in s.calls && s.calls[c] == TearingDown(h))
  }

  lemma InvIsSafe(s: State)
    requires Inv(s)
    ensures Safe(s)
  {
    forall c, d | c in s.calls && d in s.calls
      ensures c == d
    {
      assert Settled(s) ==> c !in s.calls;
    }
    if !s.status.Enabled? && !s.enabling {
      assert Settled(s);
    }
    if c :| BeingEnabled(s, c) {
      assert IsEnable(s.calls[c]);
    }
  }

  /** A disable that starts while another one of the same plugin is suspended. */
  ghost predicate Overlaps(s: State, a: Action) {
    && a.DisableCall? && a.call !in s.calls && s.status.Enabled?
    && exists c :: c in s.calls && (s.calls[c].Stopping? || s.calls[c].Terminating?)
  }

  lemma EnableCallKeepsInv(s: State, c: CallId, mainEscapes: bool)
    requires Inv(s)
    ensures Inv(StepEnableCall(s, c, mainEscapes))
  {
    var t := StepEnableCall(s, c, mainEscapes);
    if t != s {
      assert Settled(s);
      assert t.calls == map[c := t.calls[c]];
      assert BeingEnabled(t, c);
    }
  }

  lemma StageSettledKeepsInv(s: State, c: CallId, ok: bool)
    requires Inv(s)
    ensures Inv(StepStageSettled(s, c, ok))
  {
    var t := StepStageSettled(s, c, ok);
    if t != s {
      assert BeingEnabled(s, c);
      assert t.calls == map[c := t.calls[c]];
      assert Current(t) == Current(s);
      assert BeingEnabled(t, c);
    }
  }

  lemma TornDownKeepsInv(s: State, c: CallId)
    requires Inv(s)
    ensures Inv(StepTornDown(s, c))
  {
    var t := StepTornDown(s, c);
    if t != s {
      assert BeingEnabled(s, c);
      assert t.calls == map[c := t.calls[c]];
      assert BeingEnabled(t, c);
    }
  }

  lemma EnableReturnsKeepsInv(s: State, c: CallId)
    requires Inv(s)
    ensures Inv(StepEnableReturns(s, c))
  {
    var t := StepEnableReturns(s, c);
    if t != s {
      assert BeingEnabled(s, c);
      assert t.calls == map[];
      assert Settled(t);
    }
  }

  lemma DisableCallKeepsInv(s: State, c: CallId)
    requires Inv(s) && !Overlaps(s, DisableCall(c))
    ensures Inv(StepDisableCall(s, c))
  {
    var t := StepDisableCall(s, c);
    if t != s {
      assert Settled(s);
      assert t.calls == map[c := t.calls[c]];
      assert BeingDisabled(t, c);
    }
  }

  lemma OnDisableSettledKeepsInv(s: State, c: CallId)
    requires Inv(s)
    ensures Inv(StepOnDisableSettled(s, c))
  {
    var t := StepOnDisableSettled(s, c);
    if t != s {
      assert BeingDisabled(s, c);
      assert t.calls == map[c := t.calls[c]];
      assert BeingDisabled(t, c);
    }
  }

  lemma DisableReturnsKeepsInv(s: State, c: CallId)
    requires Inv(s)
    ensures Inv(StepDisableReturns(s, c))
  {
    var t := StepDisableReturns(s, c);
    if t != s {
      assert BeingDisabled(s, c);
      assert t.calls == map[];
      assert Settled(t);
    }
  }

  lemma SubscribesKeepsInv(s: State, h: HostId, event: Option<HookEvent>)
    requires Inv(s)
    ensures Inv(StepSubscribes(s, h, event))
  {
    var t := StepSubscribes(s, h, event);
    if t != s {
      assert Current(t) == Current(s) == Some(h);
      if Settled(s) {
        assert Settled(t);
      } else if c :| BeingEnabled(s, c) {
        assert BeingEnabled(t, c);
      } else {
        var c :| BeingDisabled(s, c);
        assert BeingDisabled(t, c);
      }
    }
  }

  lemma ExitsKeepsInv(s: State, h: HostId)
    requires Inv(s)
    ensures Inv(s.(running := s.running - {h}))
  {
    var t := s.(running := s.running - {h});
    assert Current(t) == Current(s);
    assert Settled(s) ==> Settled(t);
    assert forall c :: BeingEnabled(s, c) ==> BeingEnabled(t, c);
    assert forall c :: BeingDisabled(s, c) ==> BeingDisabled(t, c);
  }

  /** Every action keeps the invariant, unless it starts a disable inside another. */
  lemma StepKeepsInv(s: State, a: Action)
    requires Inv(s) && !Overlaps(s, a)
    ensures Inv(Step(s, a))
  {
    match a
    case EnableCall(c, mainEscapes) => EnableCallKeepsInv(s, c, mainEscapes);
    case StageSettled(c, ok) => StageSettledKeepsInv(s, c, ok);
    case TornDown(c) => TornDownKeepsInv(s, c);
    case EnableReturns(c) => EnableReturnsKeepsInv(s, c);
    case DisableCall(c) => DisableCallKeepsInv(s, c);
    case OnDisableSettled(c) => OnDisableSettledKeepsInv(s, c);
    case DisableReturns(c) => DisableReturnsKeepsInv(s, c);
    case Subscribes(h, event) => SubscribesKeepsInv(s, h, event);
    case Exits(h) => ExitsKeepsInv(s, h);
  }

  // ---------------------------------------------------------------- whole runs

  /** A plugin as the loader starts with it. */
  ghost predicate Initial(s: State) {
    s == State(s.status, s.status, false, None, {}, map[], [], map[], s.nextHost) && !s.status.Enabled?
  }

  function Run(s: State, actions: seq<Action>): State
    decreases |actions|
  {
    if actions == [] then s else Run(Step(s, actions[0]), actions[1..])
  }

  ghost predicate NoOverlap(s: State, actions: seq<Action>)
    decreases |actions|
  {
    actions != [] ==> !Overlaps(s, actions[0]) && NoOverlap(Step(s, actions[0]), actions[1..])
  }

  /** Over every interleaving of enables, disables that do not overlap, worker messages and exits. */
  lemma {:induction false} EveryRunIsSafe(s: State, actions: seq<Action>)
    requires Inv(s) && NoOverlap(s, actions)
    ensures Inv(Run(s, actions)) && Safe(Run(s, actions))
    decreases |actions|
  {
    if actions == [] {
      InvIsSafe(s);
    } else {
      StepKeepsInv(s, actions[0]);
      EveryRunIsSafe(Step(s, actions[0]), actions[1..]);
    }
  }

  lemma InitialIsInv(s: State)
    requires Initial(s)
    ensures Inv(s)
  {
    assert Settled(s);
  }

  /** With everything settled, what the plugin owns follows from its status alone. */
  lemma SettledStates(s: State)
    requires Inv(s) && s.calls == map[]
    ensures s.status.Enabled? <==> s.host.Some?
    ensures !s.status.Enabled? ==> s.running == {} && s.hooks == []
    ensures |s.hooks| <= 18
  {
    assert forall c :: c !in s.calls;
    KnownEventCount();
    forall e | e in s.hooks
      ensures e in KNOWN_HOOK_EVENTS
    {
      EveryEventIsKnown(e);
    }
    DistinctEvents(s.hooks, KNOWN_HOOK_EVENTS);
  }

  lemma {:induction false} DistinctEvents(events: seq<HookEvent>, known: set<HookEvent>)
    requires NoDuplicates(events) && forall e :: e in events ==> e in known
    ensures |events| <= |known|
  {
    if events != [] {
      var last := events[|events| - 1];
      assert last in events;
      DistinctEvents(events[..|events| - 1], known - {last});
    }
  }

  /** What may follow when calls `c` and `d` both disable the plugin: an enable as soon as the first is done. */
  function LeakingRun(c: CallId, d: CallId, h: HostId): seq<Action> {
    [OnDisableSettled(c), OnDisableSettled(d), Exits(h)]
    + [DisableReturns(c), EnableCall(c + d + 1, false), DisableReturns(d)]
  }

  lemma RunThree(s: State, a: Action, b: Action, c: Action, rest: seq<Action>)
    ensures Run(s, [a, b, c] + rest) == Run(Step(Step(Step(s, a), b), c), rest)
    ensures !a.DisableCall? && !b.DisableCall? && !c.DisableCall? ==>
      (NoOverlap(s, [a, b, c] + rest) <==> NoOverlap(Step(Step(Step(s, a), b), c), rest))
  {
    RunOne(s, a, [b, c] + rest);
    RunOne(Step(s, a), b, [c] + rest);
    RunOne(Step(Step(s, a), b), c, rest);
    assert [a, b, c] + rest == [a] + ([b, c] + rest);
    assert [b, c] + rest == [b] + ([c] + rest);
  }

  lemma RunOne(s: State, a: Action, rest: seq<Action>)
    ensures Run(s, [a] + rest) == Run(Step(s, a), rest)
    ensures !a.DisableCall? ==> (NoOverlap(s, [a] + rest) <==> NoOverlap(Step(s, a), rest))
  {
    assert ([a] + rest)[1..] == rest;
  }

  /** A disable waits for the worker once `onDisable` has settled, whether it did before or does now. */
  lemma Terminates(s: State, c: CallId, h: HostId)
    requires c in s.calls && (s.calls[c] == Stopping(h) || s.calls[c] == Terminating(h))
    ensures Step(s, OnDisableSettled(c)) == s.(calls := s.calls[c := Terminating(h)])
  {
    assert s.calls[c].Terminating? ==> s.calls[c := Terminating(h)] == s.calls;
  }

  /** Both disables get as far as waiting for the worker, and it exits. */
  lemma BothTerminate(s: State, c: CallId, d: CallId, h: HostId) returns (t: State)
    requires c != d && c in s.calls && s.calls == map[c := s.calls[c], d := Stopping(h)]
    requires s.calls[c] == Stopping(h) || s.calls[c] == Terminating(h)
    ensures t == Step(Step(Step(s, OnDisableSettled(c)), OnDisableSettled(d)), Exits(h))
    ensures t == s.(calls := map[c := Terminating(h), d := Terminating(h)], running := s.running - {h})
  {
    Terminates(s, c, h);
    var once := Step(s, OnDisableSettled(c));
    Terminates(once, d, h);
    t := Step(Step(once, OnDisableSettled(d)), Exits(h));
  }

  lemma ReturnsOff(s: State, c: CallId, h: HostId)
    requires c in s.calls && s.calls[c] == Terminating(h) && h !in s.running
    ensures Step(s, DisableReturns(c))
         == s.(host := None, hooks := [], status := Disabled, persisted := Disabled, calls := s.calls - {c})
  {
  }

  lemma StartsWorker(s: State, c: CallId)
    requires c !in s.calls && !s.status.Enabled? && !s.enabling
    ensures var t := Step(s, EnableCall(c, false));
            && t.host == Some(s.nextHost) && t.running == s.running + {s.nextHost}
            && t.calls == s.calls[c := Starting(s.nextHost, Load)]
  {
  }

  /** An enable between the two returns loses its worker to the second. */
  lemma EnableBetween(s: State, c: CallId, d: CallId, h: HostId) returns (t: State)
    requires c != d && s.calls == map[c := Terminating(h), d := Terminating(h)]
    requires h !in s.running && !s.enabling && s.nextHost != h
    ensures t == Step(Step(Step(s, DisableReturns(c)), EnableCall(c + d + 1, false)), DisableReturns(d))
    ensures !Safe(t)
  {
    var e := c + d + 1;
    ReturnsOff(s, c, h);
    var off := Step(s, DisableReturns(c));
    StartsWorker(off, e);
    var on := Step(off, EnableCall(e, false));
    ReturnsOff(on, d, h);
    t := Step(on, DisableReturns(d));
    assert t.calls == map[e := Starting(s.nextHost, Load)];
    assert s.nextHost in t.running && t.host.None?;
  }

  /** The loader does not guard against overlapping disables: what follows one may lose a worker. */
  lemma OverlapLeaks(s: State, a: Action) returns (actions: seq<Action>)
    requires Inv(s) && Overlaps(s, a)
    ensures NoOverlap(Step(s, a), actions) && !Safe(Run(Step(s, a), actions))
  {
    var d := a.call;
    var c := OtherDisable(s, a);
    var h := s.calls[c].host;
    var t := Step(s, a);
    assert t == s.(calls := map[c := s.calls[c], d := Stopping(h)]);
    TwoDisablesLeak(t, c, d, h);
    actions := LeakingRun(c, d, h);
  }

  lemma TwoDisablesLeak(s: State, c: CallId, d: CallId, h: HostId)
    requires c != d && c in s.calls && s.calls == map[c := s.calls[c], d := Stopping(h)]
    requires s.calls[c] == Stopping(h) || s.calls[c] == Terminating(h)
    requires !s.enabling && s.nextHost != h
    ensures NoOverlap(s, LeakingRun(c, d, h)) && !Safe(Run(s, LeakingRun(c, d, h)))
  {
    var half := BothTerminate(s, c, d, h);
    var end := EnableBetween(half, c, d, h);
    var second := [DisableReturns(c), EnableCall(c + d + 1, false), DisableReturns(d)];
    RunThree(s, OnDisableSettled(c), OnDisableSettled(d), Exits(h), second);
    RunThree(half, DisableReturns(c), EnableCall(c + d + 1, false), DisableReturns(d), []);
    assert second + [] == second;
  }

  /** The disable that is suspended already: it is the only call. */
  lemma OtherDisable(s: State, a: Action) returns (c: CallId)
    requires Inv(s) && Overlaps(s, a)
    ensures BeingDisabled(s, c) && c != a.call && s.calls[c].host < s.nextHost
  {
    c :| c in s.calls && (s.calls[c].Stopping? || s.calls[c].Terminating?);
    assert !Settled(s);
    var b :| BeingDisabled(s, b);
    assert c == b;
  }

  /**
   * From every state the loader can reach, an action can be followed by an unsafe state, without further
   * overlaps, if and only if it starts a disable inside another.
   */
  lemma LeakIffOverlap(s: State, a: Action)
    requires Inv(s)
    ensures (exists actions :: NoOverlap(Step(s, a), actions) && !Safe(Run(Step(s, a), actions))) <==> Overlaps(s, a)
  {
    if Overlaps(s, a) {
      var actions := OverlapLeaks(s, a);
    } else {
      StepKeepsInv(s, a);
      forall actions | NoOverlap(Step(s, a), actions)
        ensures Safe(Run(Step(s, a), actions))
      {
        EveryRunIsSafe(Step(s, a), actions);
      }
    }
  }

  // ---------------------------------------------------------------- what enabling and disabling achieve

  /** Everything an idle plugin of this status is about. */
  ghost predicate Idle(s: State, status: Status, host: Option<HostId>) {
    && s.status == s.persisted == status && s.host == host
    && s.running == (if host.Some? then {host.value} else {})
    && s.hooks == [] && s.calls == map[] && !s.enabling
  }

  /** A settled plugin that is not enabled is idle without a host. */
  lemma SettledIsIdle(s: State)
    requires Inv(s) && s.calls == map[] && !s.status.Enabled?
    ensures Idle(s, s.status, None)
  {
    SettledStates(s);
    assert forall c :: c !in s.calls;
  }

  lemma ThreeStepsResolve(s: State, c: CallId, h: HostId)
    requires c in s.calls && s.calls[c] == Starting(h, Load)
    ensures Step(Step(Step(s, StageSettled(c, true)), StageSettled(c, true)), StageSettled(c, true)) ==
            s.(calls := s.calls[c := EnableSucceeded])
  {
    var t := s.(calls := s.calls[c := Starting(h, OnLoad)]);
    assert Step(s, StageSettled(c, true)) == t;
    var u := t.(calls := t.calls[c := Starting(h, OnEnable)]);
    assert Step(t, StageSettled(c, true)) == u;
    assert Step(u, StageSettled(c, true)) == u.(calls := u.calls[c := EnableSucceeded]);
  }

  /** From the first await of a call to its end. */
  lemma StartCompletes(s: State, c: CallId, h: HostId)
    requires s.calls == map[c := Starting(h, Load)]
    ensures var resolved := StageSettled(c, true);
            Run(s, [resolved, resolved, resolved] + [EnableReturns(c)]) ==
            s.(status := Enabled, persisted := Enabled, enabling := false, calls := map[])
  {
    var resolved := StageSettled(c, true);
    ThreeStepsResolve(s, c, h);
    RunThree(s, resolved, resolved, resolved, [EnableReturns(c)]);
    var t := s.(calls := map[c := EnableSucceeded]);
    RunOne(t, EnableReturns(c), []);
    assert [EnableReturns(c)] + [] == [EnableReturns(c)];
    assert t.calls - {c} == map[];
  }

  /** A start-up each of whose three steps resolves ends enabled, in the registry too, with the new worker. */
  lemma EnablingSucceeds(s: State, c: CallId)
    requires Inv(s) && s.calls == map[] && !s.status.Enabled?
    ensures var resolved := StageSettled(c, true);
            Idle(Run(s, [EnableCall(c, false)] + ([resolved, resolved, resolved] + [EnableReturns(c)])),
                 Enabled, Some(s.nextHost))
  {
    SettledIsIdle(s);
    var resolved := StageSettled(c, true);
    StartsWorker(s, c);
    StartCompletes(Step(s, EnableCall(c, false)), c, s.nextHost);
    RunOne(s, EnableCall(c, false), [resolved, resolved, resolved] + [EnableReturns(c)]);
  }

  /** The start-up steps of call `c` that have resolved since it was made. */
  function Resolved(s: State, actions: seq<Action>, c: CallId, already: seq<Stage>): seq<Stage>
    decreases |actions|
  {
    if actions == [] then already
    else Resolved(Step(s, actions[0]), actions[1..], c, ResolvedBy(s, actions[0], c, already))
  }

  function ResolvedBy(s: State, a: Action, c: CallId, already: seq<Stage>): seq<Stage> {
    if a.EnableCall? && a.call == c && c !in s.calls then []
    else if a == StageSettled(c, true) && c in s.calls && s.calls[c].Starting? then already + [s.calls[c].stage]
    else already
  }

  /** What has resolved of call `c` is what its program counter says. */
  ghost predicate InOrder(s: State, c: CallId, resolved: seq<Stage>) {
    c in s.calls ==>
      match s.calls[c]
      case Starting(_, Load) => resolved == []
      case Starting(_, OnLoad) => resolved == [Load]
      case Starting(_, OnEnable) => resolved == [Load, OnLoad]
      case EnableSucceeded => resolved == [Load, OnLoad, OnEnable]
      case _ => true
  }

  lemma {:induction false} StepsResolveInOrder(s: State, actions: seq<Action>, c: CallId, already: seq<Stage>)
    requires InOrder(s, c, already)
    ensures InOrder(Run(s, actions), c, Resolved(s, actions, c, already))
    decreases |actions|
  {
    if actions != [] {
      StepResolvesInOrder(s, actions[0], c, already);
      StepsResolveInOrder(Step(s, actions[0]), actions[1..], c, ResolvedBy(s, actions[0], c, already));
    }
  }

  lemma StepResolvesInOrder(s: State, a: Action, c: CallId, already: seq<Stage>)
    requires InOrder(s, c, already)
    ensures InOrder(Step(s, a), c, ResolvedBy(s, a, c, already))
  {
    assert [] + [Load] == [Load] && [Load] + [OnLoad] == [Load, OnLoad];
    assert [Load, OnLoad] + [OnEnable] == [Load, OnLoad, OnEnable];
  }

  /** A plugin becomes enabled only by a call whose load, onLoad and onEnable have resolved, in this order. */
  lemma EnabledAfterAllSteps(s: State, actions: seq<Action>, a: Action)
    requires s.calls == map[]
    requires !Run(s, actions).status.Enabled? && Step(Run(s, actions), a).status.Enabled?
    ensures a.EnableReturns? && Resolved(s, actions, a.call, []) == [Load, OnLoad, OnEnable]
  {
    if a.EnableReturns? {
      StepsResolveInOrder(s, actions, a.call, []);
    }
  }

  predicate Failing(s: State, c: CallId) {
    c in s.calls && (s.calls[c].TearingDown? || s.calls[c].EnableFailed?)
  }

  /** While its call has not returned, a start-up that has failed stays so. */
  lemma StepKeepsFailing(s: State, a: Action, c: CallId)
    requires Failing(s, c) && a != EnableReturns(c)
    ensures Failing(Step(s, a), c)
  {
  }

  lemma FailureReturns(s: State, c: CallId)
    requires c in s.calls && s.calls[c].EnableFailed?
    ensures var t := Step(s, EnableReturns(c));
            t.status == t.persisted == Error && t.hooks == [] && c !in t.calls && !t.enabling
  {
  }

  /** Once a start-up has failed, nothing that happens makes it succeed: when its call returns, it is in error. */
  lemma {:induction false} FailedEndsInError(s: State, actions: seq<Action>, c: CallId)
    requires Failing(s, c) && EnableReturns(c) !in actions
    ensures var t := Run(s, actions);
            && Failing(t, c)
            && (t.calls[c].EnableFailed? ==>
                  var u := Step(t, EnableReturns(c));
                  u.status == u.persisted == Error && u.hooks == [] && c !in u.calls && !u.enabling)
    decreases |actions|
  {
    if actions == [] {
      if s.calls[c].EnableFailed? {
        FailureReturns(s, c);
      }
    } else {
      StepKeepsFailing(s, actions[0], c);
      FailedEndsInError(Step(s, actions[0]), actions[1..], c);
    }
  }

  /** A step that rejects takes the worker down and ends in error, with nothing left. */
  lemma RejectionEndsInError(s: State, c: CallId)
    requires Inv(s) && c in s.calls && s.calls[c].Starting?
    ensures var h := s.calls[c].host;
            Idle(Run(s, [StageSettled(c, false), Exits(h), TornDown(c)] + [EnableReturns(c)]), Error, None)
  {
    var h := s.calls[c].host;
    assert BeingEnabled(s, c);
    RunThree(s, StageSettled(c, false), Exits(h), TornDown(c), [EnableReturns(c)]);
    TornDownAfterReject(s, c, h);
    var t := Step(Step(Step(s, StageSettled(c, false)), Exits(h)), TornDown(c));
    RunOne(t, EnableReturns(c), []);
    assert [EnableReturns(c)] + [] == [EnableReturns(c)];
  }

  lemma TornDownAfterReject(s: State, c: CallId, h: HostId)
    requires Inv(s) && BeingEnabled(s, c) && s.calls[c].Starting? && s.calls[c].host == h
    ensures Step(Step(Step(s, StageSettled(c, false)), Exits(h)), TornDown(c)) ==
            s.(host := None, running := {}, calls := map[c := EnableFailed])
  {
    assert s.running <= {h};
    var t := s.(host := None, calls := map[c := TearingDown(h)]);
    assert Step(s, StageSettled(c, false)) == t;
    var u := t.(running := {});
    assert Step(t, Exits(h)) == u;
  }

  /** So does a plugin whose entry point leaves its directory, without a worker ever. */
  lemma EscapeEndsInError(s: State, c: CallId)
    requires Inv(s) && s.calls == map[] && !s.status.Enabled?
    ensures Idle(Run(s, [EnableCall(c, true), EnableReturns(c)]), Error, None)
    ensures Run(s, [EnableCall(c, true), EnableReturns(c)]).nextHost == s.nextHost
  {
    SettledIsIdle(s);
    RunOne(s, EnableCall(c, true), [EnableReturns(c)]);
    RunOne(Step(s, EnableCall(c, true)), EnableReturns(c), []);
    assert [EnableCall(c, true)] + [EnableReturns(c)] == [EnableCall(c, true), EnableReturns(c)];
    assert [EnableReturns(c)] + [] == [EnableReturns(c)];
  }

  /** Disabling, once `onDisable` has settled and the worker is gone, ends disabled with nothing left. */
  lemma DisablingSucceeds(s: State, c: CallId)
    requires Inv(s) && s.calls == map[] && s.status.Enabled?
    ensures s.host.Some?
    ensures var h := s.host.value;
            Idle(Run(s, [DisableCall(c), OnDisableSettled(c), Exits(h)] + [DisableReturns(c)]), Disabled, None)
  {
    SettledStates(s);
    var h := s.host.value;
    assert s.running <= {h};
    var t := Step(s, DisableCall(c));
    assert t.calls == map[c := Stopping(h)];
    var u := Step(Step(t, OnDisableSettled(c)), Exits(h));
    assert u.calls == map[c := Terminating(h)];
    RunThree(s, DisableCall(c), OnDisableSettled(c), Exits(h), [DisableReturns(c)]);
    RunOne(u, DisableReturns(c), []);
    assert [DisableReturns(c)] + [] == [DisableReturns(c)];
  }

  /**
   * A call that finds the plugin as it wants it, or finds it being enabled, changes nothing; without a host there is
   * nothing to wait for.
   */
  lemma IdleCalls(s: State, c: CallId, mainEscapes: bool)
    ensures s.status.Enabled? || s.enabling ==> Step(s, EnableCall(c, mainEscapes)) == s
    ensures !s.status.Enabled? ==> Step(s, DisableCall(c)) == s
    ensures s.status.Enabled? && s.host.None? && c !in s.calls ==>
              Step(s, DisableCall(c)) == s.(hooks := [], status := Disabled, persisted := Disabled)
  {
  }

  /** A known event that a worker has not subscribed to yet is registered: the cap never refuses one. */
  lemma SubscriptionRegisters(s: State, h: HostId, e: HookEvent)
    requires h in s.running && h in s.subscribed
    ensures var t := Step(s, Subscribes(h, Some(e)));
            && t.hooks == (if e in s.subscribed[h] then s.hooks else s.hooks + [e])
            && h in t.subscribed && t.subscribed[h] == s.subscribed[h] + {e}
    ensures Step(s, Subscribes(h, None)) == s
  {
    var known := s.subscribed[h];
    if e in known {
      assert known + {e} == known;
    } else {
      forall f | f in known + {e} { EveryEventIsKnown(f); }
      FewerEvents(known, e);
    }
  }

  lemma FewerEvents(events: set<HookEvent>, e: HookEvent)
    requires e !in events
    ensures |events| < |KNOWN_HOOK_EVENTS|
  {
    forall f
      ensures f in KNOWN_HOOK_EVENTS
    {
      EveryEventIsKnown(f);
    }
    var rest := KNOWN_HOOK_EVENTS - (events + {e});
    assert KNOWN_HOOK_EVENTS == (events + {e}) + rest;
  }

  // ---------------------------------------------------------------- the loader's code

  /** The fields of the loader, the registry and the hook manager that concern one sandboxed plugin. */
  class SandboxedPlugin {
    var status: Status
    var persisted: Status
    var enabling: bool
    var host: Option<HostId>
    var running: set<HostId>
    var subscribed: map<HostId, set<HookEvent>>
    var hooks: seq<HookEvent>
    var calls: map<CallId, Pc>
    var nextHost: HostId

    ghost function View(): State
      reads this
    {
      State(status, persisted, enabling, host, running, subscribed, hooks, calls, nextHost)
    }

    constructor (status: Status)
      requires !status.Enabled?
      ensures Initial(View()) && Inv(View())
    {
      this.status, persisted, enabling, host := status, status, false, None;
      running, subscribed, hooks, calls, nextHost := {}, map[], [], map[], 0;
      new;
      InitialIsInv(View());
    }

    method EnablePlugin(call: CallId, mainEscapes: bool)
      requires call !in calls
      modifies this
      ensures View() == Step(old(View()), EnableCall(call, mainEscapes))
      ensures old(Inv(View()) && !Overlaps(View(), EnableCall(call, mainEscapes))) ==> Inv(View())
    {
      if Inv(View()) && !Overlaps(View(), EnableCall(call, mainEscapes)) {
        StepKeepsInv(View(), EnableCall(call, mainEscapes));
      }
      if status.Enabled? {
        return;
      }
      if enabling {
        return; // "is already being enabled"
      }
      enabling := true;
      if mainEscapes {
        calls := calls[call := EnableFailed];
        return;
      }
      var created := nextHost;
      nextHost := nextHost + 1;
      running := running + {created};
      subscribed := subscribed[created := {}];
      host := Some(created);
      calls := calls[call := Starting(created, Load)];
    }

    /** The awaited start-up step settles: go on to the next one, or tear the worker down. */
    method ResumeStart(call: CallId, ok: bool)
      requires call in calls && calls[call].Starting?
      modifies this
      ensures View() == Step(old(View()), StageSettled(call, ok))
      ensures old(Inv(View()) && !Overlaps(View(), StageSettled(call, ok))) ==> Inv(View())
    {
      if Inv(View()) && !Overlaps(View(), StageSettled(call, ok)) { StepKeepsInv(View(), StageSettled(call, ok)); }
      var Starting(started, stage) := calls[call];
      if !ok {
        host := None;
        calls := calls[call := TearingDown(started)];
        return;
      }
      match stage
      case Load => calls := calls[call := Starting(started, OnLoad)];
      case OnLoad => calls := calls[call := Starting(started, OnEnable)];
      case OnEnable => calls := calls[call := EnableSucceeded];
    }

    /** The end of `enablePlugin`: the rest of the try block, or the catch block, and the finally block. */
    method FinishEnable(call: CallId)
      requires call in calls && (calls[call].EnableSucceeded? || calls[call].EnableFailed?)
      modifies this
      ensures View() == Step(old(View()), EnableReturns(call))
      ensures old(Inv(View()) && !Overlaps(View(), EnableReturns(call))) ==> Inv(View())
    {
      if Inv(View()) && !Overlaps(View(), EnableReturns(call)) { StepKeepsInv(View(), EnableReturns(call)); }
      if calls[call].EnableSucceeded? {
        status := Enabled;
        persisted := Enabled;
      } else {
        status := Error;
        persisted := Error;
        hooks := [];
      }
      enabling := false;
      calls := calls - {call};
    }

    method DisablePlugin(call: CallId)
      requires call !in calls
      modifies this
      ensures View() == Step(old(View()), DisableCall(call))
      ensures old(Inv(View()) && !Overlaps(View(), DisableCall(call))) ==> Inv(View())
    {
      if Inv(View()) && !Overlaps(View(), DisableCall(call)) { StepKeepsInv(View(), DisableCall(call)); }
      if !status.Enabled? {
        return;
      }
      if host.Some? {
        calls := calls[call := Stopping(host.value)];
        return;
      }
      hooks := [];
      status := Disabled;
      persisted := Disabled;
    }

    /** The worker is gone: drop the host, the registrations and the status. */
    method FinishDisable(call: CallId)
      requires call in calls && calls[call].Terminating? && calls[call].host !in running
      modifies this
      ensures View() == Step(old(View()), DisableReturns(call))
      ensures old(Inv(View()) && !Overlaps(View(), DisableReturns(call))) ==> Inv(View())
    {
      if Inv(View()) && !Overlaps(View(), DisableReturns(call)) { StepKeepsInv(View(), DisableReturns(call)); }
      host := None;
      hooks := [];
      status := Disabled;
      persisted := Disabled;
      calls := calls - {call};
    }

    /** A hook-subscribe message of the worker `h`. */
    method OnHookSubscribe(h: HostId, event: Option<HookEvent>)
      requires h in running && h in subscribed
      modifies this
      ensures View() == StepSubscribes(old(View()), h, event)
      ensures old(Inv(View())) ==> Inv(View())
    {
      ghost var before := View();
      if Inv(before) { SubscribesKeepsInv(before, h, event); }
      if event.None? {
        return; // unknown event name
      }
      if event.value in subscribed[h] { return; }
      if |subscribed[h]| >= |KNOWN_HOOK_EVENTS| { return; }
      subscribed := subscribed[h := subscribed[h] + {event.value}];
      hooks := hooks + [event.value];
    }
  }
}
