/**
 * What happens when a hook event fires (src/core/hooks/hook-manager.service.ts, `execute`,
 * `runInFlight` and `runHandlers`): the handler chain and the cascades its handlers start.
 *
 * A handler is a finite program over one value of the payload type `D`. It may branch, fire further
 * events in its own asynchronous context, and run a part of itself with more events marked in flight.
 * The registry does not change while a cascade runs.
 */
module HookHandlers {
  import opened Wrappers

  datatype HookEvent =
    | SessionCreated | SessionStarting | SessionReady | SessionQr | SessionDisconnected | SessionError | SessionDeleted
    | MessageReceived | MessageSending | MessageSent | MessageFailed | MessageAck
    | WebhookBefore | WebhookQueued | WebhookDelivered | WebhookAfter | WebhookError
    | IngressError

  const KNOWN_HOOK_EVENTS: set<HookEvent> := {
    SessionCreated, SessionStarting, SessionReady, SessionQr, SessionDisconnected, SessionError, SessionDeleted,
    MessageReceived, MessageSending, MessageSent, MessageFailed, MessageAck,
    WebhookBefore, WebhookQueued, WebhookDelivered, WebhookAfter, WebhookError,
    IngressError
  }

  lemma EveryEventIsKnown(e: HookEvent)
    ensures e in KNOWN_HOOK_EVENTS
  {
    match e case _ =>
  }

  lemma KnownEventCount()
    ensures |KNOWN_HOOK_EVENTS| <= 18
  {
  }

  /** The `error` field of a result: absent, present but falsy (such as `null`), or a real error. */
  datatype ErrorField = Undefined | Falsy | Truthy

  /** How one handler invocation ends. */
  datatype Outcome<+D> =
    | Throws
    | Returns(go: bool, data: Option<D>, error: ErrorField)

  /** What the chain answers: whether to continue, and the payload as the handlers left it. */
  datatype Reply<+D> = Reply(go: bool, data: D)

  datatype Handler<!D> =
    | Finish(outcome: D -> Outcome<D>)
    | Fire(event: HookEvent, payload: D -> D, onContinue: Handler<D>, onStop: Handler<D>)
    | Branch(test: D -> bool, yes: Handler<D>, no: Handler<D>)
    | RunInFlight(events: set<HookEvent>, body: Handler<D>, next: Handler<D>)

  datatype Registration<!D> =
    Registration(id: string, pluginId: string, event: HookEvent, handler: Handler<D>, priority: real)

  type Registry<!D> = map<HookEvent, seq<Registration<D>>>

  /** The tree of events a cascade fires. `Seeded` brackets a part run with more events in flight. */
  datatype Call =
    | Blocked(event: HookEvent)
    | Ran(event: HookEvent, inner: seq<Call>)
    | Seeded(events: set<HookEvent>, inner: seq<Call>)

  function HandlersOf<D>(hooks: Registry<D>, e: HookEvent): seq<Registration<D>> {
    if e in hooks then hooks[e] else []
  }

  /** The payload the next handler sees: data returned together with any `error` field is discarded. */
  function Applied<D>(o: Outcome<D>, current: D): D {
    if o.Returns? && o.error.Undefined? && o.data.Some? then o.data.value else current
  }

  predicate Stops<D>(o: Outcome<D>) {
    o.Returns? && !o.go
  }

  // ---------------------------------------------------------------- meaning of a cascade

  /**
   * Firing `e` while `inFlight` is in flight. The measure is the number of known events not yet in
   * flight; below it, the registrations left in the chain and the size of the handler program.
   */
  function Execute<D>(hooks: Registry<D>, e: HookEvent, data: D, inFlight: set<HookEvent>): (Reply<D>, Call)
    decreases |KNOWN_HOOK_EVENTS - inFlight|, 0
  {
    if e in inFlight then
      (Reply(true, data), Blocked(e))
    else
      Shrinks(inFlight, {e}, e);
      var (reply, calls) := Chain(hooks, HandlersOf(hooks, e), data, inFlight + {e});
      (reply, Ran(e, calls))
  }

  function Chain<D>(
      hooks: Registry<D>, rest: seq<Registration<D>>, data: D, inFlight: set<HookEvent>): (Reply<D>, seq<Call>)
    decreases |KNOWN_HOOK_EVENTS - inFlight|, 2, |rest|
  {
    if rest == [] then
      (Reply(true, data), [])
    else
      var (outcome, calls) := Invoke(hooks, rest[0].handler, data, inFlight);
      var data' := Applied(outcome, data);
      if Stops(outcome) then
        (Reply(false, data'), calls)
      else
        var (reply, more) := Chain(hooks, rest[1..], data', inFlight);
        (reply, calls + more)
  }

  function Invoke<D>(hooks: Registry<D>, h: Handler<D>, data: D, inFlight: set<HookEvent>): (Outcome<D>, seq<Call>)
    decreases |KNOWN_HOOK_EVENTS - inFlight|, 1, h
  {
    match h
    case Finish(outcome) => (outcome(data), [])
    case Branch(test, yes, no) => Invoke(hooks, if test(data) then yes else no, data, inFlight)
    case Fire(e, payload, onContinue, onStop) =>
      var (reply, call) := Execute(hooks, e, payload(data), inFlight);
      var (outcome, calls) := Invoke(hooks, if reply.go then onContinue else onStop, reply.data, inFlight);
      (outcome, [call] + calls)
    case RunInFlight(events, body, next) =>
      Grows(inFlight, events);
      var (inside, calls) := Invoke(hooks, body, data, inFlight + events);
      if inside.Throws? then
        (Throws, [Seeded(events, calls)])
      else
        var (outcome, more) := Invoke(hooks, next, if inside.data.Some? then inside.data.value else data, inFlight);
        (outcome, [Seeded(events, calls)] + more)
  }

  lemma Grows(inFlight: set<HookEvent>, events: set<HookEvent>)
    ensures |KNOWN_HOOK_EVENTS - (inFlight + events)| <= |KNOWN_HOOK_EVENTS - inFlight|
  {
    var a, b := KNOWN_HOOK_EVENTS - (inFlight + events), KNOWN_HOOK_EVENTS - inFlight;
    assert b == a + (b - a);
  }

  lemma Shrinks(inFlight: set<HookEvent>, events: set<HookEvent>, e: HookEvent)
    requires e in events && e !in inFlight
    ensures |KNOWN_HOOK_EVENTS - (inFlight + events)| < |KNOWN_HOOK_EVENTS - inFlight|
  {
    var a, b := KNOWN_HOOK_EVENTS - (inFlight + events), KNOWN_HOOK_EVENTS - inFlight;
    EveryEventIsKnown(e);
    assert e in b && e !in a;
    assert b == a + (b - a);
  }

  // ---------------------------------------------------------------- cascades

  /** A fired event is blocked exactly when it is already in flight, at every depth of the tree. */
  ghost predicate Guarded(c: Call, inFlight: set<HookEvent>) {
    match c
    case Blocked(e) => e in inFlight
    case Ran(e, inner) => e !in inFlight && AllGuarded(inner, inFlight + {e})
    case Seeded(events, inner) => AllGuarded(inner, inFlight + events)
  }

  ghost predicate AllGuarded(calls: seq<Call>, inFlight: set<HookEvent>) {
    forall i :: 0 <= i < |calls| ==> Guarded(calls[i], inFlight)
  }

  lemma GuardedConcat(a: seq<Call>, b: seq<Call>, inFlight: set<HookEvent>)
    requires AllGuarded(a, inFlight) && AllGuarded(b, inFlight)
    ensures AllGuarded(a + b, inFlight)
  {
  }

  lemma {:induction false} ExecuteIsGuarded<D>(hooks: Registry<D>, e: HookEvent, data: D, inFlight: set<HookEvent>)
    ensures Guarded(Execute(hooks, e, data, inFlight).1, inFlight)
    decreases |KNOWN_HOOK_EVENTS - inFlight|, 0
  {
    if e !in inFlight {
      Shrinks(inFlight, {e}, e);
      ChainIsGuarded(hooks, HandlersOf(hooks, e), data, inFlight + {e});
    }
  }

  lemma {:induction false} ChainIsGuarded<D>(
      hooks: Registry<D>, rest: seq<Registration<D>>, data: D, inFlight: set<HookEvent>)
    ensures AllGuarded(Chain(hooks, rest, data, inFlight).1, inFlight)
    decreases |KNOWN_HOOK_EVENTS - inFlight|, 2, |rest|
  {
    if rest != [] {
      InvokeIsGuarded(hooks, rest[0].handler, data, inFlight);
      var (outcome, calls) := Invoke(hooks, rest[0].handler, data, inFlight);
      var data' := Applied(outcome, data);
      ChainIsGuarded(hooks, rest[1..], data', inFlight);
      GuardedConcat(calls, Chain(hooks, rest[1..], data', inFlight).1, inFlight);
    }
  }

  lemma {:induction false} InvokeIsGuarded<D>(hooks: Registry<D>, h: Handler<D>, data: D, inFlight: set<HookEvent>)
    ensures AllGuarded(Invoke(hooks, h, data, inFlight).1, inFlight)
    decreases |KNOWN_HOOK_EVENTS - inFlight|, 1, h
  {
    match h
    case Finish(_) =>
    case Branch(test, yes, no) => InvokeIsGuarded(hooks, if test(data) then yes else no, data, inFlight);
    case Fire(e, payload, onContinue, onStop) =>
      ExecuteIsGuarded(hooks, e, payload(data), inFlight);
      var (reply, call) := Execute(hooks, e, payload(data), inFlight);
      var next := if reply.go then onContinue else onStop;
      InvokeIsGuarded(hooks, next, reply.data, inFlight);
      GuardedConcat([call], Invoke(hooks, next, reply.data, inFlight).1, inFlight);
    case RunInFlight(events, body, next) =>
      Grows(inFlight, events);
      InvokeIsGuarded(hooks, body, data, inFlight + events);
      var (inside, calls) := Invoke(hooks, body, data, inFlight + events);
      if inside.Returns? {
        var data' := if inside.data.Some? then inside.data.value else data;
        InvokeIsGuarded(hooks, next, data', inFlight);
        GuardedConcat([Seeded(events, calls)], Invoke(hooks, next, data', inFlight).1, inFlight);
      }
  }

  /** How many events run inside one another along the deepest branch of the tree. */
  ghost function Nesting(c: Call): nat {
    match c
    case Blocked(_) => 0
    case Ran(_, inner) => 1 + DeepestNesting(inner)
    case Seeded(_, inner) => DeepestNesting(inner)
  }

  ghost function DeepestNesting(calls: seq<Call>): nat {
    if calls == [] then 0
    else
      var a, b := Nesting(calls[0]), DeepestNesting(calls[1..]);
      if a < b then b else a
  }

  lemma {:induction false} GuardedNesting(c: Call, inFlight: set<HookEvent>)
    requires Guarded(c, inFlight)
    ensures Nesting(c) <= |KNOWN_HOOK_EVENTS - inFlight|
    decreases c
  {
    match c
    case Blocked(_) =>
    case Ran(e, inner) =>
      Shrinks(inFlight, {e}, e);
      GuardedNestings(inner, inFlight + {e});
    case Seeded(events, inner) =>
      Grows(inFlight, events);
      GuardedNestings(inner, inFlight + events);
  }

  lemma {:induction false} GuardedNestings(calls: seq<Call>, inFlight: set<HookEvent>)
    requires AllGuarded(calls, inFlight)
    ensures DeepestNesting(calls) <= |KNOWN_HOOK_EVENTS - inFlight|
    decreases calls
  {
    if calls != [] {
      GuardedNesting(calls[0], inFlight);
      GuardedNestings(calls[1..], inFlight);
    }
  }

  /** Whatever the registry and its handlers do, events never nest deeper than the known events are many. */
  lemma CascadeDepth<D>(hooks: Registry<D>, e: HookEvent, data: D, inFlight: set<HookEvent>)
    ensures Nesting(Execute(hooks, e, data, inFlight).1) <= |KNOWN_HOOK_EVENTS - inFlight| <= 18
  {
    ExecuteIsGuarded(hooks, e, data, inFlight);
    GuardedNesting(Execute(hooks, e, data, inFlight).1, inFlight);
    KnownEventCount();
    Grows({}, inFlight);
    assert {} + inFlight == inFlight && KNOWN_HOOK_EVENTS - {} == KNOWN_HOOK_EVENTS;
  }

  /** `e` runs somewhere in the tree below a point where `e` is already running. */
  ghost predicate Reenters(c: Call, running: set<HookEvent>) {
    match c
    case Blocked(_) => false
    case Ran(e, inner) => e in running || exists i :: 0 <= i < |inner| && Reenters(inner[i], running + {e})
    case Seeded(_, inner) => exists i :: 0 <= i < |inner| && Reenters(inner[i], running)
  }

  lemma {:induction false} GuardedNeverReenters(c: Call, running: set<HookEvent>, inFlight: set<HookEvent>)
    requires Guarded(c, inFlight) && running <= inFlight
    ensures !Reenters(c, running)
  {
    match c
    case Blocked(_) =>
    case Ran(e, inner) =>
      forall i | 0 <= i < |inner|
        ensures !Reenters(inner[i], running + {e})
      {
        GuardedNeverReenters(inner[i], running + {e}, inFlight + {e});
      }
    case Seeded(events, inner) =>
      forall i | 0 <= i < |inner|
        ensures !Reenters(inner[i], running)
      {
        GuardedNeverReenters(inner[i], running, inFlight + events);
      }
  }

  /** No event occurs twice on the stack of running events. */
  lemma NoReentry<D>(hooks: Registry<D>, e: HookEvent, data: D, inFlight: set<HookEvent>)
    ensures !Reenters(Execute(hooks, e, data, inFlight).1, inFlight)
  {
    ExecuteIsGuarded(hooks, e, data, inFlight);
    GuardedNeverReenters(Execute(hooks, e, data, inFlight).1, inFlight, inFlight);
  }

  // ---------------------------------------------------------------- the chain as a fold

  function ChainReply<D>(hooks: Registry<D>, rest: seq<Registration<D>>, data: D, inFlight: set<HookEvent>): Reply<D> {
    Chain(hooks, rest, data, inFlight).0
  }

  /** A chain is a fold: the second part runs on what the first left, unless the first stopped it. */
  lemma {:induction false} ChainConcat<D>(
      hooks: Registry<D>, a: seq<Registration<D>>, b: seq<Registration<D>>, data: D, inFlight: set<HookEvent>)
    ensures var first := ChainReply(hooks, a, data, inFlight);
            ChainReply(hooks, a + b, data, inFlight)
                == if first.go then ChainReply(hooks, b, first.data, inFlight) else first
    decreases |a|
  {
    if a == [] {
      assert a + b == b;
    } else {
      assert (a + b)[1..] == a[1..] + b;
      var outcome := Invoke(hooks, a[0].handler, data, inFlight).0;
      ChainConcat(hooks, a[1..], b, Applied(outcome, data), inFlight);
    }
  }

  /** The handler throws, or lets the chain go on with an error field or without data. */
  ghost predicate HasNoEffect<D>(o: Outcome<D>) {
    o.Throws? || (o.go && (!o.error.Undefined? || o.data.None?))
  }

  /** A handler that fails where the chain reaches it is observationally the same as its absence. */
  lemma FailingHandlerIsAbsent<D>(
    hooks: Registry<D>, before: seq<Registration<D>>, r: Registration<D>, after: seq<Registration<D>>,
    data: D, inFlight: set<HookEvent>)
    requires var reached := ChainReply(hooks, before, data, inFlight);
             reached.go ==> HasNoEffect(Invoke(hooks, r.handler, reached.data, inFlight).0)
    ensures ChainReply(hooks, before + [r] + after, data, inFlight) == ChainReply(hooks, before + after, data, inFlight)
  {
    var reached := ChainReply(hooks, before, data, inFlight);
    assert before + [r] + after == before + ([r] + after);
    assert ([r] + after)[1..] == after;
    ChainConcat(hooks, before, [r] + after, data, inFlight);
    ChainConcat(hooks, before, after, data, inFlight);
  }

  /**
   * A handler that stops the chain decides the reply; nothing behind it is reached. Its data is the reply's
   * unless an error field comes with it.
   */
  lemma StoppingHandlerDecides<D>(
    hooks: Registry<D>, before: seq<Registration<D>>, r: Registration<D>, after: seq<Registration<D>>,
    data: D, inFlight: set<HookEvent>, o: Outcome<D>)
    requires var reached := ChainReply(hooks, before, data, inFlight);
             reached.go && o == Invoke(hooks, r.handler, reached.data, inFlight).0 && o.Returns? && !o.go
    ensures var reached := ChainReply(hooks, before, data, inFlight);
            ChainReply(hooks, before + [r] + after, data, inFlight) ==
            Reply(false, if o.error.Undefined? && o.data.Some? then o.data.value else reached.data)
  {
    assert before + [r] + after == before + ([r] + after);
    assert ([r] + after)[0] == r;
    ChainConcat(hooks, before, [r] + after, data, inFlight);
  }

  /** A handler that lets the chain go on with new data hands them to what stands behind it. */
  lemma ContinuingHandlerPassesOn<D>(
    hooks: Registry<D>, before: seq<Registration<D>>, r: Registration<D>, after: seq<Registration<D>>,
    data: D, inFlight: set<HookEvent>, d: D)
    requires var reached := ChainReply(hooks, before, data, inFlight);
             reached.go && Invoke(hooks, r.handler, reached.data, inFlight).0 == Returns(true, Some(d), Undefined)
    ensures ChainReply(hooks, before + [r] + after, data, inFlight) == ChainReply(hooks, after, d, inFlight)
  {
    assert before + [r] + after == before + ([r] + after);
    assert ([r] + after)[0] == r && ([r] + after)[1..] == after;
    ChainConcat(hooks, before, [r] + after, data, inFlight);
  }

  /** The same for a handler that only computes, at the head of a chain. */
  lemma FinishedHandlerPassesOn<D>(
    hooks: Registry<D>, r: Registration<D>, after: seq<Registration<D>>, data: D, inFlight: set<HookEvent>,
    f: D -> Outcome<D>, d: D)
    requires r.handler == Finish(f) && f(data) == Returns(true, Some(d), Undefined)
    ensures ChainReply(hooks, [r] + after, data, inFlight) == ChainReply(hooks, after, d, inFlight)
  {
    assert [] + [r] + after == [r] + after;
    assert ChainReply(hooks, [], data, inFlight) == Reply(true, data);
    ContinuingHandlerPassesOn(hooks, [], r, after, data, inFlight, d);
  }

  /** What a pipeline of functions makes of a value, first function first. */
  function Piped<D>(fs: seq<D -> D>, data: D): D {
    if fs == [] then data else Piped(fs[1..], fs[0](data))
  }

  /** Handlers that each continue with changed data compose in the order of the chain. */
  lemma {:induction false} HandlersCompose<D(!new)>(
      hooks: Registry<D>, rs: seq<Registration<D>>, fs: seq<D -> D>, data: D, inFlight: set<HookEvent>)
    requires |rs| == |fs|
    requires forall i, d :: 0 <= i < |rs| ==>
      Invoke(hooks, rs[i].handler, d, inFlight).0 == Returns(true, Some(fs[i](d)), Undefined)
    ensures ChainReply(hooks, rs, data, inFlight) == Reply(true, Piped(fs, data))
    decreases |rs|
  {
    if rs != [] {
      assert Invoke(hooks, rs[0].handler, data, inFlight).0 == Returns(true, Some(fs[0](data)), Undefined);
      assert rs == [] + [rs[0]] + rs[1..];
      ContinuingHandlerPassesOn(hooks, [], rs[0], rs[1..], data, inFlight, fs[0](data));
      HandlersCompose(hooks, rs[1..], fs[1..], fs[0](data), inFlight);
    }
  }

  /** An event that is not in flight runs every handler registered for it; any other leaves the data alone. */
  lemma ExecuteRuns<D>(hooks: Registry<D>, e: HookEvent, data: D, inFlight: set<HookEvent>)
    ensures e in hooks && e !in inFlight ==>
              Execute(hooks, e, data, inFlight).0 == ChainReply(hooks, hooks[e], data, inFlight + {e})
    ensures e !in hooks || e in inFlight ==> Execute(hooks, e, data, inFlight).0 == Reply(true, data)
  {
    if e !in inFlight {
      Shrinks(inFlight, {e}, e);
      assert ChainReply(hooks, [], data, inFlight + {e}) == Reply(true, data);
    }
  }

  /** One handler alone: what it returns is the reply. */
  lemma OneHandlerReply<D>(
      hooks: Registry<D>, e: HookEvent, r: Registration<D>, data: D, f: D -> Outcome<D>, go: bool, d: D)
    requires e in hooks && hooks[e] == [r] && r.handler == Finish(f) && f(data) == Returns(go, Some(d), Undefined)
    ensures Execute(hooks, e, data, {}).0 == Reply(go, d)
  {
    ExecuteRuns(hooks, e, data, {});
    assert hooks[e][1..] == [];
    assert ChainReply(hooks, [], d, {} + {e}) == Reply(true, d);
  }

  /**
   * A handler that fires an event sees what the event's handlers replied; fired while in flight, be it by
   * a handler of the event itself or in a part run with the event marked, it sees its own data again.
   */
  lemma {:induction false} FiredReplyReachesHandler<D>(
      hooks: Registry<D>, e: HookEvent, payload: D -> D, onContinue: Handler<D>, onStop: Handler<D>, data: D,
      inFlight: set<HookEvent>)
    ensures var h, reply := Fire(e, payload, onContinue, onStop), Execute(hooks, e, payload(data), inFlight).0;
      Invoke(hooks, h, data, inFlight).0 ==
      Invoke(hooks, if reply.go then onContinue else onStop, reply.data, inFlight).0
    ensures e in inFlight ==>
      Invoke(hooks, Fire(e, payload, onContinue, onStop), data, inFlight).0 ==
      Invoke(hooks, onContinue, payload(data), inFlight).0
  {
  }

  /** What a part run with more events marked returns is what the rest of the handler sees; it may throw for it. */
  lemma {:induction false} SeededPartPassesOn<D>(
      hooks: Registry<D>, events: set<HookEvent>, body: Handler<D>, next: Handler<D>, data: D, inFlight: set<HookEvent>,
      inside: Outcome<D>)
    requires inside == Invoke(hooks, body, data, inFlight + events).0
    ensures Invoke(hooks, RunInFlight(events, body, next), data, inFlight).0 ==
            if inside.Throws? then Throws
            else Invoke(hooks, next, if inside.data.Some? then inside.data.value else data, inFlight).0
  {
    Grows(inFlight, events);
  }
}
