/**
 * A plugin's outbound requests (src/core/plugins/plugin-net.ts:3-20 and 92-160): the counter of calls in flight
 * and the capped body loop, interleaved over any number of calls.
 *
 * The counter is raised before the options are read, and the block that lowers it again starts behind that. A
 * call whose options are `null` throws in between, and its slot is lost: the default for missing options does
 * not apply to `null`, which a worker may pass.
 */
module PluginFetch {
  import opened Wrappers

  type Bytes = seq<bv8>

  const MAX_INFLIGHT_FETCHES: nat := 16
  const MAX_BODY_BYTES: nat := 10 * 1024 * 1024

  // ---------------------------------------------------------------- one body

  /** One result of reading the body: a chunk, or no value and not done yet. */
  datatype Read = Chunk(bytes: Bytes) | Nothing

  datatype Body = Complete(bytes: Bytes) | TooLarge

  /** All bytes of the chunks, in order. */
  function Contents(results: seq<Read>): Bytes {
    if results == [] then []
    else Contents(results[..|results| - 1]) + match results[|results| - 1] case Chunk(bytes) => bytes case Nothing => []
  }

  lemma {:induction false} ContentsGrow(results: seq<Read>, i: nat)
    requires i <= |results|
    ensures |Contents(results[..i])| <= |Contents(results)|
    decreases |results|
  {
    if i == |results| {
      assert results[..i] == results;
    } else {
      assert results[..|results| - 1][..i] == results[..i];
      ContentsGrow(results[..|results| - 1], i);
    }
  }

  /**
   * The loop over the reader: the body is everything that was read, exactly unless that exceeds the cap; the
   * chunk that exceeds it is not kept, and nothing behind it is read.
   */
  method ReadBody(results: seq<Read>) returns (body: Body, consumed: nat)
    ensures body == if |Contents(results)| <= MAX_BODY_BYTES then Complete(Contents(results)) else TooLarge
    ensures consumed <= |results| && (body.Complete? ==> consumed == |results|)
    ensures body.TooLarge? ==>
      consumed > 0 && |Contents(results[..consumed - 1])| <= MAX_BODY_BYTES < |Contents(results[..consumed])|
  {
    var chunks: Bytes := [];
    var total := 0;
    consumed := 0;
    while consumed < |results|
      invariant consumed <= |results|
      invariant chunks == Contents(results[..consumed]) && total == |chunks| <= MAX_BODY_BYTES
    {
      assert results[..consumed + 1][..consumed] == results[..consumed];
      match results[consumed] {
        case Nothing =>
          consumed := consumed + 1;
        case Chunk(bytes) =>
          consumed := consumed + 1;
          total := total + |bytes|;
          if total > MAX_BODY_BYTES {
            ContentsGrow(results, consumed);
            return TooLarge, consumed;
          }
          chunks := chunks + bytes;
      }
    }
    assert results[..consumed] == results;
    return Complete(chunks), consumed;
  }

  // ---------------------------------------------------------------- calls in flight

  /** A call that holds a slot; while it cancels its reader it still holds what it has buffered. */
  datatype Call =
    | Requesting
    | Reading(results: seq<Read>, buffer: Bytes)
    | Cancelling(buffer: Bytes)

  /** How a call ends; a response is recorded with what was read for it. */
  datatype Outcome = Response(results: seq<Read>, body: Bytes) | Error

  /**
   * The counter, the calls that have not ended, oldest first, and a record of those that have, of those that were
   * refused, and of the slots that were lost.
   */
  datatype State = State(inFlightFetches: int, calls: seq<Call>, lost: nat, refused: nat, outcomes: seq<Outcome>)

  const START := State(0, [], 0, 0, [])

  /** What becomes of a call before its first await. */
  datatype Admission = Refused | Threw | Started

  datatype Event =
    | Called(nullInit: bool)
    | Responded(at: nat, declared: Option<int>)
    | BodyRead(at: nat, read: Read)
    | BodyDone(at: nat)
    | Cancelled(at: nat)
    | Failed(at: nat)

  /** The `finally` block: the call gives its slot back. */
  function End(s: State, at: nat, outcome: Outcome): State
    requires at < |s.calls|
  {
    s.(inFlightFetches := s.inFlightFetches - 1,
       calls := s.calls[..at] + s.calls[at + 1..],
       outcomes := s.outcomes + [outcome])
  }

  /** The cap is checked first, then the slot is taken, then the options are read. */
  function Admitted(s: State, nullInit: bool): Admission {
    if s.inFlightFetches >= MAX_INFLIGHT_FETCHES then Refused else if nullInit then Threw else Started
  }

  function OnCall(s: State, nullInit: bool): State {
    match Admitted(s, nullInit)
    case Refused => s.(refused := s.refused + 1)
    case Threw => s.(inFlightFetches := s.inFlightFetches + 1, lost := s.lost + 1)
    case Started => s.(inFlightFetches := s.inFlightFetches + 1, calls := s.calls + [Requesting])
  }

  /** The response arrives; `declared` is its length header where that is a finite number. */
  function OnResponse(s: State, at: nat, declared: Option<int>): State
    requires at < |s.calls|
  {
    if declared.Some? && declared.value > MAX_BODY_BYTES then End(s, at, Error)
    else s.(calls := s.calls[at := Reading([], [])])
  }

  function OnRead(s: State, at: nat, read: Read): State
    requires at < |s.calls| && s.calls[at].Reading?
  {
    var call := s.calls[at];
    match read
    case Nothing => s.(calls := s.calls[at := Reading(call.results + [read], call.buffer)])
    case Chunk(bytes) =>
      if |call.buffer| + |bytes| > MAX_BODY_BYTES then s.(calls := s.calls[at := Cancelling(call.buffer)])
      else s.(calls := s.calls[at := Reading(call.results + [read], call.buffer + bytes)])
  }

  /** What each call can meet next; a request or a read may fail, time out or be aborted at any moment. */
  predicate Possible(s: State, e: Event) {
    match e
    case Called(_) => true
    case Responded(at, _) => at < |s.calls| && s.calls[at].Requesting?
    case BodyRead(at, _) => at < |s.calls| && s.calls[at].Reading?
    case BodyDone(at) => at < |s.calls| && s.calls[at].Reading?
    case Cancelled(at) => at < |s.calls| && s.calls[at].Cancelling?
    case Failed(at) => at < |s.calls| && !s.calls[at].Cancelling?
  }

  function Step(s: State, e: Event): State
    requires Possible(s, e)
  {
    match e
    case Called(nullInit) => OnCall(s, nullInit)
    case Responded(at, declared) => OnResponse(s, at, declared)
    case BodyRead(at, read) => OnRead(s, at, read)
    case BodyDone(at) => End(s, at, Response(s.calls[at].results, s.calls[at].buffer))
    case Cancelled(at) => End(s, at, Error)
    case Failed(at) => End(s, at, Error)
  }

  /** `performPluginFetch`, cut at its awaits; `calls` are its suspended activations. */
  class Gate {
    var inFlightFetches: int
    var calls: seq<Call>
    ghost var lost: nat
    var refused: nat
    var outcomes: seq<Outcome>

    ghost function Value(): State
      reads this
    {
      State(inFlightFetches, calls, lost, refused, outcomes)
    }

    constructor ()
      ensures Value() == START
    {
      inFlightFetches, calls, lost, refused, outcomes := 0, [], 0, 0, [];
    }

    /** Up to the first await: checks the cap, takes a slot, reads the options, and starts the request. */
    method PerformPluginFetch(nullInit: bool) returns (admission: Admission)
      modifies this
      ensures Value() == OnCall(old(Value()), nullInit) && admission == Admitted(old(Value()), nullInit)
    {
      if inFlightFetches >= MAX_INFLIGHT_FETCHES {
        refused := refused + 1;
        return Refused;
      }
      inFlightFetches := inFlightFetches + 1;
      if nullInit {
        lost := lost + 1;
        return Threw; // reading `timeoutMs` of null throws outside the try block
      }
      calls := calls + [Requesting];
      return Started;
    }

    method Release(at: nat, outcome: Outcome)
      requires at < |calls|
      modifies this
      ensures Value() == End(old(Value()), at, outcome)
    {
      inFlightFetches := inFlightFetches - 1;
      calls := calls[..at] + calls[at + 1..];
      outcomes := outcomes + [outcome];
    }

    method Responded(at: nat, declared: Option<int>)
      requires at < |calls| && calls[at].Requesting?
      modifies this
      ensures Value() == OnResponse(old(Value()), at, declared)
    {
      if declared.Some? && declared.value > MAX_BODY_BYTES {
        Release(at, Error);
      } else {
        calls := calls[at := Reading([], [])];
      }
    }

    /** One turn of the body loop. */
    method BodyRead(at: nat, read: Read)
      requires at < |calls| && calls[at].Reading?
      modifies this`calls
      ensures Value() == OnRead(old(Value()), at, read)
    {
      var Reading(results, buffer) := calls[at];
      match read {
        case Nothing => calls := calls[at := Reading(results + [read], buffer)];
        case Chunk(bytes) =>
          var total := |buffer| + |bytes|;
          calls := calls[at := if total > MAX_BODY_BYTES then Cancelling(buffer)
              else Reading(results + [read], buffer + bytes)];
      }
    }

    method BodyDone(at: nat)
      requires at < |calls| && calls[at].Reading?
      modifies this
      ensures Value() == End(old(Value()), at, Response(old(calls)[at].results, old(calls)[at].buffer))
    {
      Release(at, Response(calls[at].results, calls[at].buffer));
    }
  }

  // ---------------------------------------------------------------- runs

  predicate PossibleRun(s: State, events: seq<Event>)
    decreases |events|
  {
    events == [] || (Possible(s, events[0]) && PossibleRun(Step(s, events[0]), events[1..]))
  }

  function Run(s: State, events: seq<Event>): State
    requires PossibleRun(s, events)
    decreases |events|
  {
    if events == [] then s else Run(Step(s, events[0]), events[1..])
  }

  function Buffered(call: Call): Bytes {
    match call
    case Requesting => []
    case Reading(_, buffer) => buffer
    case Cancelling(buffer) => buffer
  }

  /** All bytes that the calls hold between them. */
  function TotalBuffered(calls: seq<Call>): nat {
    if calls == [] then 0 else TotalBuffered(calls[..|calls| - 1]) + |Buffered(calls[|calls| - 1])|
  }

  /** A call holds no more than the cap, and while it reads it holds all it has read. */
  ghost predicate CallInv(call: Call) {
    && |Buffered(call)| <= MAX_BODY_BYTES
    && (call.Reading? ==> call.buffer == Contents(call.results))
  }

  ghost predicate AllCalls(calls: seq<Call>) {
    forall i :: 0 <= i < |calls| ==> CallInv(calls[i])
  }

  /** A response is the whole of what was read, and no more than the cap. */
  ghost predicate OutcomeInv(outcome: Outcome) {
    outcome.Response? ==> outcome.body == Contents(outcome.results) && |outcome.body| <= MAX_BODY_BYTES
  }

  ghost predicate Inv(s: State) {
    && s.inFlightFetches == |s.calls| + s.lost <= MAX_INFLIGHT_FETCHES
    && AllCalls(s.calls)
    && forall i :: 0 <= i < |s.outcomes| ==> OutcomeInv(s.outcomes[i])
  }

  lemma EndKeepsInv(s: State, at: nat, outcome: Outcome)
    requires Inv(s) && at < |s.calls| && OutcomeInv(outcome)
    ensures Inv(End(s, at, outcome))
  {
  }

  /** A chunk adds its bytes at the end; a read without a value adds nothing. */
  lemma ReadKeepsCall(results: seq<Read>, read: Read)
    ensures Contents([]) == []
    ensures Contents(results + [read])
        == match read case Chunk(bytes) => Contents(results) + bytes case Nothing => Contents(results)
  {
    assert (results + [read])[..|results|] == results;
  }

  lemma ReplaceKeepsInv(s: State, at: nat, call: Call)
    requires Inv(s) && at < |s.calls| && CallInv(call)
    ensures Inv(s.(calls := s.calls[at := call]))
  {
  }

  lemma ReadKeepsInv(s: State, at: nat, read: Read)
    requires Inv(s) && at < |s.calls| && s.calls[at].Reading?
    ensures Inv(OnRead(s, at, read))
  {
    var Reading(results, buffer) := s.calls[at];
    ReadKeepsCall(results, read);
    match read {
      case Nothing => ReplaceKeepsInv(s, at, Reading(results + [read], buffer));
      case Chunk(bytes) =>
        if |buffer| + |bytes| > MAX_BODY_BYTES {
          ReplaceKeepsInv(s, at, Cancelling(buffer));
        } else {
          ReplaceKeepsInv(s, at, Reading(results + [read], buffer + bytes));
        }
    }
  }

  lemma StepKeepsInv(s: State, e: Event)
    requires Inv(s) && Possible(s, e)
    ensures Inv(Step(s, e))
  {
    match e {
      case Called(_) =>
      case Responded(at, declared) =>
        EndKeepsInv(s, at, Error);
        ReplaceKeepsInv(s, at, Reading([], []));
      case BodyRead(at, read) => ReadKeepsInv(s, at, read);
      case BodyDone(at) => EndKeepsInv(s, at, Response(s.calls[at].results, s.calls[at].buffer));
      case Cancelled(at) => EndKeepsInv(s, at, Error);
      case Failed(at) => EndKeepsInv(s, at, Error);
    }
  }

  lemma {:induction false} RunKeepsInv(s: State, events: seq<Event>)
    requires Inv(s) && PossibleRun(s, events)
    ensures Inv(Run(s, events))
    decreases |events|
  {
    if events != [] {
      StepKeepsInv(s, events[0]);
      RunKeepsInv(Step(s, events[0]), events[1..]);
    }
  }

  lemma {:induction false} TotalIsBounded(calls: seq<Call>)
    requires AllCalls(calls)
    ensures TotalBuffered(calls) <= |calls| * MAX_BODY_BYTES
  {
    if calls != [] {
      TotalIsBounded(calls[..|calls| - 1]);
    }
  }

  lemma AllIsBounded(s: State)
    requires Inv(s)
    ensures TotalBuffered(s.calls) <= MAX_INFLIGHT_FETCHES * MAX_BODY_BYTES
    ensures forall i :: 0 <= i < |s.outcomes| && s.outcomes[i].Response? ==>
              s.outcomes[i].body == Contents(s.outcomes[i].results) && |s.outcomes[i].body| <= 10485760
    ensures forall i :: 0 <= i < |s.calls| && !s.calls[i].Requesting? ==> |s.calls[i].buffer| <= 10485760
  {
    TotalIsBounded(s.calls);
    assert forall i :: 0 <= i < |s.calls| ==> CallInv(s.calls[i]);
    assert forall i :: 0 <= i < |s.outcomes| ==> OutcomeInv(s.outcomes[i]);
  }

  /** How many calls with null options were accepted. */
  function AcceptedNulls(s: State, events: seq<Event>): nat
    requires PossibleRun(s, events)
    decreases |events|
  {
    if events == [] then 0
    else
      AcceptedNulls(Step(s, events[0]), events[1..]) +
      if events[0].Called? && Admitted(s, events[0].nullInit).Threw? then 1 else 0
  }

  /** Each of them loses a slot, and nothing gives it back. */
  lemma {:induction false} LostAreAcceptedNulls(s: State, events: seq<Event>)
    requires PossibleRun(s, events)
    ensures Run(s, events).lost == s.lost + AcceptedNulls(s, events)
    decreases |events|
  {
    if events != [] {
      LostAreAcceptedNulls(Step(s, events[0]), events[1..]);
    }
  }

  /**
   * Every run: the counter is the number of calls in flight and of slots lost to null options, at most 16; the
   * calls hold at most 10 MiB each and 16 x 10 MiB between them; every response is the whole of what was read for
   * it; and the next call is refused exactly when calls and lost slots make 16.
   */
  lemma EveryRun(events: seq<Event>, nullInit: bool)
    requires PossibleRun(START, events)
    ensures
      var s := Run(START, events);
      && s.inFlightFetches == |s.calls| + AcceptedNulls(START, events) <= MAX_INFLIGHT_FETCHES
      && |s.calls| <= 16 && TotalBuffered(s.calls) <= MAX_INFLIGHT_FETCHES * MAX_BODY_BYTES
      && (forall i :: 0 <= i < |s.calls| && !s.calls[i].Requesting? ==> |s.calls[i].buffer| <= 10485760)
      && (forall i :: 0 <= i < |s.outcomes| && s.outcomes[i].Response? ==>
            s.outcomes[i].body == Contents(s.outcomes[i].results) && |s.outcomes[i].body| <= 10485760)
      && (Admitted(s, nullInit).Refused? <==> |s.calls| + AcceptedNulls(START, events) == MAX_INFLIGHT_FETCHES)
  {
    RunKeepsInv(START, events);
    LostAreAcceptedNulls(START, events);
    AllIsBounded(Run(START, events));
  }

  /** The counter is the number of calls in flight if and only if no call with null options was accepted. */
  lemma CounterIsExactIff(events: seq<Event>)
    requires PossibleRun(START, events)
    ensures Run(START, events).inFlightFetches == |Run(START, events).calls| <==> AcceptedNulls(START, events) == 0
  {
    EveryRun(events, false);
  }

  function NullCalls(n: nat): seq<Event> {
    seq(n, _ => Called(true))
  }

  /** Calls with null options raise the counter one by one. */
  lemma {:induction false} NullCallsCount(s: State, n: nat)
    requires s.inFlightFetches + n <= MAX_INFLIGHT_FETCHES
    ensures PossibleRun(s, NullCalls(n))
    ensures Run(s, NullCalls(n)) == s.(inFlightFetches := s.inFlightFetches + n, lost := s.lost + n)
    decreases n
  {
    if n > 0 {
      assert NullCalls(n)[1..] == NullCalls(n - 1);
      NullCallsCount(OnCall(s, true), n - 1);
    }
  }

  /** After sixteen of them, with no call in flight, every call is refused. */
  lemma SixteenNullCalls(nullInit: bool)
    ensures PossibleRun(START, NullCalls(16))
    ensures var s := Run(START, NullCalls(16));
            s.calls == [] && s.lost == 16 && Admitted(s, nullInit).Refused?
  {
    NullCallsCount(START, 16);
  }

  /** Once every slot is lost it stays so: nothing is in flight and every call is refused. */
  lemma {:induction false} ExhaustedForGood(s: State, events: seq<Event>, nullInit: bool)
    requires Inv(s) && s.lost == MAX_INFLIGHT_FETCHES && PossibleRun(s, events)
    ensures var end := Run(s, events);
            end.calls == [] && end.outcomes == s.outcomes && Admitted(end, nullInit).Refused?
    decreases |events|
  {
    if events != [] {
      StepKeepsInv(s, events[0]);
      ExhaustedForGood(Step(s, events[0]), events[1..], nullInit);
    }
  }

  lemma RemoveAt(calls: seq<Call>, at: nat)
    requires at < |calls|
    ensures multiset(calls[..at] + calls[at + 1..]) == multiset(calls) - multiset{calls[at]}
  {
    assert calls == calls[..at] + [calls[at]] + calls[at + 1..];
  }

  /** Whichever way a call in flight ends, its slot is free again, and the other calls are as they were. */
  lemma EndFreesOneSlot(s: State, e: Event, at: nat)
    requires Inv(s) && Possible(s, e) && at < |s.calls|
    requires e == BodyDone(at) || e == Cancelled(at) || e == Failed(at)
    ensures
      var next := Step(s, e);
      && next.inFlightFetches == s.inFlightFetches - 1 < MAX_INFLIGHT_FETCHES && next.lost == s.lost
      && Admitted(next, false).Started?
      && multiset(next.calls) == multiset(s.calls) - multiset{s.calls[at]}
  {
    RemoveAt(s.calls, at);
  }

  // ---------------------------------------------------------------- a call from its start to its end

  lemma {:induction false} RunConcat(s: State, a: seq<Event>, b: seq<Event>)
    requires PossibleRun(s, a) && PossibleRun(Run(s, a), b)
    ensures PossibleRun(s, a + b) && Run(s, a + b) == Run(Run(s, a), b)
    decreases |a|
  {
    if a == [] {
      assert a + b == b;
    } else {
      assert (a + b)[1..] == a[1..] + b;
      RunConcat(Step(s, a[0]), a[1..], b);
    }
  }

  lemma RunOne(s: State, e: Event)
    requires Possible(s, e)
    ensures PossibleRun(s, [e]) && Run(s, [e]) == Step(s, e)
  {
    assert [e][1..] == [];
  }

  function Reads(at: nat, results: seq<Read>): seq<Event> {
    if results == [] then [] else Reads(at, results[..|results| - 1]) + [BodyRead(at, results[|results| - 1])]
  }

  lemma OneReadFits(s: State, at: nat, results: seq<Read>, buffer: Bytes, read: Read, after: Bytes)
    requires at < |s.calls| && s.calls[at] == Reading(results, buffer) && |after| <= MAX_BODY_BYTES
    requires after == match read case Chunk(bytes) => buffer + bytes case Nothing => buffer
    ensures Step(s, BodyRead(at, read)) == s.(calls := s.calls[at := Reading(results + [read], after)])
  {
  }

  lemma UpdateTwice(calls: seq<Call>, at: nat, first: Call, second: Call)
    requires at < |calls|
    ensures calls[at := first][at := second] == calls[at := second]
  {
  }

  lemma ReadIsKept(s: State, t: State, at: nat, results: seq<Read>, read: Read)
    requires at < |s.calls| && |Contents(results + [read])| <= MAX_BODY_BYTES
    requires t == s.(calls := s.calls[at := Reading(results, Contents(results))])
    ensures Possible(t, BodyRead(at, read))
    ensures Step(t, BodyRead(at, read)) ==
            s.(calls := s.calls[at := Reading(results + [read], Contents(results + [read]))])
  {
    var buffer, after := Contents(results), Contents(results + [read]);
    ReadKeepsCall(results, read);
    OneReadFits(t, at, results, buffer, read, after);
    UpdateTwice(s.calls, at, Reading(results, buffer), Reading(results + [read], after));
  }

  lemma FewerReads(results: seq<Read>)
    requires results != []
    ensures var n := |results| - 1;
            results == results[..n] + [results[n]] && |Contents(results[..n])| <= |Contents(results)|
  {
    ContentsGrow(results, |results| - 1);
  }

  /** Reads that fit are all kept. */
  lemma {:induction false} ReadsAreKept(s: State, at: nat, results: seq<Read>)
    requires at < |s.calls| && s.calls[at] == Reading([], []) && |Contents(results)| <= MAX_BODY_BYTES
    ensures PossibleRun(s, Reads(at, results))
    ensures Run(s, Reads(at, results)) == s.(calls := s.calls[at := Reading(results, Contents(results))])
    decreases |results|
  {
    if results == [] {
      assert s.calls[at := Reading([], [])] == s.calls;
    } else {
      var n := |results| - 1;
      FewerReads(results);
      ReadsAreKept(s, at, results[..n]);
      var mid := Run(s, Reads(at, results[..n]));
      ReadIsKept(s, mid, at, results[..n], results[n]);
      RunOne(mid, BodyRead(at, results[n]));
      RunConcat(s, Reads(at, results[..n]), [BodyRead(at, results[n])]);
    }
  }

  /** A call that is let in and answered with no declared length, or one within the cap. */
  lemma CallIsAnswered(s: State, declared: Option<int>)
    requires s.inFlightFetches < MAX_INFLIGHT_FETCHES
    requires declared.None? || declared.value <= 10485760
    ensures var events := [Called(false), Responded(|s.calls|, declared)];
            && PossibleRun(s, events)
            && Run(s, events) == s.(inFlightFetches := s.inFlightFetches + 1, calls := s.calls + [Reading([], [])])
  {
    var let := s.(inFlightFetches := s.inFlightFetches + 1, calls := s.calls + [Requesting]);
    assert let.calls[|s.calls| := Reading([], [])] == s.calls + [Reading([], [])];
    RunOne(s, Called(false));
    RunOne(let, Responded(|s.calls|, declared));
    RunConcat(s, [Called(false)], [Responded(|s.calls|, declared)]);
    assert [Called(false)] + [Responded(|s.calls|, declared)] == [Called(false), Responded(|s.calls|, declared)];
  }

  /** The events of a call up to the end of its body. */
  function Fetch(at: nat, declared: Option<int>, results: seq<Read>): seq<Event> {
    [Called(false), Responded(at, declared)] + Reads(at, results)
  }

  lemma BodyIsRead(s: State, declared: Option<int>, results: seq<Read>)
    requires s.inFlightFetches < MAX_INFLIGHT_FETCHES && |Contents(results)| <= MAX_BODY_BYTES
    requires declared.None? || declared.value <= 10485760
    ensures PossibleRun(s, Fetch(|s.calls|, declared, results))
    ensures Run(s, Fetch(|s.calls|, declared, results)) ==
            s.(inFlightFetches := s.inFlightFetches + 1, calls := s.calls + [Reading(results, Contents(results))])
  {
    CallIsAnswered(s, declared);
    var open := s.(inFlightFetches := s.inFlightFetches + 1, calls := s.calls + [Reading([], [])]);
    ReadsAreKept(open, |s.calls|, results);
    RunConcat(s, [Called(false), Responded(|s.calls|, declared)], Reads(|s.calls|, results));
    assert open.calls[|s.calls| := Reading(results, Contents(results))]
        == s.calls + [Reading(results, Contents(results))];
  }

  lemma LastCallEnds(s: State, call: Call, outcome: Outcome)
    ensures End(s.(inFlightFetches := s.inFlightFetches + 1, calls := s.calls + [call]), |s.calls|, outcome) ==
            s.(outcomes := s.outcomes + [outcome])
  {
    assert (s.calls + [call])[..|s.calls|] + (s.calls + [call])[|s.calls| + 1..] == s.calls;
  }

  /** A fetch whose body fits responds with every byte that was read, and leaves the gate as it found it. */
  lemma FetchCompletes(s: State, declared: Option<int>, results: seq<Read>)
    requires s.inFlightFetches < MAX_INFLIGHT_FETCHES && |Contents(results)| <= 10485760
    requires declared.None? || declared.value <= 10485760
    ensures var events := Fetch(|s.calls|, declared, results) + [BodyDone(|s.calls|)];
            && PossibleRun(s, events)
            && Run(s, events) == s.(outcomes := s.outcomes + [Response(results, Contents(results))])
  {
    BodyIsRead(s, declared, results);
    var read := Run(s, Fetch(|s.calls|, declared, results));
    RunOne(read, BodyDone(|s.calls|));
    RunConcat(s, Fetch(|s.calls|, declared, results), [BodyDone(|s.calls|)]);
    LastCallEnds(s, Reading(results, Contents(results)), Response(results, Contents(results)));
  }

  /** The chunk that goes over the cap cancels the body, and the call ends in an error. */
  lemma FetchOverflows(s: State, declared: Option<int>, results: seq<Read>, chunk: Bytes)
    requires s.inFlightFetches < MAX_INFLIGHT_FETCHES
    requires |Contents(results)| <= 10485760 < |Contents(results)| + |chunk|
    requires declared.None? || declared.value <= 10485760
    ensures var at := |s.calls|;
            var events := Fetch(at, declared, results) + [BodyRead(at, Chunk(chunk)), Cancelled(at)];
            PossibleRun(s, events) && Run(s, events) == s.(outcomes := s.outcomes + [Error])
  {
    var at, body := |s.calls|, Contents(results);
    BodyIsRead(s, declared, results);
    var read := Run(s, Fetch(at, declared, results));
    var over := s.(inFlightFetches := s.inFlightFetches + 1, calls := s.calls + [Cancelling(body)]);
    assert (s.calls + [Reading(results, body)])[at := Cancelling(body)] == s.calls + [Cancelling(body)];
    RunOne(read, BodyRead(at, Chunk(chunk)));
    RunOne(over, Cancelled(at));
    RunConcat(read, [BodyRead(at, Chunk(chunk))], [Cancelled(at)]);
    assert [BodyRead(at, Chunk(chunk))] + [Cancelled(at)] == [BodyRead(at, Chunk(chunk)), Cancelled(at)];
    RunConcat(s, Fetch(at, declared, results), [BodyRead(at, Chunk(chunk)), Cancelled(at)]);
    LastCallEnds(s, Cancelling(body), Error);
  }

  /** A declared length above the cap ends the call before anything is read. */
  lemma DeclaredTooLarge(s: State, at: nat, declared: int)
    requires at < |s.calls| && s.calls[at].Requesting? && declared > 10485760
    ensures var next := Step(s, Responded(at, Some(declared)));
            && next.outcomes == s.outcomes + [Error] && next.inFlightFetches == s.inFlightFetches - 1
            && multiset(next.calls) == multiset(s.calls) - multiset{Requesting}
  {
    RemoveAt(s.calls, at);
  }
}
