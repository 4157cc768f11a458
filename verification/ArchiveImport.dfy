/**
 * Importing an archive (src/common/storage/storage.service.ts:276-354): the callbacks of the extracting stream as
 * steps over the counters they share.
 *
 * The stream hands out one entry at a time, and the next one, or its end, only after `next` has been called;
 * it may report an error at any moment. What arrives after the import has settled is ignored.
 */
module ArchiveImport {
  import opened Arithmetic

  type Bytes = seq<bv8>

  /** Both limits are positive, as `positiveIntFromEnv` makes them. */
  datatype Limits = Limits(entries: nat, entryBytes: nat)

  datatype Outcome = Resolved(importedCount: nat) | Rejected(reason: Reason)

  datatype Reason = TooManyEntries | EntryTooLarge(name: string) | StreamError

  datatype File = File(name: string, data: Bytes)

  /** The entry at hand: being read into `chunks`, or being written. */
  datatype Entry = Idle | Reading(name: string, arrived: Bytes, chunks: Bytes, aborted: bool) | Writing(name: string)

  datatype Event =
    | EntryStarted(name: string)
    | Data(chunk: Bytes)
    | EntryEnded
    | WriteEnded(ok: bool)
    | Finished
    | Failed

  /**
   * The import, with a record of the writes started, of the entries behind them as they arrived, of the writes
   * that failed, and of the promise's settlements.
   */
  datatype State = State(
    entryCount: nat,
    importedCount: nat,
    settled: bool,
    current: Entry,
    writes: seq<File>,
    received: seq<File>,
    failures: nat,
    outcomes: seq<Outcome>
  )

  const START := State(0, 0, false, Idle, [], [], 0, [])

  // ---------------------------------------------------------------- steps

  function Reject(s: State, reason: Reason): State {
    if s.settled then s else s.(settled := true, outcomes := s.outcomes + [Rejected(reason)])
  }

  function OnEntry(s: State, limits: Limits, name: string): State {
    if s.settled then s
    else if s.entryCount + 1 > limits.entries then Reject(s.(entryCount := s.entryCount + 1), TooManyEntries)
    else s.(entryCount := s.entryCount + 1, current := Reading(name, [], [], false))
  }

  function OnData(s: State, limits: Limits, chunk: Bytes): State {
    match s.current
    case Reading(name, arrived, chunks, aborted) =>
      var all := arrived + chunk;
      if aborted || s.settled then s.(current := Reading(name, all, chunks, aborted))
      else if |chunks| + |chunk| > limits.entryBytes then
        Reject(s.(current := Reading(name, all, chunks, true)), EntryTooLarge(name))
      else s.(current := Reading(name, all, chunks + chunk, false))
    case _ => s
  }

  function OnEnd(s: State): State {
    match s.current
    case Reading(name, arrived, chunks, aborted) =>
      if aborted || s.settled then s.(current := Idle)
      else
        s.(current := Writing(name),
           writes := s.writes + [File(name, chunks)],
           received := s.received + [File(name, arrived)])
    case _ => s
  }

  function OnWriteEnded(s: State, ok: bool): State {
    if ok then s.(current := Idle, importedCount := s.importedCount + 1)
    else s.(current := Idle, failures := s.failures + 1)
  }

  function OnFinish(s: State): State {
    if s.settled then s else s.(settled := true, outcomes := s.outcomes + [Resolved(s.importedCount)])
  }

  function Step(s: State, limits: Limits, e: Event): State {
    match e
    case EntryStarted(name) => OnEntry(s, limits, name)
    case Data(chunk) => OnData(s, limits, chunk)
    case EntryEnded => OnEnd(s)
    case WriteEnded(ok) => OnWriteEnded(s, ok)
    case Finished => OnFinish(s)
    case Failed => Reject(s, StreamError)
  }

  /** What the stream can report: entries one at a time, and its end only between entries. */
  predicate Possible(s: State, e: Event) {
    match e
    case EntryStarted(_) => s.current.Idle?
    case Data(_) => s.current.Reading?
    case EntryEnded => s.current.Reading?
    case WriteEnded(_) => s.current.Writing?
    case Finished => s.current.Idle?
    case Failed => true
  }

  // ---------------------------------------------------------------- the callbacks

  class Import {
    const limits: Limits
    var entryCount: nat
    var importedCount: nat
    var settled: bool
    var current: Entry
    var writes: seq<File>
    ghost var received: seq<File>
    var failures: nat
    var outcomes: seq<Outcome>

    ghost function Value(): State
      reads this
    {
      State(entryCount, importedCount, settled, current, writes, received, failures, outcomes)
    }

    constructor (limits: Limits)
      ensures Value() == START && this.limits == limits
    {
      this.limits := limits;
      entryCount, importedCount, settled, current := 0, 0, false, Idle;
      writes, received, failures, outcomes := [], [], 0, [];
    }

    /** `fail`. */
    method Fail(reason: Reason)
      modifies this`settled, this`outcomes
      ensures Value() == Reject(old(Value()), reason)
    {
      if settled {
        return;
      }
      settled := true;
      outcomes := outcomes + [Rejected(reason)];
    }

    /** The `entry` callback. */
    method EntryStarted(name: string)
      requires current.Idle?
      modifies this
      ensures Value() == OnEntry(old(Value()), limits, name)
    {
      if settled {
        return;
      }
      entryCount := entryCount + 1;
      if entryCount > limits.entries {
        Fail(TooManyEntries);
        return;
      }
      current := Reading(name, [], [], false);
    }

    /** The entry's `data` callback. */
    method Data(chunk: Bytes)
      requires current.Reading?
      modifies this
      ensures Value() == OnData(old(Value()), limits, chunk)
    {
      var arrived := current.arrived + chunk;
      if current.aborted || settled {
        current := Reading(current.name, arrived, current.chunks, current.aborted);
        return;
      }
      var entryBytes := |current.chunks| + |chunk|;
      if entryBytes > limits.entryBytes {
        current := Reading(current.name, arrived, current.chunks, true);
        Fail(EntryTooLarge(current.name));
      } else {
        current := Reading(current.name, arrived, current.chunks + chunk, false);
      }
    }

    /** The entry's `end` callback, up to the start of the write. */
    method EntryEnded()
      requires current.Reading?
      modifies this`current, this`writes, this`received
      ensures Value() == OnEnd(old(Value()))
    {
      if current.aborted || settled {
        current := Idle;
        return;
      }
      writes := writes + [File(current.name, current.chunks)];
      received := received + [File(current.name, current.arrived)];
      current := Writing(current.name);
    }

    /** The write succeeds or fails; either way the next entry may follow. */
    method WriteEnded(ok: bool)
      requires current.Writing?
      modifies this`current, this`importedCount, this`failures
      ensures Value() == OnWriteEnded(old(Value()), ok)
    {
      if ok {
        importedCount := importedCount + 1;
      } else {
        failures := failures + 1;
      }
      current := Idle;
    }

    /** The `finish` callback. */
    method Finished()
      requires current.Idle?
      modifies this`settled, this`outcomes
      ensures Value() == OnFinish(old(Value()))
    {
      if settled {
        return;
      }
      settled := true;
      outcomes := outcomes + [Resolved(importedCount)];
    }
  }

  // ---------------------------------------------------------------- runs

  predicate PossibleRun(s: State, limits: Limits, events: seq<Event>)
    decreases |events|
  {
    events == [] || (Possible(s, events[0]) && PossibleRun(Step(s, limits, events[0]), limits, events[1..]))
  }

  function Run(s: State, limits: Limits, events: seq<Event>): State
    decreases |events|
  {
    if events == [] then s else Run(Step(s, limits, events[0]), limits, events[1..])
  }

  /** Nothing is buffered beyond the limit, and what is to be written is what arrived. */
  ghost predicate EntryInv(current: Entry, settled: bool, limits: Limits) {
    current.Reading? ==>
      && |current.chunks| <= limits.entryBytes
      && (current.aborted ==> settled)
      && (!settled ==> current.chunks == current.arrived)
  }

  ghost predicate Small(writes: seq<File>, limits: Limits) {
    forall i :: 0 <= i < |writes| ==> |writes[i].data| <= limits.entryBytes
  }

  ghost predicate Inv(s: State, limits: Limits) {
    && EntryInv(s.current, s.settled, limits)
    && Small(s.writes, limits)
    && s.writes == s.received
    // The promise settles when `settled` is set, and then only.
    && |s.outcomes| == (if s.settled then 1 else 0)
    // Every write has succeeded or failed, or is under way.
    && |s.writes| == s.importedCount + s.failures + (if s.current.Writing? then 1 else 0)
    // Until the import settles every entry has led to a write, or is being read.
    && (!s.settled ==> s.entryCount == |s.writes| + (if s.current.Reading? then 1 else 0) <= limits.entries)
    && |s.writes| <= limits.entries
    // A successful import has no work left, and reports its successful writes.
    && (s.outcomes != [] && s.outcomes[0].Resolved? ==>
          s.current.Idle? && s.outcomes[0].importedCount == s.importedCount && s.entryCount == |s.writes|)
  }

  lemma StepKeepsInv(s: State, limits: Limits, e: Event)
    requires Inv(s, limits) && Possible(s, e)
    ensures Inv(Step(s, limits, e), limits)
  {
  }

  lemma {:induction false} RunKeepsInv(s: State, limits: Limits, events: seq<Event>)
    requires Inv(s, limits) && PossibleRun(s, limits, events)
    ensures Inv(Run(s, limits, events), limits)
    decreases |events|
  {
    if events != [] {
      StepKeepsInv(s, limits, events[0]);
      RunKeepsInv(Step(s, limits, events[0]), limits, events[1..]);
    }
  }

  /** Why an import settles: each limit is enforced exactly, on what has arrived. */
  lemma SettlesIff(s: State, limits: Limits, e: Event)
    requires Inv(s, limits) && Possible(s, e) && !s.settled
    ensures
      var next := Step(s, limits, e);
      next.outcomes == match e
        case EntryStarted(_) => if s.entryCount == limits.entries then [Rejected(TooManyEntries)] else []
        case Data(chunk) =>
          if |s.current.arrived| + |chunk| > limits.entryBytes then [Rejected(EntryTooLarge(s.current.name))] else []
        case Finished => [Resolved(|s.writes| - s.failures)]
        case Failed => [Rejected(StreamError)]
        case _ => []
  {
    assert s.outcomes == [];
    StepKeepsInv(s, limits, e);
  }

  function TotalBytes(writes: seq<File>): nat {
    if writes == [] then 0 else TotalBytes(writes[..|writes| - 1]) + |writes[|writes| - 1].data|
  }

  lemma {:induction false} TotalIsBounded(writes: seq<File>, limits: Limits)
    requires Small(writes, limits)
    ensures TotalBytes(writes) <= |writes| * limits.entryBytes
  {
    if writes != [] {
      TotalIsBounded(writes[..|writes| - 1], limits);
    }
  }

  /**
   * Every run: the promise settles at most once; never more than the limits is buffered or written; what is
   * written is what arrived; and a successful import has written every entry it saw and returns the number of
   * writes that succeeded.
   */
  lemma EveryRun(limits: Limits, events: seq<Event>)
    requires PossibleRun(START, limits, events)
    ensures
      var s := Run(START, limits, events);
      && |s.outcomes| <= 1
      && (s.current.Reading? ==> |s.current.chunks| <= limits.entryBytes)
      && s.writes == s.received && |s.writes| <= limits.entries
      && (forall i :: 0 <= i < |s.writes| ==> |s.writes[i].data| <= limits.entryBytes)
      && TotalBytes(s.writes) <= limits.entries * limits.entryBytes
      && (s.outcomes != [] && s.outcomes[0].Resolved? ==>
            s.outcomes[0].importedCount == s.importedCount == |s.writes| - s.failures && s.entryCount == |s.writes|)
  {
    RunKeepsInv(START, limits, events);
    var s := Run(START, limits, events);
    TotalIsBounded(s.writes, limits);
    Scaled(limits.entryBytes, |s.writes|, limits.entries);
  }

  /** A stream that ends or fails settles the import: then there is exactly one outcome. */
  lemma {:induction false} EndSettles(s: State, limits: Limits, events: seq<Event>)
    requires Inv(s, limits) && PossibleRun(s, limits, events) && (Finished in events || Failed in events)
    ensures Run(s, limits, events).settled && |Run(s, limits, events).outcomes| == 1
    decreases |events|
  {
    var next := Step(s, limits, events[0]);
    StepKeepsInv(s, limits, events[0]);
    if events[0] == Finished || events[0] == Failed {
      SettledForGood(next, limits, events[1..]);
    } else {
      assert events == [events[0]] + events[1..];
      EndSettles(next, limits, events[1..]);
    }
  }

  /** After the import has settled, whatever arrives, no write starts and the outcome stands. */
  lemma {:induction false} SettledForGood(s: State, limits: Limits, events: seq<Event>)
    requires s.settled && PossibleRun(s, limits, events)
    ensures
      var end := Run(s, limits, events);
      end.settled && end.writes == s.writes && end.outcomes == s.outcomes && end.entryCount == s.entryCount
    decreases |events|
  {
    if events != [] {
      SettledForGood(Step(s, limits, events[0]), limits, events[1..]);
    }
  }

  // ---------------------------------------------------------------- an archive within the limits

  /** An entry as the archive holds it, in the chunks in which it arrives; `ok` says whether its write succeeds. */
  datatype Item = Item(name: string, chunks: seq<Bytes>, ok: bool)

  function Flat(chunks: seq<Bytes>): Bytes {
    if chunks == [] then [] else chunks[0] + Flat(chunks[1..])
  }

  function DataOf(chunks: seq<Bytes>): seq<Event> {
    if chunks == [] then [] else [Data(chunks[0])] + DataOf(chunks[1..])
  }

  function ItemEvents(item: Item): seq<Event> {
    [EntryStarted(item.name)] + DataOf(item.chunks) + [EntryEnded, WriteEnded(item.ok)]
  }

  function EventsOf(items: seq<Item>): seq<Event> {
    if items == [] then [] else ItemEvents(items[0]) + EventsOf(items[1..])
  }

  function FilesOf(items: seq<Item>): seq<File> {
    if items == [] then [] else [File(items[0].name, Flat(items[0].chunks))] + FilesOf(items[1..])
  }

  function Successes(items: seq<Item>): nat {
    if items == [] then 0 else (if items[0].ok then 1 else 0) + Successes(items[1..])
  }

  lemma {:induction false} RunConcat(s: State, limits: Limits, a: seq<Event>, b: seq<Event>)
    ensures Run(s, limits, a + b) == Run(Run(s, limits, a), limits, b)
    ensures PossibleRun(s, limits, a + b) <==> PossibleRun(s, limits, a) && PossibleRun(Run(s, limits, a), limits, b)
    decreases |a|
  {
    if a == [] {
      assert a + b == b;
    } else {
      assert (a + b)[1..] == a[1..] + b;
      RunConcat(Step(s, limits, a[0]), limits, a[1..], b);
    }
  }

  lemma OneEvent(s: State, limits: Limits, e: Event)
    ensures Run(s, limits, [e]) == Step(s, limits, e) && (PossibleRun(s, limits, [e]) <==> Possible(s, e))
  {
  }

  /** Chunks that fit are all kept, in order. */
  lemma {:induction false} ChunksAreKept(s: State, limits: Limits, name: string, data: Bytes, chunks: seq<Bytes>)
    requires !s.settled && s.current == Reading(name, data, data, false)
    requires |data| + |Flat(chunks)| <= limits.entryBytes
    ensures PossibleRun(s, limits, DataOf(chunks))
    ensures var all := data + Flat(chunks);
            Run(s, limits, DataOf(chunks)) == s.(current := Reading(name, all, all, false))
    decreases |chunks|
  {
    if chunks == [] {
      assert data + [] == data;
    } else {
      var next := s.(current := Reading(name, data + chunks[0], data + chunks[0], false));
      assert Step(s, limits, Data(chunks[0])) == next;
      ChunksAreKept(next, limits, name, data + chunks[0], chunks[1..]);
      assert data + Flat(chunks) == data + chunks[0] + Flat(chunks[1..]);
      RunConcat(s, limits, [Data(chunks[0])], DataOf(chunks[1..]));
      OneEvent(s, limits, Data(chunks[0]));
    }
  }

  /** What an entry that has been read and written leaves behind. */
  function AfterItem(s: State, item: Item): State {
    var file := File(item.name, Flat(item.chunks));
    s.(entryCount := s.entryCount + 1,
       importedCount := s.importedCount + if item.ok then 1 else 0,
       failures := s.failures + if item.ok then 0 else 1,
       writes := s.writes + [file],
       received := s.received + [file])
  }

  lemma EntryIsWritten(s: State, limits: Limits, item: Item)
    requires !s.settled && s.current.Idle? && s.entryCount < limits.entries
    requires |Flat(item.chunks)| <= limits.entryBytes
    ensures PossibleRun(s, limits, ItemEvents(item)) && Run(s, limits, ItemEvents(item)) == AfterItem(s, item)
  {
    var start, last := [EntryStarted(item.name)], [EntryEnded, WriteEnded(item.ok)];
    var data := Flat(item.chunks);
    OneEvent(s, limits, EntryStarted(item.name));
    var open := Step(s, limits, EntryStarted(item.name));
    ChunksAreKept(open, limits, item.name, [], item.chunks);
    assert [] + data == data;
    RunConcat(s, limits, start, DataOf(item.chunks));
    RunConcat(s, limits, start + DataOf(item.chunks), last);
    EntryCloses(open.(current := Reading(item.name, data, data, false)), limits, item.name, data, item.ok);
  }

  lemma EntryCloses(s: State, limits: Limits, name: string, data: Bytes, ok: bool)
    requires !s.settled && s.current == Reading(name, data, data, false)
    ensures PossibleRun(s, limits, [EntryEnded, WriteEnded(ok)])
    ensures Run(s, limits, [EntryEnded, WriteEnded(ok)]) ==
            s.(current := Idle,
               importedCount := s.importedCount + (if ok then 1 else 0),
               failures := s.failures + (if ok then 0 else 1),
               writes := s.writes + [File(name, data)],
               received := s.received + [File(name, data)])
  {
    var written := Step(s, limits, EntryEnded);
    assert [EntryEnded, WriteEnded(ok)] == [EntryEnded] + [WriteEnded(ok)];
    RunConcat(s, limits, [EntryEnded], [WriteEnded(ok)]);
    OneEvent(s, limits, EntryEnded);
    OneEvent(written, limits, WriteEnded(ok));
  }

  /** The items have been read and written, and nothing has settled. */
  ghost predicate Written(s: State, items: seq<Item>, end: State) {
    && !end.settled && end.current.Idle? && end.outcomes == s.outcomes
    && end.writes == s.writes + FilesOf(items)
    && end.importedCount == s.importedCount + Successes(items)
  }

  lemma WrittenCons(s: State, items: seq<Item>, end: State)
    requires items != [] && Written(AfterItem(s, items[0]), items[1..], end)
    ensures Written(s, items, end)
  {
  }

  lemma {:induction false} ItemsAreWritten(s: State, limits: Limits, items: seq<Item>)
    requires !s.settled && s.current.Idle? && s.entryCount + |items| <= limits.entries
    requires forall i :: 0 <= i < |items| ==> |Flat(items[i].chunks)| <= limits.entryBytes
    ensures PossibleRun(s, limits, EventsOf(items)) && Written(s, items, Run(s, limits, EventsOf(items)))
    decreases |items|
  {
    if items == [] {
      assert s.writes + FilesOf(items) == s.writes;
    } else {
      EntryIsWritten(s, limits, items[0]);
      ItemsAreWritten(AfterItem(s, items[0]), limits, items[1..]);
      RunConcat(s, limits, ItemEvents(items[0]), EventsOf(items[1..]));
      WrittenCons(s, items, Run(s, limits, EventsOf(items)));
    }
  }

  /**
   * An archive within both limits is imported whole: one file for each entry, in order, holding the entry's chunks
   * put together, and the import resolves with the number of writes that succeeded.
   */
  lemma ArchiveIsImported(limits: Limits, items: seq<Item>)
    requires |items| <= limits.entries
    requires forall i :: 0 <= i < |items| ==> |Flat(items[i].chunks)| <= limits.entryBytes
    ensures PossibleRun(START, limits, EventsOf(items) + [Finished])
    ensures var end := Run(START, limits, EventsOf(items) + [Finished]);
            end.writes == FilesOf(items) && end.outcomes == [Resolved(Successes(items))]
  {
    ItemsAreWritten(START, limits, items);
    RunConcat(START, limits, EventsOf(items), [Finished]);
    FinishResolves(Run(START, limits, EventsOf(items)), limits, items);
  }

  lemma FinishResolves(s: State, limits: Limits, items: seq<Item>)
    requires Written(START, items, s)
    ensures PossibleRun(s, limits, [Finished])
    ensures var end := Run(s, limits, [Finished]);
            end.writes == FilesOf(items) && end.outcomes == [Resolved(Successes(items))]
  {
    OneEvent(s, limits, Finished);
    assert [] + FilesOf(items) == FilesOf(items);
  }
}
