/**
 * The cached chat thread (dashboard/src/utils/chatMessages.ts, and `handleSend`, `handleIncomingMessage`
 * and `handleIncomingMessageAck` of dashboard/src/pages/Chats.tsx): an optimistic placeholder, the HTTP
 * response, the websocket echoes of the same message and its acks, in any order.
 *
 * `C` stands for the fields of a row that the thread only carries along, `M` for its metadata.
 */
module ChatThread {
  import opened Wrappers
  import opened DeliveryStatus

  datatype Row<C, M> = Row(
    id: string,
    waMessageId: Option<string>,
    status: Status,
    time: int,              // `msgTime`, in seconds
    created: int,           // position of `createdAt` in the order of `localeCompare`
    content: C,
    metadata: Option<M>)

  /** `waMessageId ?? id`. */
  function Key<C, M>(m: Row<C, M>): string {
    if m.waMessageId.Some? then m.waMessageId.value else m.id
  }

  ghost predicate UniqueKeys<C, M>(list: seq<Row<C, M>>) {
    forall i, j :: 0 <= i < j < |list| ==> Key(list[i]) != Key(list[j])
  }

  /** The row with the given key. */
  function Lookup<C, M>(list: seq<Row<C, M>>, key: string): Option<Row<C, M>> {
    if list == [] then None
    else if Key(list[0]) == key then Some(list[0])
    else Lookup(list[1..], key)
  }

  // ---------------------------------------------------------------- updates of one slice

  function WithStatus<C, M>(m: Row<C, M>, status: Status): Row<C, M> {
    m.(status := status)
  }

  function Acked<C, M>(m: Row<C, M>, status: Status): Row<C, M> {
    WithStatus(m, MergeDeliveryStatus(Some(m.status), Some(status)).value)
  }

  /** `incoming` in the place of `existing`: the status only advances, missing metadata is kept. */
  function Replaced<C, M>(existing: Row<C, M>, incoming: Row<C, M>): Row<C, M> {
    incoming.(
      status := MergeDeliveryStatus(Some(existing.status), Some(incoming.status)).value,
      metadata := if incoming.metadata.Some? then incoming.metadata else existing.metadata)
  }

  function MergeOrAppend<C, M>(list: seq<Row<C, M>>, incoming: Row<C, M>): seq<Row<C, M>> {
    if list == [] then [incoming]
    else if Key(list[0]) == Key(incoming) then [Replaced(list[0], incoming)] + list[1..]
    else [list[0]] + MergeOrAppend(list[1..], incoming)
  }

  predicate Matches<C, M>(m: Row<C, M>, messageId: string) {
    m.id == messageId || m.waMessageId == Some(messageId)
  }

  /** An ack advances the status of the first row it names. */
  function AckSlice<C, M>(list: seq<Row<C, M>>, messageId: string, status: Status): seq<Row<C, M>> {
    if list == [] then []
    else if Matches(list[0], messageId) then [Acked(list[0], status)] + list[1..]
    else [list[0]] + AckSlice(list[1..], messageId, status)
  }

  predicate AnyMatches<C, M>(list: seq<Row<C, M>>, messageId: string) {
    list != [] && (Matches(list[0], messageId) || AnyMatches(list[1..], messageId))
  }

  function DropId<C, M>(list: seq<Row<C, M>>, id: string): seq<Row<C, M>> {
    if list == [] then []
    else if list[0].id == id then DropId(list[1..], id)
    else [list[0]] + DropId(list[1..], id)
  }

  /** The placeholder takes the identity the server gave the message. */
  function Renamed<C, M>(m: Row<C, M>, tempId: string, messageId: string): Row<C, M> {
    if m.id == tempId then m.(id := messageId, waMessageId := Some(messageId), status := Sent) else m
  }

  function RenameId<C, M>(list: seq<Row<C, M>>, tempId: string, messageId: string): seq<Row<C, M>> {
    if list == [] then [] else [Renamed(list[0], tempId, messageId)] + RenameId(list[1..], tempId, messageId)
  }

  /** The response: if an echo is there already the placeholder goes, else it is renamed. */
  function Respond<C, M>(list: seq<Row<C, M>>, tempId: string, messageId: string): seq<Row<C, M>> {
    if AnyMatches(list, messageId) then DropId(list, tempId) else RenameId(list, tempId, messageId)
  }

  // ---------------------------------------------------------------- one send

  /** The identities of one send and the placeholder it appends. */
  datatype Send<C, M> = Send(tempId: string, messageId: string, placeholder: Row<C, M>)

  datatype Event<C, M> =
    | Placeholder
    | Response
    | Arrives(m: Row<C, M>)                   // a websocket message: an echo of this send, or any other
    | Ack(messageId: string, status: Status)

  ghost predicate WellFormedSend<C, M>(send: Send<C, M>) {
    && send.tempId != send.messageId
    && send.placeholder.id == send.tempId
    && send.placeholder.waMessageId.None?
  }

  predicate IsEcho<C, M>(send: Send<C, M>, e: Event<C, M>) {
    e.Arrives? && e.m.id == send.messageId
  }

  /** Websocket rows carry their WhatsApp id twice and start as sent; nobody but the page knows the temporary id. */
  ghost predicate WellFormedEvent<C, M>(send: Send<C, M>, e: Event<C, M>) {
    match e
    case Placeholder => true
    case Response => true
    case Arrives(m) => m.waMessageId == Some(m.id) && m.id != send.tempId && m.status.Sent?
    case Ack(messageId, _) => messageId != send.tempId
  }

  function Apply<C, M>(send: Send<C, M>, list: seq<Row<C, M>>, e: Event<C, M>): seq<Row<C, M>> {
    match e
    case Placeholder => MergeOrAppend(list, send.placeholder)
    case Response => Respond(list, send.tempId, send.messageId)
    case Arrives(m) => MergeOrAppend(list, m)
    case Ack(messageId, status) => AckSlice(list, messageId, status)
  }

  function Run<C, M>(send: Send<C, M>, list: seq<Row<C, M>>, events: seq<Event<C, M>>): seq<Row<C, M>> {
    if events == [] then list
    else Apply(send, Run(send, list, events[..|events| - 1]), events[|events| - 1])
  }

  /** The page appends one placeholder and then gets one response; everything else comes as it likes. */
  ghost predicate Legal<C, M>(send: Send<C, M>, events: seq<Event<C, M>>) {
    events != [] ==>
      var before, e := events[..|events| - 1], events[|events| - 1];
      && Legal(send, before)
      && WellFormedEvent(send, e)
      && (e.Placeholder? ==> !Placed(before))
      && (e.Response? ==> Placed(before) && !Responded(before))
  }

  predicate Placed<C, M>(events: seq<Event<C, M>>) {
    events != [] && (events[|events| - 1].Placeholder? || Placed(events[..|events| - 1]))
  }

  predicate Responded<C, M>(events: seq<Event<C, M>>) {
    events != [] && (events[|events| - 1].Response? || Responded(events[..|events| - 1]))
  }

  predicate Echoed<C, M>(send: Send<C, M>, events: seq<Event<C, M>>) {
    events != [] && (IsEcho(send, events[|events| - 1]) || Echoed(send, events[..|events| - 1]))
  }

  /** The loaded slice: unique keys, and no trace of this send yet. */
  ghost predicate Fresh<C, M>(send: Send<C, M>, list: seq<Row<C, M>>) {
    && UniqueKeys(list)
    && forall m :: m in list ==> !Matches(m, send.tempId) && !Matches(m, send.messageId)
  }

  /** The row of the message, as the events alone determine it, wherever it stands in the thread. */
  ghost function MessageRow<C, M>(send: Send<C, M>, events: seq<Event<C, M>>): Option<Row<C, M>> {
    if events == [] then None
    else
      var before := MessageRow(send, events[..|events| - 1]);
      match events[|events| - 1]
      case Placeholder => before
      case Response =>
        if before.Some? then before else Some(Renamed(send.placeholder, send.tempId, send.messageId))
      case Arrives(m) =>
        if m.id != send.messageId then before
        else if before.Some? then Some(Replaced(before.value, m))
        else Some(m)
      case Ack(messageId, status) =>
        if messageId == send.messageId && before.Some? then Some(Acked(before.value, status))
        else before
  }

  /** What a run has made of the slice: one row per key, and the two rows of this send are as they should be. */
  ghost predicate Tracks<C, M>(send: Send<C, M>, list: seq<Row<C, M>>, events: seq<Event<C, M>>) {
    && UniqueKeys(list)
    && Separate(send, list)
    && Lookup(list, send.tempId) == (if Placed(events) && !Responded(events) then Some(send.placeholder) else None)
    && Lookup(list, send.messageId) == MessageRow(send, events)
  }

  /** Only the placeholder goes by the temporary id, and rows of the message carry its id in both fields. */
  ghost predicate Separate<C, M>(send: Send<C, M>, list: seq<Row<C, M>>) {
    forall m :: m in list ==>
      && (Matches(m, send.tempId) ==> m == send.placeholder)
      && (Matches(m, send.messageId) ==> m.id == send.messageId && m.waMessageId == Some(send.messageId))
  }

  // ---------------------------------------------------------------- what each update does to the keys

  lemma {:induction false} LookupFinds<C, M>(list: seq<Row<C, M>>, key: string)
    ensures Lookup(list, key).Some? ==> Lookup(list, key).value in list && Key(Lookup(list, key).value) == key
    ensures Lookup(list, key).None? ==> forall m :: m in list ==> Key(m) != key
  {
    if list != [] {
      LookupFinds(list[1..], key);
    }
  }

  lemma {:induction false} LookupAbsent<C, M>(list: seq<Row<C, M>>, key: string)
    requires forall m :: m in list ==> Key(m) != key
    ensures Lookup(list, key).None?
  {
    if list != [] {
      LookupAbsent(list[1..], key);
    }
  }

  lemma {:induction false} MergeLookup<C, M>(list: seq<Row<C, M>>, m: Row<C, M>, key: string)
    ensures Lookup(MergeOrAppend(list, m), key) ==
            if key != Key(m) then Lookup(list, key)
            else match Lookup(list, key)
                 case None => Some(m)
                 case Some(existing) => Some(Replaced(existing, m))
  {
    if list != [] && Key(list[0]) != Key(m) {
      MergeLookup(list[1..], m, key);
    }
  }

  lemma {:induction false} MergeMembers<C, M>(list: seq<Row<C, M>>, m: Row<C, M>, r: Row<C, M>)
    requires r in MergeOrAppend(list, m)
    ensures r in list || r == m
      || exists existing :: existing in list && Key(existing) == Key(m) && r == Replaced(existing, m)
  {
    if list != [] && Key(list[0]) != Key(m) && r != list[0] {
      MergeMembers(list[1..], m, r);
    }
  }

  lemma UniqueCons<C, M>(m: Row<C, M>, list: seq<Row<C, M>>)
    ensures UniqueKeys([m] + list) <==> UniqueKeys(list) && forall r :: r in list ==> Key(r) != Key(m)
  {
    var all := [m] + list;
    if UniqueKeys(all) {
      forall i, j | 0 <= i < j < |list|
        ensures Key(list[i]) != Key(list[j])
      {
        assert all[i + 1] == list[i] && all[j + 1] == list[j];
      }
      forall r | r in list
        ensures Key(r) != Key(m)
      {
        var i :| 0 <= i < |list| && list[i] == r;
        assert all[0] == m && all[i + 1] == r;
      }
    }
  }

  /** Appending or replacing by key keeps the keys unique, whatever comes in. */
  lemma {:induction false} MergeKeepsUnique<C, M>(list: seq<Row<C, M>>, m: Row<C, M>)
    requires UniqueKeys(list)
    ensures UniqueKeys(MergeOrAppend(list, m))
  {
    if list != [] {
      var first, rest := list[0], list[1..];
      assert list == [first] + rest;
      UniqueCons(first, rest);
      if Key(first) == Key(m) {
        UniqueCons(Replaced(first, m), rest);
      } else {
        MergeKeepsUnique(rest, m);
        forall r | r in MergeOrAppend(rest, m)
          ensures Key(r) != Key(first)
        {
          MergeMembers(rest, m, r);
        }
        UniqueCons(first, MergeOrAppend(rest, m));
      }
    }
  }

  lemma {:induction false} AckMembers<C, M>(list: seq<Row<C, M>>, messageId: string, status: Status, r: Row<C, M>)
    requires r in AckSlice(list, messageId, status)
    ensures r in list || exists m :: m in list && Matches(m, messageId) && r == Acked(m, status)
  {
    if !Matches(list[0], messageId) && r != list[0] {
      AckMembers(list[1..], messageId, status, r);
    }
  }

  lemma {:induction false} AckKeepsUnique<C, M>(list: seq<Row<C, M>>, messageId: string, status: Status)
    requires UniqueKeys(list)
    ensures UniqueKeys(AckSlice(list, messageId, status))
  {
    if list != [] {
      var first, rest := list[0], list[1..];
      assert list == [first] + rest;
      UniqueCons(first, rest);
      if Matches(first, messageId) {
        UniqueCons(Acked(first, status), rest);
      } else {
        AckKeepsUnique(rest, messageId, status);
        forall r | r in AckSlice(rest, messageId, status)
          ensures Key(r) != Key(first)
        {
          AckMembers(rest, messageId, status, r);
        }
        UniqueCons(first, AckSlice(rest, messageId, status));
      }
    }
  }

  /** An ack that names no row of this key leaves the key alone. */
  lemma {:induction false} AckOtherLookup<C, M>(list: seq<Row<C, M>>, messageId: string, status: Status, key: string)
    requires forall m :: m in list && Key(m) == key ==> !Matches(m, messageId)
    ensures Lookup(AckSlice(list, messageId, status), key) == Lookup(list, key)
  {
    if list != [] && !Matches(list[0], messageId) {
      AckOtherLookup(list[1..], messageId, status, key);
    }
  }

  /** An ack advances the row of its own key when no other row answers to it. */
  lemma {:induction false} AckOwnLookup<C, M>(list: seq<Row<C, M>>, messageId: string, status: Status)
    requires forall m :: m in list ==> (Matches(m, messageId) <==> Key(m) == messageId)
    ensures Lookup(AckSlice(list, messageId, status), messageId) ==
            match Lookup(list, messageId)
            case None => None
            case Some(m) => Some(Acked(m, status))
  {
    if list != [] && !Matches(list[0], messageId) {
      AckOwnLookup(list[1..], messageId, status);
    }
  }

  lemma {:induction false} AnyMatchesIffKey<C, M>(list: seq<Row<C, M>>, messageId: string)
    requires forall m :: m in list ==> (Matches(m, messageId) <==> Key(m) == messageId)
    ensures AnyMatches(list, messageId) <==> Lookup(list, messageId).Some?
  {
    if list != [] {
      AnyMatchesIffKey(list[1..], messageId);
    }
  }

  lemma {:induction false} DropMember<C, M>(list: seq<Row<C, M>>, id: string, m: Row<C, M>)
    ensures m in DropId(list, id) <==> m in list && m.id != id
  {
    if list != [] {
      assert list == [list[0]] + list[1..];
      DropMember(list[1..], id, m);
    }
  }

  lemma {:induction false} DropKeepsUnique<C, M>(list: seq<Row<C, M>>, id: string)
    requires UniqueKeys(list)
    ensures UniqueKeys(DropId(list, id))
  {
    if list != [] {
      var first, rest := list[0], list[1..];
      assert list == [first] + rest;
      UniqueCons(first, rest);
      DropKeepsUnique(rest, id);
      forall r | r in DropId(rest, id)
        ensures Key(r) != Key(first)
      {
        DropMember(rest, id, r);
      }
      UniqueCons(first, DropId(rest, id));
    }
  }

  lemma {:induction false} DropLookup<C, M>(list: seq<Row<C, M>>, id: string, key: string)
    requires forall m :: m in list && Key(m) == key ==> m.id != id
    ensures Lookup(DropId(list, id), key) == Lookup(list, key)
  {
    if list != [] {
      DropLookup(list[1..], id, key);
    }
  }

  lemma {:induction false} RenameMembers<C, M>(list: seq<Row<C, M>>, tempId: string, messageId: string, r: Row<C, M>)
    requires r in RenameId(list, tempId, messageId)
    ensures exists m :: m in list && r == Renamed(m, tempId, messageId)
  {
    if r != Renamed(list[0], tempId, messageId) {
      RenameMembers(list[1..], tempId, messageId, r);
    }
  }

  /** Renaming the placeholder moves its key; nothing else had the new one. */
  lemma {:induction false} RenameLookup<C, M>(send: Send<C, M>, list: seq<Row<C, M>>, key: string)
    requires WellFormedSend(send) && UniqueKeys(list) && Separate(send, list) && Lookup(list, send.messageId).None?
    ensures var after := RenameId(list, send.tempId, send.messageId);
            && UniqueKeys(after)
            && Lookup(after, key) ==
               if key == send.tempId then None
               else if key != send.messageId then Lookup(list, key)
               else if Lookup(list, send.tempId).None? then None
               else Some(Renamed(send.placeholder, send.tempId, send.messageId))
  {
    if list != [] {
      var first, rest := list[0], list[1..];
      assert list == [first] + rest;
      UniqueCons(first, rest);
      RenameLookup(send, rest, key);
      var renamed := Renamed(first, send.tempId, send.messageId);
      forall r | r in RenameId(rest, send.tempId, send.messageId)
        ensures Key(r) != Key(renamed)
      {
        RenameMembers(rest, send.tempId, send.messageId, r);
        LookupFinds(list, send.messageId);
      }
      UniqueCons(renamed, RenameId(rest, send.tempId, send.messageId));
      if first.id == send.tempId {
        assert Matches(first, send.tempId);
        LookupFinds(rest, send.tempId);
      }
    }
  }

  // ---------------------------------------------------------------- the run invariant

  lemma KeysOfSeparate<C, M>(send: Send<C, M>, list: seq<Row<C, M>>)
    requires WellFormedSend(send) && Separate(send, list)
    ensures forall m :: m in list ==> (Matches(m, send.messageId) <==> Key(m) == send.messageId)
    ensures forall m :: m in list ==> (m.id == send.tempId <==> Key(m) == send.tempId)
  {
    forall m | m in list
      ensures Matches(m, send.messageId) <==> Key(m) == send.messageId
      ensures m.id == send.tempId <==> Key(m) == send.tempId
    {
      if Key(m) == send.tempId || m.id == send.tempId {
        assert Matches(m, send.tempId);
      }
    }
  }

  lemma PlaceholderKeepsTracks<C, M>(send: Send<C, M>, list: seq<Row<C, M>>, events: seq<Event<C, M>>)
    requires WellFormedSend(send) && Tracks(send, list, events) && !Placed(events) && !Responded(events)
    ensures Tracks(send, MergeOrAppend(list, send.placeholder), events + [Placeholder])
  {
    var after := MergeOrAppend(list, send.placeholder);
    assert (events + [Placeholder])[..|events|] == events;
    MergeKeepsUnique(list, send.placeholder);
    MergeLookup(list, send.placeholder, send.tempId);
    MergeLookup(list, send.placeholder, send.messageId);
    LookupFinds(list, send.tempId);
    forall r | r in after
      ensures Matches(r, send.tempId) ==> r == send.placeholder
      ensures Matches(r, send.messageId) ==> r.id == send.messageId && r.waMessageId == Some(send.messageId)
    {
      MergeMembers(list, send.placeholder, r);
    }
  }

  lemma ArrivalKeepsTracks<C, M>(send: Send<C, M>, list: seq<Row<C, M>>, events: seq<Event<C, M>>, m: Row<C, M>)
    requires WellFormedSend(send) && Tracks(send, list, events) && WellFormedEvent(send, Arrives(m))
    ensures Tracks(send, MergeOrAppend(list, m), events + [Arrives(m)])
  {
    var after := MergeOrAppend(list, m);
    assert (events + [Arrives(m)])[..|events|] == events;
    MergeKeepsUnique(list, m);
    MergeLookup(list, m, send.tempId);
    MergeLookup(list, m, send.messageId);
    forall r | r in after
      ensures Matches(r, send.tempId) ==> r == send.placeholder
      ensures Matches(r, send.messageId) ==> r.id == send.messageId && r.waMessageId == Some(send.messageId)
    {
      MergeMembers(list, m, r);
    }
  }

  lemma AckKeepsTracks<C, M>(
      send: Send<C, M>, list: seq<Row<C, M>>, events: seq<Event<C, M>>, messageId: string, status: Status)
    requires WellFormedSend(send) && Tracks(send, list, events) && messageId != send.tempId
    ensures Tracks(send, AckSlice(list, messageId, status), events + [Ack(messageId, status)])
  {
    var after := AckSlice(list, messageId, status);
    assert (events + [Ack(messageId, status)])[..|events|] == events;
    KeysOfSeparate(send, list);
    AckKeepsUnique(list, messageId, status);
    AckOtherLookup(list, messageId, status, send.tempId);
    if messageId == send.messageId {
      AckOwnLookup(list, messageId, status);
    } else {
      AckOtherLookup(list, messageId, status, send.messageId);
    }
    forall r | r in after
      ensures Matches(r, send.tempId) ==> r == send.placeholder
      ensures Matches(r, send.messageId) ==> r.id == send.messageId && r.waMessageId == Some(send.messageId)
    {
      AckMembers(list, messageId, status, r);
    }
  }

  lemma ResponseKeepsTracks<C, M>(send: Send<C, M>, list: seq<Row<C, M>>, events: seq<Event<C, M>>)
    requires WellFormedSend(send) && Tracks(send, list, events) && Placed(events) && !Responded(events)
    ensures Tracks(send, Respond(list, send.tempId, send.messageId), events + [Response])
  {
    assert (events + [Response])[..|events|] == events;
    KeysOfSeparate(send, list);
    AnyMatchesIffKey(list, send.messageId);
    if AnyMatches(list, send.messageId) {
      DropPlaceholder(send, list);
    } else {
      RenamePlaceholder(send, list);
    }
  }

  lemma DropPlaceholder<C, M>(send: Send<C, M>, list: seq<Row<C, M>>)
    requires WellFormedSend(send) && UniqueKeys(list) && Separate(send, list)
    ensures var after := DropId(list, send.tempId);
            && UniqueKeys(after) && Separate(send, after)
            && Lookup(after, send.tempId).None? && Lookup(after, send.messageId) == Lookup(list, send.messageId)
  {
    var after := DropId(list, send.tempId);
    KeysOfSeparate(send, list);
    DropKeepsUnique(list, send.tempId);
    DropLookup(list, send.tempId, send.messageId);
    forall m | m in after
      ensures m in list && Key(m) != send.tempId
    {
      DropMember(list, send.tempId, m);
    }
    LookupAbsent(after, send.tempId);
  }

  lemma RenamePlaceholder<C, M>(send: Send<C, M>, list: seq<Row<C, M>>)
    requires WellFormedSend(send) && UniqueKeys(list) && Separate(send, list) && Lookup(list, send.messageId).None?
    ensures var after := RenameId(list, send.tempId, send.messageId);
            && UniqueKeys(after) && Separate(send, after)
            && Lookup(after, send.tempId).None?
            && (Lookup(list, send.tempId).Some? ==>
                  Lookup(after, send.messageId) == Some(Renamed(send.placeholder, send.tempId, send.messageId)))
  {
    var after := RenameId(list, send.tempId, send.messageId);
    RenameLookup(send, list, send.tempId);
    RenameLookup(send, list, send.messageId);
    forall r | r in after
      ensures Matches(r, send.tempId) ==> r == send.placeholder
      ensures Matches(r, send.messageId) ==> r.id == send.messageId && r.waMessageId == Some(send.messageId)
    {
      RenameMembers(list, send.tempId, send.messageId, r);
    }
  }

  /** Over every legal interleaving, from every fresh slice. */
  lemma {:induction false} RunTracks<C, M>(send: Send<C, M>, list: seq<Row<C, M>>, events: seq<Event<C, M>>)
    requires WellFormedSend(send) && Fresh(send, list) && Legal(send, events)
    ensures Tracks(send, Run(send, list, events), events)
    ensures Responded(events) ==> Placed(events)
  {
    if events == [] {
      LookupFinds(list, send.tempId);
      LookupFinds(list, send.messageId);
    } else {
      var before, e := events[..|events| - 1], events[|events| - 1];
      RunTracks(send, list, before);
      var mid := Run(send, list, before);
      assert events == before + [e];
      match e
      case Placeholder => PlaceholderKeepsTracks(send, mid, before);
      case Response => ResponseKeepsTracks(send, mid, before);
      case Arrives(m) => ArrivalKeepsTracks(send, mid, before, m);
      case Ack(messageId, status) => AckKeepsTracks(send, mid, before, messageId, status);
    }
  }

  // ---------------------------------------------------------------- confluence

  /** The rows agree on everything but the delivery status and the metadata. */
  predicate SameButTicks<C(==), M>(a: Row<C, M>, b: Row<C, M>) {
    && a.id == b.id && a.waMessageId == b.waMessageId
    && a.time == b.time && a.created == b.created && a.content == b.content
  }

  function LastEcho<C, M>(send: Send<C, M>, events: seq<Event<C, M>>): Row<C, M>
    requires Echoed(send, events)
  {
    var e := events[|events| - 1];
    if IsEcho(send, e) then e.m else LastEcho(send, events[..|events| - 1])
  }

  /** The message has its row from the response or the first echo on, whichever comes first. */
  lemma {:induction false} RowExistsIff<C, M>(send: Send<C, M>, events: seq<Event<C, M>>)
    ensures MessageRow(send, events).Some? <==> Responded(events) || Echoed(send, events)
  {
    if events != [] {
      RowExistsIff(send, events[..|events| - 1]);
    }
  }

  /** The statuses acked for the message behind its response or first echo; earlier acks find no row and are lost. */
  function AcksOfRow<C, M>(send: Send<C, M>, events: seq<Event<C, M>>): seq<Status> {
    if events == [] then []
    else
      var before, e := events[..|events| - 1], events[|events| - 1];
      if e.Ack? && e.messageId == send.messageId && (Responded(before) || Echoed(send, before))
      then AcksOfRow(send, before) + [e.status]
      else AcksOfRow(send, before)
  }

  /** The row shows the acks that came since it exists, folded from `sent`. */
  lemma {:induction false} StatusIsFold<C, M>(send: Send<C, M>, events: seq<Event<C, M>>)
    requires WellFormedSend(send) && Legal(send, events)
    ensures ShowsAcks(MessageRow(send, events), AcksOfRow(send, events))
  {
    if events != [] {
      StatusIsFold(send, events[..|events| - 1]);
      StatusAfterLast(send, events, events[..|events| - 1]);
    }
  }

  lemma StatusAfterLast<C, M>(send: Send<C, M>, events: seq<Event<C, M>>, before: seq<Event<C, M>>)
    requires events != [] && before == events[..|events| - 1]
    requires WellFormedSend(send) && WellFormedEvent(send, events[|events| - 1])
    requires ShowsAcks(MessageRow(send, before), AcksOfRow(send, before))
    ensures ShowsAcks(MessageRow(send, events), AcksOfRow(send, events))
  {
    var e := events[|events| - 1];
    assert events == before + [e];
    RowExistsIff(send, before);
    StatusStep(send, before, e, MessageRow(send, before), AcksOfRow(send, before));
  }

  /** The status shows these acks, if there is a row. */
  ghost predicate ShowsAcks<C, M>(row: Option<Row<C, M>>, acks: seq<Status>) {
    match row
    case None => acks == []
    case Some(m) => m.status == Fold(Sent, acks) && IsKnown(m.status) && !m.status.Pending?
  }

  lemma StatusStep<C, M>(
    send: Send<C, M>, before: seq<Event<C, M>>, e: Event<C, M>, row: Option<Row<C, M>>, acks: seq<Status>)
    requires WellFormedSend(send) && WellFormedEvent(send, e)
    requires row == MessageRow(send, before) && acks == AcksOfRow(send, before)
    requires ShowsAcks(row, acks) && (row.Some? <==> Responded(before) || Echoed(send, before))
    ensures ShowsAcks(MessageRow(send, before + [e]), AcksOfRow(send, before + [e]))
  {
    assert (before + [e])[..|before|] == before;
    if e.Ack? && row.Some? {
      AckShows(row.value, acks, e.status);
    }
  }

  lemma AckShows<C, M>(m: Row<C, M>, acks: seq<Status>, status: Status)
    requires ShowsAcks(Some(m), acks)
    ensures ShowsAcks(Some(Acked(m, status)), acks + [status])
  {
    assert (acks + [status])[..|acks|] == acks;
  }

  /** Once echoed, the row of the message is the last echo, whatever the order; only its ticks differ. */
  lemma {:induction false} EchoDecidesRow<C, M>(send: Send<C, M>, events: seq<Event<C, M>>)
    requires WellFormedSend(send) && Legal(send, events)
    ensures Responded(events) || Echoed(send, events) ==> MessageRow(send, events).Some?
    ensures Echoed(send, events) ==>
              var row, echo := MessageRow(send, events).value, LastEcho(send, events);
              SameButTicks(row, echo) && (echo.metadata.Some? ==> row.metadata == echo.metadata)
  {
    if events != [] {
      EchoDecidesRow(send, events[..|events| - 1]);
    }
  }

  /** Without an echo the row is the placeholder, under the ids the server gave the message. */
  lemma {:induction false} ResponseKeepsPlaceholder<C, M>(send: Send<C, M>, events: seq<Event<C, M>>)
    requires Responded(events) && !Echoed(send, events)
    requires WellFormedSend(send)
    ensures MessageRow(send, events).Some?
    ensures var row := MessageRow(send, events).value;
            && row.id == send.messageId && row.waMessageId == Some(send.messageId)
            && row.time == send.placeholder.time && row.created == send.placeholder.created
            && row.content == send.placeholder.content && row.metadata == send.placeholder.metadata
  {
    var before := events[..|events| - 1];
    if Responded(before) {
      ResponseKeepsPlaceholder(send, before);
    } else {
      RowExistsIff(send, before);
    }
  }

  /**
   * After the response and at least one echo, in whatever order and with whatever else in between: keys
   * are unique, no placeholder is left, and exactly one row bears the message's id.
   */
  lemma SendSettles<C, M>(send: Send<C, M>, list: seq<Row<C, M>>, events: seq<Event<C, M>>)
    requires WellFormedSend(send) && Fresh(send, list) && Legal(send, events)
    requires Responded(events) && Echoed(send, events)
    ensures var thread := Run(send, list, events);
            && UniqueKeys(thread)
            && (forall m :: m in thread ==> !Matches(m, send.tempId))
            && (exists i :: 0 <= i < |thread| && Matches(thread[i], send.messageId))
            && (forall i, j :: 0 <= i < j < |thread| ==>
                  !(Matches(thread[i], send.messageId) && Matches(thread[j], send.messageId)))
            && forall m :: m in thread && Matches(m, send.messageId) ==>
                 && SameButTicks(m, LastEcho(send, events))
                 && m.status == Fold(Sent, AcksOfRow(send, events))
  {
    var thread := Run(send, list, events);
    RunTracks(send, list, events);
    StatusIsFold(send, events);
    EchoDecidesRow(send, events);
    KeysOfSeparate(send, thread);
    LookupFinds(thread, send.tempId);
    LookupFinds(thread, send.messageId);
    var row := Lookup(thread, send.messageId).value;
    var k :| 0 <= k < |thread| && thread[k] == row;
    OnlyRow(send, thread, k);
  }

  lemma OnlyRow<C, M>(send: Send<C, M>, thread: seq<Row<C, M>>, k: nat)
    requires UniqueKeys(thread) && k < |thread| && Key(thread[k]) == send.messageId
    requires forall m :: m in thread ==> (Matches(m, send.messageId) <==> Key(m) == send.messageId)
    ensures forall i :: 0 <= i < |thread| && Matches(thread[i], send.messageId) ==> i == k
    ensures Matches(thread[k], send.messageId)
  {
    forall i | 0 <= i < |thread| && Matches(thread[i], send.messageId)
      ensures i == k
    {
      assert Key(thread[i]) == Key(thread[k]);
    }
  }

  /**
   * Two interleavings of one send that end with the same echo show the same row up to its ticks, and the same
   * ticks if and only if a failure came in time behind both rows, or behind neither and the highest ack is the same.
   */
  lemma SendIsConfluent<C, M>(send: Send<C, M>, list: seq<Row<C, M>>, a: seq<Event<C, M>>, b: seq<Event<C, M>>)
    requires WellFormedSend(send) && Fresh(send, list) && Legal(send, a) && Legal(send, b)
    requires Responded(a) && Echoed(send, a) && Responded(b) && Echoed(send, b)
    requires LastEcho(send, a) == LastEcho(send, b) && LastEcho(send, a).metadata.Some?
    ensures var x, y := Lookup(Run(send, list, a), send.messageId), Lookup(Run(send, list, b), send.messageId);
            && x.Some? && y.Some? && x.value == WithStatus(y.value, x.value.status)
            && (x == y <==> SameTicks(AcksOfRow(send, a), AcksOfRow(send, b)))
  {
    RunTracks(send, list, a);
    RunTracks(send, list, b);
    StatusIsFold(send, a);
    StatusIsFold(send, b);
    EchoDecidesRow(send, a);
    EchoDecidesRow(send, b);
    SameTicksIff(AcksOfRow(send, a), AcksOfRow(send, b));
  }

  /** What one more event adds to a run. */
  lemma OneMoreEvent<C, M>(send: Send<C, M>, before: seq<Event<C, M>>, e: Event<C, M>)
    ensures var events := before + [e];
            && (Legal(send, events) <==>
                  && Legal(send, before) && WellFormedEvent(send, e)
                  && (e.Placeholder? ==> !Placed(before)) && (e.Response? ==> Placed(before) && !Responded(before)))
            && (Placed(events) <==> e.Placeholder? || Placed(before))
            && (Responded(events) <==> e.Response? || Responded(before))
            && (Echoed(send, events) <==> IsEcho(send, e) || Echoed(send, before))
            && (IsEcho(send, e) ==> LastEcho(send, events) == e.m)
            && AcksOfRow(send, events) ==
                 if e.Ack? && e.messageId == send.messageId && (Responded(before) || Echoed(send, before))
                 then AcksOfRow(send, before) + [e.status]
                 else AcksOfRow(send, before)
  {
    assert (before + [e])[..|before|] == before;
  }

  /** A read ack in front of the response. */
  function AckIsEarly<C, M>(send: Send<C, M>, echo: Row<C, M>): seq<Event<C, M>> {
    [Placeholder] + [Ack(send.messageId, Read)] + [Response] + [Arrives(echo)]
  }

  /** The same events, the ack behind the response. */
  function AckIsLate<C, M>(send: Send<C, M>, echo: Row<C, M>): seq<Event<C, M>> {
    [Placeholder] + [Response] + [Ack(send.messageId, Read)] + [Arrives(echo)]
  }

  lemma EarlyAck<C, M>(send: Send<C, M>, echo: Row<C, M>)
    requires WellFormedSend(send) && WellFormedEvent(send, Arrives(echo)) && IsEcho(send, Arrives(echo))
    ensures var a := AckIsEarly(send, echo);
            && Legal(send, a) && Responded(a) && Echoed(send, a)
            && LastEcho(send, a) == echo && AcksOfRow(send, a) == []
  {
    var none: seq<Event<C, M>> := [];
    assert none + [Placeholder] == [Placeholder];
    OneMoreEvent(send, none, Placeholder);
    OneMoreEvent(send, [Placeholder], Ack(send.messageId, Read));
    OneMoreEvent(send, [Placeholder] + [Ack(send.messageId, Read)], Response);
    OneMoreEvent(send, [Placeholder] + [Ack(send.messageId, Read)] + [Response], Arrives(echo));
  }

  lemma LateAck<C, M>(send: Send<C, M>, echo: Row<C, M>)
    requires WellFormedSend(send) && WellFormedEvent(send, Arrives(echo)) && IsEcho(send, Arrives(echo))
    ensures var b := AckIsLate(send, echo);
            && Legal(send, b) && Responded(b) && Echoed(send, b)
            && LastEcho(send, b) == echo && AcksOfRow(send, b) == [Read]
  {
    var none: seq<Event<C, M>> := [];
    assert none + [Placeholder] == [Placeholder];
    OneMoreEvent(send, none, Placeholder);
    OneMoreEvent(send, [Placeholder], Response);
    OneMoreEvent(send, [Placeholder] + [Response], Ack(send.messageId, Read));
    OneMoreEvent(send, [Placeholder] + [Response] + [Ack(send.messageId, Read)], Arrives(echo));
  }

  /** Ticks are not confluent: one read ack in front of the response is lost, behind it shows. */
  lemma TicksMayDiffer<C, M>(send: Send<C, M>, list: seq<Row<C, M>>, echo: Row<C, M>)
    requires WellFormedSend(send) && Fresh(send, list)
    requires WellFormedEvent(send, Arrives(echo)) && IsEcho(send, Arrives(echo))
    ensures multiset(AckIsEarly(send, echo)) == multiset(AckIsLate(send, echo))
    ensures var x := Lookup(Run(send, list, AckIsEarly(send, echo)), send.messageId);
            var y := Lookup(Run(send, list, AckIsLate(send, echo)), send.messageId);
            x.Some? && y.Some? && x.value.status == Sent && y.value.status == Read
  {
    EarlyAck(send, echo);
    LateAck(send, echo);
    ShownStatus(send, list, AckIsEarly(send, echo));
    ShownStatus(send, list, AckIsLate(send, echo));
    assert [Read][..0] == [];
  }

  lemma ShownStatus<C, M>(send: Send<C, M>, list: seq<Row<C, M>>, events: seq<Event<C, M>>)
    requires WellFormedSend(send) && Fresh(send, list) && Legal(send, events) && Responded(events)
    ensures var row := Lookup(Run(send, list, events), send.messageId);
            row.Some? && row.value.status == Fold(Sent, AcksOfRow(send, events))
  {
    RunTracks(send, list, events);
    StatusIsFold(send, events);
    RowExistsIff(send, events);
  }

  // ---------------------------------------------------------------- a send that fails

  /** `updateMessageById` with a new status: the first row with the id takes it. */
  function UpdateStatus<C, M>(list: seq<Row<C, M>>, id: string, status: Status): seq<Row<C, M>> {
    if list == [] then []
    else if list[0].id == id then [WithStatus(list[0], status)] + list[1..]
    else [list[0]] + UpdateStatus(list[1..], id, status)
  }

  /** The send once its request has failed: its placeholder shows so. */
  function Failing<C, M>(send: Send<C, M>): Send<C, M> {
    send.(placeholder := WithStatus(send.placeholder, Failed))
  }

  lemma {:induction false} UpdateMembers<C, M>(list: seq<Row<C, M>>, id: string, status: Status, r: Row<C, M>)
    requires UniqueKeys(list) && (forall m :: m in list && m.id == id ==> Key(m) == id)
    requires r in UpdateStatus(list, id, status)
    ensures (r in list && r.id != id) || exists m :: m in list && m.id == id && r == WithStatus(m, status)
  {
    var first, rest := list[0], list[1..];
    assert list == [first] + rest;
    UniqueCons(first, rest);
    if first.id == id {
      assert first in list && (r in rest ==> r in list && Key(r) != Key(first));
    } else if r != first {
      UpdateMembers(rest, id, status, r);
    }
  }

  lemma {:induction false} UpdateKeepsUnique<C, M>(list: seq<Row<C, M>>, id: string, status: Status)
    requires UniqueKeys(list) && (forall m :: m in list ==> (m.id == id <==> Key(m) == id))
    ensures UniqueKeys(UpdateStatus(list, id, status))
  {
    if list != [] {
      var first, rest := list[0], list[1..];
      assert list == [first] + rest;
      UniqueCons(first, rest);
      if first.id == id {
        UniqueCons(WithStatus(first, status), rest);
      } else {
        UpdateKeepsUnique(rest, id, status);
        forall r | r in UpdateStatus(rest, id, status)
          ensures Key(r) != Key(first)
        {
          UpdateMembers(rest, id, status, r);
        }
        UniqueCons(first, UpdateStatus(rest, id, status));
      }
    }
  }

  lemma {:induction false} UpdateLookup<C, M>(list: seq<Row<C, M>>, id: string, status: Status, key: string)
    requires forall m :: m in list ==> (m.id == id <==> Key(m) == id)
    ensures Lookup(UpdateStatus(list, id, status), key) ==
            if key == id && Lookup(list, key).Some? then Some(WithStatus(Lookup(list, key).value, status))
            else Lookup(list, key)
  {
    if list != [] {
      assert list[0] in list;
      if list[0].id != id {
        UpdateLookup(list[1..], id, status, key);
      }
    }
  }

  /** Without a response the placeholder plays no part in the row of the message. */
  lemma {:induction false} MessageRowBeforeResponse<C, M>(send: Send<C, M>, events: seq<Event<C, M>>)
    requires !Responded(events)
    ensures MessageRow(Failing(send), events) == MessageRow(send, events)
    ensures MessageRow(send, events).Some? <==> Echoed(send, events)
  {
    if events != [] {
      MessageRowBeforeResponse(send, events[..|events| - 1]);
    }
  }

  lemma FailureKeepsTracks<C, M>(send: Send<C, M>, list: seq<Row<C, M>>, events: seq<Event<C, M>>)
    requires WellFormedSend(send) && Tracks(send, list, events) && Placed(events) && !Responded(events)
    ensures Tracks(Failing(send), UpdateStatus(list, send.tempId, Failed), events)
  {
    var after := UpdateStatus(list, send.tempId, Failed);
    KeysOfSeparate(send, list);
    UpdateKeepsUnique(list, send.tempId, Failed);
    UpdateLookup(list, send.tempId, Failed, send.tempId);
    UpdateLookup(list, send.tempId, Failed, send.messageId);
    MessageRowBeforeResponse(send, events);
    forall r | r in after
      ensures Matches(r, send.tempId) ==> r == Failing(send).placeholder
      ensures Matches(r, send.messageId) ==> r.id == send.messageId && r.waMessageId == Some(send.messageId)
    {
      UpdateMembers(list, send.tempId, Failed, r);
    }
  }

  /** Only websocket messages and acks. */
  ghost predicate OnlyFromOutside<C, M>(send: Send<C, M>, events: seq<Event<C, M>>) {
    forall e :: e in events ==> (e.Arrives? || e.Ack?) && WellFormedEvent(send, e)
  }

  lemma {:induction false} LaterEventsKeepTracks<C, M>(
    send: Send<C, M>, list: seq<Row<C, M>>, before: seq<Event<C, M>>, later: seq<Event<C, M>>)
    requires WellFormedSend(send) && Tracks(send, list, before)
    requires OnlyFromOutside(send, later)
    ensures Tracks(send, Run(send, list, later), before + later)
  {
    if later == [] {
      assert before + later == before;
    } else {
      var some, e := later[..|later| - 1], later[|later| - 1];
      FewerFromOutside(send, later);
      LaterEventsKeepTracks(send, list, before, some);
      assert before + later == before + some + [e];
      OutsideKeepsTracks(send, Run(send, list, some), before + some, e);
    }
  }

  lemma FewerFromOutside<C, M>(send: Send<C, M>, events: seq<Event<C, M>>)
    requires events != [] && OnlyFromOutside(send, events)
    ensures OnlyFromOutside(send, events[..|events| - 1])
    ensures var e := events[|events| - 1]; (e.Arrives? || e.Ack?) && WellFormedEvent(send, e)
  {
    assert events[|events| - 1] in events;
    assert forall e :: e in events[..|events| - 1] ==> e in events;
  }

  lemma {:induction false} LaterEventsRespondNothing<C, M>(
    send: Send<C, M>, before: seq<Event<C, M>>, later: seq<Event<C, M>>)
    requires Placed(before) && !Responded(before) && OnlyFromOutside(send, later)
    ensures Placed(before + later) && !Responded(before + later)
    ensures Echoed(send, before + later) <==> Echoed(send, before) || Echoed(send, later)
  {
    if later == [] {
      assert before + later == before;
    } else {
      var some, e := later[..|later| - 1], later[|later| - 1];
      FewerFromOutside(send, later);
      LaterEventsRespondNothing(send, before, some);
      assert (before + later)[..|before + later| - 1] == before + some;
    }
  }

  lemma OutsideKeepsTracks<C, M>(send: Send<C, M>, list: seq<Row<C, M>>, events: seq<Event<C, M>>, e: Event<C, M>)
    requires WellFormedSend(send) && Tracks(send, list, events)
    requires (e.Arrives? || e.Ack?) && WellFormedEvent(send, e)
    ensures Tracks(send, Apply(send, list, e), events + [e])
  {
    if e.Arrives? {
      ArrivalKeepsTracks(send, list, events, e.m);
    } else {
      AckKeepsTracks(send, list, events, e.messageId, e.status);
    }
  }

  /**
   * After a failure the placeholder stays, failed for good, as one row; a second row for the message stands
   * beside it exactly when an echo arrives all the same, before or after.
   */
  lemma FailedSend<C, M>(send: Send<C, M>, list: seq<Row<C, M>>, before: seq<Event<C, M>>, later: seq<Event<C, M>>)
    requires WellFormedSend(send) && Fresh(send, list) && Legal(send, before) && Placed(before) && !Responded(before)
    requires OnlyFromOutside(send, later)
    ensures
      var failed := UpdateStatus(Run(send, list, before), send.tempId, Failed);
      var thread := Run(send, failed, later);
      && UniqueKeys(thread)
      && Lookup(thread, send.tempId) == Some(WithStatus(send.placeholder, Failed))
      && (Lookup(thread, send.messageId).Some? <==> Echoed(send, before) || Echoed(send, later))
  {
    RunTracks(send, list, before);
    var failed := UpdateStatus(Run(send, list, before), send.tempId, Failed);
    FailureKeepsTracks(send, Run(send, list, before), before);
    LaterEventsKeepTracks(Failing(send), failed, before, later);
    LaterEventsRespondNothing(send, before, later);
    SameSendFromOutside(send, failed, later);
    RowExistsIff(Failing(send), before + later);
    EchoedBySame(send, before + later);
  }

  /** The placeholder plays no part in what comes from outside. */
  lemma {:induction false} SameSendFromOutside<C, M>(send: Send<C, M>, list: seq<Row<C, M>>, events: seq<Event<C, M>>)
    requires OnlyFromOutside(send, events)
    ensures Run(Failing(send), list, events) == Run(send, list, events)
  {
    if events != [] {
      FewerFromOutside(send, events);
      SameSendFromOutside(send, list, events[..|events| - 1]);
    }
  }

  lemma {:induction false} EchoedBySame<C, M>(send: Send<C, M>, events: seq<Event<C, M>>)
    ensures Echoed(Failing(send), events) <==> Echoed(send, events)
  {
    if events != [] {
      EchoedBySame(send, events[..|events| - 1]);
    }
  }

  // ---------------------------------------------------------------- everything else in the thread

  /** The rows that do not belong to the send. */
  function Others<C, M>(send: Send<C, M>, list: seq<Row<C, M>>): seq<Row<C, M>> {
    if list == [] then []
    else if Key(list[0]) == send.tempId || Key(list[0]) == send.messageId then Others(send, list[1..])
    else [list[0]] + Others(send, list[1..])
  }

  predicate Concerns<C, M>(send: Send<C, M>, e: Event<C, M>) {
    match e
    case Placeholder => true
    case Response => true
    case Arrives(m) => m.id == send.messageId
    case Ack(messageId, _) => messageId == send.messageId
  }

  function Unconcerned<C, M>(send: Send<C, M>, events: seq<Event<C, M>>): seq<Event<C, M>> {
    if events == [] then []
    else
      Unconcerned(send, events[..|events| - 1]) +
      if Concerns(send, events[|events| - 1]) then [] else [events[|events| - 1]]
  }

  lemma {:induction false} OthersOfMerge<C, M>(send: Send<C, M>, list: seq<Row<C, M>>, m: Row<C, M>)
    ensures Others(send, MergeOrAppend(list, m)) ==
            if Key(m) == send.tempId || Key(m) == send.messageId then Others(send, list)
            else MergeOrAppend(Others(send, list), m)
  {
    if list != [] {
      OthersOfMerge(send, list[1..], m);
    }
  }

  lemma {:induction false} OthersOfAck<C, M>(send: Send<C, M>, list: seq<Row<C, M>>, messageId: string, status: Status)
    requires forall m :: m in list && Matches(m, messageId) ==>
               ((Key(m) == send.tempId || Key(m) == send.messageId) <==> messageId == send.messageId)
    ensures Others(send, AckSlice(list, messageId, status)) ==
            if messageId == send.messageId then Others(send, list) else AckSlice(Others(send, list), messageId, status)
  {
    if list != [] {
      OthersOfAck(send, list[1..], messageId, status);
    }
  }

  lemma {:induction false} OthersOfRespond<C, M>(send: Send<C, M>, list: seq<Row<C, M>>)
    requires forall m :: m in list ==> (m.id == send.tempId <==> Key(m) == send.tempId)
    ensures Others(send, DropId(list, send.tempId)) == Others(send, list)
        == Others(send, RenameId(list, send.tempId, send.messageId))
  {
    if list != [] {
      OthersOfRespond(send, list[1..]);
    }
  }

  lemma OthersOfStep<C, M>(send: Send<C, M>, list: seq<Row<C, M>>, e: Event<C, M>)
    requires WellFormedSend(send) && Separate(send, list) && WellFormedEvent(send, e)
    ensures Others(send, Apply(send, list, e))
        == if Concerns(send, e) then Others(send, list) else Apply(send, Others(send, list), e)
  {
    KeysOfSeparate(send, list);
    match e
    case Placeholder => OthersOfMerge(send, list, send.placeholder);
    case Response => OthersOfRespond(send, list);
    case Arrives(m) => OthersOfMerge(send, list, m);
    case Ack(messageId, status) => OthersOfAck(send, list, messageId, status);
  }

  /** A send neither drops, duplicates, changes nor reorders any other row. */
  lemma {:induction false} SendLeavesOthersAlone<C, M>(send: Send<C, M>, list: seq<Row<C, M>>, events: seq<Event<C, M>>)
    requires WellFormedSend(send) && Fresh(send, list) && Legal(send, events)
    ensures Others(send, Run(send, list, events)) == Run(send, Others(send, list), Unconcerned(send, events))
  {
    if events != [] {
      var before, e := events[..|events| - 1], events[|events| - 1];
      SendLeavesOthersAlone(send, list, before);
      RunTracks(send, list, before);
      OthersOfStep(send, Run(send, list, before), e);
      RunSnoc(send, Others(send, list), Unconcerned(send, before), e);
    }
  }

  lemma RunSnoc<C, M>(send: Send<C, M>, list: seq<Row<C, M>>, events: seq<Event<C, M>>, e: Event<C, M>)
    ensures Run(send, list, events + [e]) == Apply(send, Run(send, list, events), e)
    ensures events + [] == events
  {
    assert (events + [e])[..|events|] == events;
  }
}
