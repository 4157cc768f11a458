/**
 * The message cache of the chat page: loading a slice (dashboard/src/utils/chatMessages.ts,
 * `mergeChatMessages`) and the event handlers that rewrite slices in place
 * (dashboard/src/hooks/useChatMessages.ts, dashboard/src/pages/Chats.tsx), with the loops of the source.
 */
module ChatCache {
  import opened Wrappers
  import opened DeliveryStatus
  import opened StableSort
  import opened ChatThread

  // ---------------------------------------------------------------- loading a slice

  /** `byId.set(msgKey(m), m)`: a key keeps its place in the map and takes the new value. */
  function Put<C, M>(byId: seq<Row<C, M>>, m: Row<C, M>): seq<Row<C, M>> {
    if byId == [] then [m]
    else if Key(byId[0]) == Key(m) then [m] + byId[1..]
    else [byId[0]] + Put(byId[1..], m)
  }

  function PutAll<C, M>(byId: seq<Row<C, M>>, ms: seq<Row<C, M>>): seq<Row<C, M>> {
    if ms == [] then byId else Put(PutAll(byId, ms[..|ms| - 1]), ms[|ms| - 1])
  }

  function ByTime<C, M>(): (Row<C, M>, Row<C, M>) -> bool {
    (a: Row<C, M>, b: Row<C, M>) => a.time < b.time || (a.time == b.time && a.created <= b.created)
  }

  function Merged<C, M>(db: seq<Row<C, M>>, history: seq<Row<C, M>>): seq<Row<C, M>> {
    Sort(ByTime(), PutAll(PutAll([], history), db))
  }

  method MergeChatMessages<C, M>(db: seq<Row<C, M>>, history: seq<Row<C, M>>) returns (thread: seq<Row<C, M>>)
    ensures thread == Merged(db, history)
  {
    var byId := [];
    for i := 0 to |history|
      invariant byId == PutAll([], history[..i])
    {
      byId := Put(byId, history[i]);
      assert history[..i + 1][..i] == history[..i];
    }
    assert history[..|history|] == history;
    for i := 0 to |db|
      invariant byId == PutAll(PutAll([], history), db[..i])
    {
      byId := Put(byId, db[i]);
      assert db[..i + 1][..i] == db[..i];
    }
    assert db[..|db|] == db;
    thread := Sort(ByTime(), byId);
  }

  /** The last row with the key. */
  function LastWithKey<C, M>(ms: seq<Row<C, M>>, key: string): Option<Row<C, M>> {
    if ms == [] then None
    else if Key(ms[|ms| - 1]) == key then Some(ms[|ms| - 1])
    else LastWithKey(ms[..|ms| - 1], key)
  }

  lemma {:induction false} PutLookup<C, M>(byId: seq<Row<C, M>>, m: Row<C, M>, key: string)
    ensures Lookup(Put(byId, m), key) == if key == Key(m) then Some(m) else Lookup(byId, key)
  {
    if byId != [] && Key(byId[0]) != Key(m) {
      PutLookup(byId[1..], m, key);
    }
  }

  lemma {:induction false} PutMember<C, M>(byId: seq<Row<C, M>>, m: Row<C, M>, r: Row<C, M>)
    requires r in Put(byId, m)
    ensures r == m || r in byId
  {
    if byId != [] && Key(byId[0]) != Key(m) && r != byId[0] {
      PutMember(byId[1..], m, r);
    }
  }

  lemma {:induction false} PutKeepsUnique<C, M>(byId: seq<Row<C, M>>, m: Row<C, M>)
    requires UniqueKeys(byId)
    ensures UniqueKeys(Put(byId, m))
  {
    if byId != [] {
      var first, rest := byId[0], byId[1..];
      assert byId == [first] + rest;
      UniqueCons(first, rest);
      if Key(first) == Key(m) {
        UniqueCons(m, rest);
      } else {
        PutKeepsUnique(rest, m);
        forall r | r in Put(rest, m)
          ensures Key(r) != Key(first)
        {
          PutMember(rest, m, r);
        }
        UniqueCons(first, Put(rest, m));
      }
    }
  }

  lemma {:induction false} PutAllMeaning<C, M>(byId: seq<Row<C, M>>, ms: seq<Row<C, M>>, key: string)
    requires UniqueKeys(byId)
    ensures UniqueKeys(PutAll(byId, ms))
    ensures Lookup(PutAll(byId, ms), key)
        == if LastWithKey(ms, key).Some? then LastWithKey(ms, key) else Lookup(byId, key)
  {
    if ms != [] {
      var n := |ms| - 1;
      PutAllMeaning(byId, ms[..n], key);
      PutKeepsUnique(PutAll(byId, ms[..n]), ms[n]);
      PutLookup(PutAll(byId, ms[..n]), ms[n], key);
    }
  }

  lemma {:induction false} InsertKeepsUnique<C, M>(
      leq: (Row<C, M>, Row<C, M>) -> bool, m: Row<C, M>, list: seq<Row<C, M>>)
    requires UniqueKeys(list) && forall r :: r in list ==> Key(r) != Key(m)
    ensures UniqueKeys(Insert(leq, m, list))
  {
    if list != [] && leq(list[0], m) {
      var first, rest := list[0], list[1..];
      assert list == [first] + rest;
      UniqueCons(first, rest);
      InsertKeepsUnique(leq, m, rest);
      forall r | r in Insert(leq, m, rest)
        ensures Key(r) != Key(first)
      {
        InsertMember(leq, m, rest, r);
      }
      UniqueCons(first, Insert(leq, m, rest));
    } else {
      UniqueCons(m, list);
    }
  }

  lemma {:induction false} SortMember<C, M>(leq: (Row<C, M>, Row<C, M>) -> bool, list: seq<Row<C, M>>, r: Row<C, M>)
    ensures r in Sort(leq, list) <==> r in list
  {
    if list != [] {
      var n := |list| - 1;
      assert list == list[..n] + [list[n]];
      SortMember(leq, list[..n], r);
      InsertMember(leq, list[n], Sort(leq, list[..n]), r);
    }
  }

  lemma {:induction false} SortKeepsUnique<C, M>(leq: (Row<C, M>, Row<C, M>) -> bool, list: seq<Row<C, M>>)
    requires UniqueKeys(list)
    ensures UniqueKeys(Sort(leq, list))
  {
    if list != [] {
      var n := |list| - 1;
      SortKeepsUnique(leq, list[..n]);
      forall r | r in Sort(leq, list[..n])
        ensures Key(r) != Key(list[n])
      {
        SortMember(leq, list[..n], r);
        var i :| 0 <= i < n && list[..n][i] == r;
        assert list[i] == r;
      }
      InsertKeepsUnique(leq, list[n], Sort(leq, list[..n]));
    }
  }

  lemma {:induction false} LookupUnique<C, M>(list: seq<Row<C, M>>, m: Row<C, M>)
    requires UniqueKeys(list) && m in list
    ensures Lookup(list, Key(m)) == Some(m)
  {
    assert list == [list[0]] + list[1..];
    UniqueCons(list[0], list[1..]);
    if m != list[0] {
      LookupUnique(list[1..], m);
    }
  }

  lemma ByTimeIsPreorder<C(!new), M(!new)>()
    ensures TotalPreorder(ByTime<C, M>())
  {
  }

  /** The merged thread ascends in time, and among rows of the same second in their creation. */
  lemma ThreadAscends<C(!new), M(!new)>(db: seq<Row<C, M>>, history: seq<Row<C, M>>, i: nat, j: nat)
    requires i < j < |Merged(db, history)|
    ensures var a, b := Merged(db, history)[i], Merged(db, history)[j];
            a.time < b.time || (a.time == b.time && a.created <= b.created)
  {
    ByTimeIsPreorder<C, M>();
    SortSorts(ByTime(), PutAll(PutAll([], history), db));
    assert ByTime<C, M>()(Merged(db, history)[i], Merged(db, history)[j]);
  }

  /** One row per message: no WhatsApp id twice, and among the rows without one no id twice. */
  lemma OneRowPerMessage<C, M>(list: seq<Row<C, M>>, i: nat, j: nat)
    requires UniqueKeys(list) && i < j < |list|
    ensures list[i].waMessageId == list[j].waMessageId ==> list[i].waMessageId.None? && list[i].id != list[j].id
  {
    assert Key(list[i]) != Key(list[j]);
  }

  /**
   * The merged thread has one row per key, and under each key the last database row, or the last history row
   * when the database has none.
   */
  lemma MergedThread<C(!new), M(!new)>(db: seq<Row<C, M>>, history: seq<Row<C, M>>, key: string)
    ensures UniqueKeys(Merged(db, history))
    ensures Lookup(Merged(db, history), key)
        == if LastWithKey(db, key).Some? then LastWithKey(db, key) else LastWithKey(history, key)
  {
    var none: seq<Row<C, M>> := [];
    var older := PutAll(none, history);
    var byId := PutAll(older, db);
    PutAllMeaning(none, history, key);
    PutAllMeaning(older, db, key);
    SortKeepsUnique(ByTime(), byId);
    forall r
      ensures r in Merged(db, history) <==> r in byId
    {
      SortMember(ByTime(), byId, r);
    }
    SameLookup(byId, Merged(db, history), key);
  }

  lemma SameLookup<C, M>(a: seq<Row<C, M>>, b: seq<Row<C, M>>, key: string)
    requires UniqueKeys(a) && UniqueKeys(b) && forall r :: r in b <==> r in a
    ensures Lookup(b, key) == Lookup(a, key)
  {
    LookupFinds(a, key);
    LookupFinds(b, key);
    if Lookup(a, key).Some? {
      LookupUnique(b, Lookup(a, key).value);
    }
  }

  // ---------------------------------------------------------------- rewriting a slice

  /** Replacing by recursion is replacing at the first index with the key, or appending when there is none. */
  lemma {:induction false} MergeAtIndex<C, M>(list: seq<Row<C, M>>, incoming: Row<C, M>, idx: nat)
    requires idx <= |list| && forall j :: 0 <= j < idx ==> Key(list[j]) != Key(incoming)
    requires idx < |list| ==> Key(list[idx]) == Key(incoming)
    ensures MergeOrAppend(list, incoming) ==
            if idx < |list| then list[idx := Replaced(list[idx], incoming)] else list + [incoming]
  {
    if idx > 0 {
      MergeAtIndex(list[1..], incoming, idx - 1);
    }
  }

  lemma {:induction false} AckAtIndex<C, M>(list: seq<Row<C, M>>, messageId: string, status: Status, idx: nat)
    requires idx <= |list| && forall j :: 0 <= j < idx ==> !Matches(list[j], messageId)
    requires idx < |list| ==> Matches(list[idx], messageId)
    ensures AckSlice(list, messageId, status) == if idx < |list| then list[idx := Acked(list[idx], status)] else list
  {
    if idx > 0 {
      AckAtIndex(list[1..], messageId, status, idx - 1);
    }
  }

  /** Entry `k` is the first with the key. */
  ghost predicate IsFirst<C, M>(list: seq<Row<C, M>>, key: string, k: nat)
    requires k < |list|
  {
    Key(list[k]) == key && forall j :: 0 <= j < k ==> Key(list[j]) != key
  }

  /** A copy of a message replaces the row with its WhatsApp id in place, whatever the two call themselves. */
  lemma SameMessageIsReplaced<C, M>(list: seq<Row<C, M>>, incoming: Row<C, M>, k: nat)
    requires UniqueKeys(list) && k < |list|
    requires list[k].waMessageId.Some? && list[k].waMessageId == incoming.waMessageId
    ensures var next := MergeOrAppend(list, incoming);
            && |next| == |list| && (forall j :: 0 <= j < |list| && j != k ==> next[j] == list[j])
            && next[k].id == incoming.id && next[k].content == incoming.content
  {
    forall j | 0 <= j < k
      ensures Key(list[j]) != Key(incoming)
    {
      assert Key(list[j]) != Key(list[k]);
    }
    MergeAtIndex(list, incoming, k);
  }

  /** An ack names a row by its id or by its WhatsApp id, and advances the first row it names. */
  lemma AckedByEitherId<C, M>(list: seq<Row<C, M>>, messageId: string, status: Status, k: nat)
    requires k < |list| && (list[k].id == messageId || list[k].waMessageId == Some(messageId))
    requires forall j :: 0 <= j < k ==> list[j].id != messageId && list[j].waMessageId != Some(messageId)
    ensures AckSlice(list, messageId, status) ==
            list[k := list[k].(status := Advance(list[k].status, status))]
  {
    AckAtIndex(list, messageId, status, k);
  }

  /** Without an echo the response gives the placeholder its identity where it stands. */
  lemma {:induction false} RenamedInPlace<C, M>(list: seq<Row<C, M>>, tempId: string, messageId: string, k: nat)
    requires k < |list| && list[k].id == tempId
    requires forall j :: 0 <= j < |list| && j != k ==> list[j].id != tempId
    requires forall j :: 0 <= j < |list| ==> list[j].id != messageId && list[j].waMessageId != Some(messageId)
    ensures Respond(list, tempId, messageId) ==
            list[k := list[k].(id := messageId, waMessageId := Some(messageId), status := Sent)]
  {
    if k > 0 {
      RenamedInPlace(list[1..], tempId, messageId, k - 1);
    } else {
      NothingToRename(list[1..], tempId, messageId);
    }
  }

  lemma {:induction false} NothingToRename<C, M>(list: seq<Row<C, M>>, tempId: string, messageId: string)
    requires forall j :: 0 <= j < |list| ==> list[j].id != tempId
    requires forall j :: 0 <= j < |list| ==> list[j].id != messageId && list[j].waMessageId != Some(messageId)
    ensures RenameId(list, tempId, messageId) == list && !AnyMatches(list, messageId)
  {
    if list != [] {
      NothingToRename(list[1..], tempId, messageId);
    }
  }

  /** With an echo there already, the response takes the placeholder out and leaves the others as they are. */
  lemma PlaceholderGoes<C, M>(list: seq<Row<C, M>>, tempId: string, messageId: string, e: nat)
    requires e < |list| && (list[e].id == messageId || list[e].waMessageId == Some(messageId))
    ensures Respond(list, tempId, messageId) == Filter((m: Row<C, M>) => m.id != tempId, list)
  {
    EchoMatches(list, messageId, e);
    DropIsFilter(list, tempId);
  }

  lemma {:induction false} EchoMatches<C, M>(list: seq<Row<C, M>>, messageId: string, e: nat)
    requires e < |list| && (list[e].id == messageId || list[e].waMessageId == Some(messageId))
    ensures AnyMatches(list, messageId)
  {
    if e > 0 {
      EchoMatches(list[1..], messageId, e - 1);
    }
  }

  lemma {:induction false} DropIsFilter<C, M>(list: seq<Row<C, M>>, id: string)
    ensures DropId(list, id) == Filter((m: Row<C, M>) => m.id != id, list)
  {
    if list != [] {
      DropIsFilter(list[1..], id);
      FilterFirst((m: Row<C, M>) => m.id != id, list[0], list[1..]);
      assert list == [list[0]] + list[1..];
    }
  }

  /** `mergeOrAppend`: find the entry, and append or replace it in a copy. */
  method MergeOrAppendInCopy<C, M>(list: seq<Row<C, M>>, incoming: Row<C, M>) returns (next: seq<Row<C, M>>)
    ensures next == MergeOrAppend(list, incoming)
    ensures (forall j :: 0 <= j < |list| ==> Key(list[j]) != Key(incoming)) ==> next == list + [incoming]
    ensures forall k :: 0 <= k < |list| && IsFirst(list, Key(incoming), k) ==>
              next == list[k := incoming.(
                status := Advance(list[k].status, incoming.status),
                metadata := if incoming.metadata.Some? then incoming.metadata else list[k].metadata)]
  {
    var idx := 0;
    while idx < |list| && Key(list[idx]) != Key(incoming)
      invariant idx <= |list| && forall j :: 0 <= j < idx ==> Key(list[j]) != Key(incoming)
    {
      idx := idx + 1;
    }
    MergeAtIndex(list, incoming, idx);
    if idx == |list| {
      return list + [incoming];
    }
    next := list[idx := Replaced(list[idx], incoming)];
  }

  /** The update of one slice by an ack. */
  method AckInCopy<C, M>(list: seq<Row<C, M>>, messageId: string, status: Status) returns (next: seq<Row<C, M>>)
    ensures next == AckSlice(list, messageId, status)
  {
    var idx := 0;
    while idx < |list| && !Matches(list[idx], messageId)
      invariant idx <= |list| && forall j :: 0 <= j < idx ==> !Matches(list[j], messageId)
    {
      idx := idx + 1;
    }
    AckAtIndex(list, messageId, status, idx);
    if idx == |list| {
      return list;
    }
    next := list[idx := Acked(list[idx], status)];
  }

  lemma {:induction false} UpdateAtIndex<C, M>(list: seq<Row<C, M>>, id: string, status: Status, idx: nat)
    requires idx <= |list| && forall j :: 0 <= j < idx ==> list[j].id != id
    requires idx < |list| ==> list[idx].id == id
    ensures UpdateStatus(list, id, status) == if idx < |list| then list[idx := WithStatus(list[idx], status)] else list
  {
    if idx > 0 {
      UpdateAtIndex(list[1..], id, status, idx - 1);
    }
  }

  /** `updateMessageById`, patching the status. */
  method UpdateStatusInCopy<C, M>(list: seq<Row<C, M>>, id: string, status: Status) returns (next: seq<Row<C, M>>)
    ensures next == UpdateStatus(list, id, status)
  {
    var idx := 0;
    while idx < |list| && list[idx].id != id
      invariant idx <= |list| && forall j :: 0 <= j < idx ==> list[j].id != id
    {
      idx := idx + 1;
    }
    UpdateAtIndex(list, id, status, idx);
    if idx == |list| {
      return list;
    }
    next := list[idx := WithStatus(list[idx], status)];
  }

  /** The cached slices of one session, by chat. */
  class MessageCache<C, M> {
    var slices: map<string, seq<Row<C, M>>>

    constructor ()
      ensures slices == map[]
    {
      slices := map[];
    }

    /** Placeholders and websocket messages: a chat that was never opened gets no slice. */
    method AppendMessage(chatId: string, m: Row<C, M>)
      modifies this
      ensures slices ==
        if chatId in old(slices) then old(slices)[chatId := MergeOrAppend(old(slices)[chatId], m)] else old(slices)
    {
      if chatId in slices {
        var next := MergeOrAppendInCopy(slices[chatId], m);
        slices := slices[chatId := next];
      }
    }

    /** The response of `handleSend`; a slice that is gone by then comes back empty. */
    method HandleResponse(chatId: string, tempId: string, messageId: string)
      modifies this
      ensures slices ==
        old(slices)[chatId := if chatId in old(slices) then Respond(old(slices)[chatId], tempId, messageId) else []]
    {
      var prev := if chatId in slices then slices[chatId] else [];
      slices := slices[chatId := Respond(prev, tempId, messageId)];
    }

    /** The catch block of `handleSend`. */
    method HandleFailure(chatId: string, tempId: string)
      modifies this
      ensures slices ==
        old(slices)[chatId := UpdateStatus(if chatId in old(slices) then old(slices)[chatId] else [], tempId, Failed)]
    {
      var next := UpdateStatusInCopy(if chatId in slices then slices[chatId] else [], tempId, Failed);
      slices := slices[chatId := next];
    }

    /** `handleIncomingMessageAck` walks every slice of the session. */
    method HandleAck(messageId: string, status: Status)
      modifies this
      ensures slices.Keys == old(slices).Keys
      ensures forall chatId :: chatId in slices ==> slices[chatId] == AckSlice(old(slices)[chatId], messageId, status)
    {
      var keys := slices.Keys;
      while keys != {}
        invariant keys <= slices.Keys == old(slices).Keys
        invariant forall chatId :: chatId in slices ==>
                    slices[chatId] ==
                      if chatId in keys then old(slices)[chatId] else AckSlice(old(slices)[chatId], messageId, status)
        decreases keys
      {
        var key :| key in keys;
        var next := AckInCopy(slices[key], messageId, status);
        slices := slices[key := next];
        keys := keys - {key};
      }
    }
  }
}
