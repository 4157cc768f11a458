/** Delivery ticks that only advance (dashboard/src/utils/chatMessages.ts:61-77). */
module DeliveryStatus {
  import opened Wrappers

  /** The status of a row; the wire may also carry a name the dashboard does not know. */
  datatype Status = Pending | Sent | Delivered | Read | Failed | Unknown(name: string)

  /** `DELIVERY_RANK`: `failed` and unknown statuses have none. */
  function Rank(s: Status): Option<nat> {
    match s
    case Pending => Some(0)
    case Sent => Some(1)
    case Delivered => Some(2)
    case Read => Some(3)
    case Failed => None
    case Unknown(_) => None
  }

  /** `mergeDeliveryStatus`; either side may be missing, and an empty name counts as missing. */
  function MergeDeliveryStatus(current: Option<Status>, incoming: Option<Status>): (merged: Option<Status>)
    ensures merged.Some? <==> current.Some? || incoming.Some?
  {
    if incoming.None? then current
    else if current.None? then incoming
    else Some(Advance(current.value, incoming.value))
  }

  function Advance(current: Status, incoming: Status): Status {
    if current.Failed? then Failed
    else if incoming.Failed? then (if current.Pending? || current.Sent? then Failed else current)
    else if Rank(incoming).None? then current
    else if Rank(current).None? then incoming
    else if Rank(incoming).value >= Rank(current).value then incoming else current
  }

  /** Events applied one after the other. */
  function Fold(start: Status, events: seq<Status>): Status {
    if events == [] then start else Advance(Fold(start, events[..|events| - 1]), events[|events| - 1])
  }

  /** pending < sent < delivered < read, and `failed` above pending and sent with nothing above it. */
  predicate Below(a: Status, b: Status) {
    || a == b
    || (Rank(a).Some? && Rank(b).Some? && Rank(a).value <= Rank(b).value)
    || ((a.Pending? || a.Sent?) && b.Failed?)
  }

  predicate IsKnown(s: Status) {
    !s.Unknown?
  }

  /** Every step moves up or stays, and stays known. */
  lemma AdvanceMovesUp(current: Status, incoming: Status)
    requires IsKnown(current)
    ensures IsKnown(Advance(current, incoming)) && Below(current, Advance(current, incoming))
    ensures Advance(Advance(current, incoming), incoming) == Advance(current, incoming)
  {
  }

  /** `Below` is a partial order on the known statuses, and `failed` is terminal in it. */
  lemma BelowIsPartialOrder(a: Status, b: Status, c: Status)
    requires IsKnown(a) && IsKnown(b) && IsKnown(c)
    ensures Below(a, a)
    ensures Below(a, b) && Below(b, a) ==> a == b
    ensures Below(a, b) && Below(b, c) ==> Below(a, c)
    ensures Below(Failed, a) ==> a == Failed
  {
  }

  /** The transitions between known statuses one by one. */
  lemma TransitionTable(current: Status, incoming: Status)
    requires IsKnown(current) && IsKnown(incoming)
    ensures Advance(current, incoming) ==
            match current
            case Pending => incoming
            case Sent => if incoming.Pending? then Sent else incoming
            case Delivered => if incoming.Read? then Read else Delivered
            case Read => Read
            case Failed => Failed
    ensures Below(current, incoming) <==>
            || current == incoming || current.Pending?
            || (current.Sent? && !incoming.Pending?)
            || (current.Delivered? && incoming.Read?)
  {
  }

  /** An unknown status is ignored, or given up for a rank; a missing side leaves the other. */
  lemma UnknownAndMissing(current: Status, name: string, incoming: Status)
    ensures Advance(current, Unknown(name)) == current
    ensures Advance(Unknown(name), incoming) ==
            if incoming.Failed? || incoming.Unknown? then Unknown(name) else incoming
    ensures MergeDeliveryStatus(None, Some(incoming)) == Some(incoming)
    ensures MergeDeliveryStatus(Some(current), None) == Some(current)
    ensures MergeDeliveryStatus(None, None) == None
    ensures MergeDeliveryStatus(Some(current), Some(incoming)) == Some(Advance(current, incoming))
  {
  }

  /** Event `i` is a failure, and nothing has been delivered or read before it. */
  ghost predicate FailsAt(events: seq<Status>, i: nat)
    requires i < |events|
  {
    events[i].Failed? && forall j :: 0 <= j < i ==> !events[j].Delivered? && !events[j].Read?
  }

  /** A failure arrives while nothing has been delivered or read yet. */
  ghost predicate FailsInTime(events: seq<Status>) {
    exists i :: 0 <= i < |events| && FailsAt(events, i)
  }

  /** `s` is the highest ranked status among `start` and the events. */
  ghost predicate HighestFrom(start: Status, events: seq<Status>, s: Status) {
    && Rank(s).Some?
    && (s == start || s in events)
    && (Rank(start).Some? ==> Rank(start).value <= Rank(s).value)
    && forall e :: e in events && Rank(e).Some? ==> Rank(e).value <= Rank(s).value
  }

  /** `s` is the highest ranked status among `pending` and the events. */
  ghost predicate HighestSeen(events: seq<Status>, s: Status) {
    HighestFrom(Pending, events, s)
  }

  /**
   * Over a whole run from `pending`: failed exactly when a failure comes before every delivery and every
   * reading, and otherwise the highest rank seen.
   */
  lemma FoldMeaning(events: seq<Status>)
    ensures FailsInTime(events) ==> Fold(Pending, events) == Failed
    ensures !FailsInTime(events) ==> HighestSeen(events, Fold(Pending, events))
  {
    FoldMeaningFrom(Pending, events);
  }

  /** The same from `pending` or `sent`. */
  lemma {:induction false} FoldMeaningFrom(start: Status, events: seq<Status>)
    requires start.Pending? || start.Sent?
    ensures FailsInTime(events) ==> Fold(start, events) == Failed
    ensures !FailsInTime(events) ==> HighestFrom(start, events, Fold(start, events))
  {
    if events != [] {
      var n := |events| - 1;
      var before := events[..n];
      FoldMeaningFrom(start, before);
      assert events == before + [events[n]];
      if FailsInTime(before) {
        FailureStays(before, events[n]);
      } else if events[n].Failed? {
        FailureAtTheEnd(start, before, Fold(start, before));
      } else if FailsInTime(events) {
        FailureIsEarlier(before, events[n]);
      }
    }
  }

  lemma FailureStays(before: seq<Status>, last: Status)
    requires FailsInTime(before)
    ensures FailsInTime(before + [last])
  {
    var events := before + [last];
    var i :| 0 <= i < |before| && FailsAt(before, i);
    assert events[i] == before[i] && forall j :: 0 <= j < i ==> events[j] == before[j];
    assert FailsAt(events, i);
  }

  lemma FailureIsEarlier(before: seq<Status>, last: Status)
    requires FailsInTime(before + [last]) && !last.Failed?
    ensures FailsInTime(before)
  {
    var events := before + [last];
    var i :| 0 <= i < |events| && FailsAt(events, i);
    assert before[i] == events[i] && forall j :: 0 <= j < i ==> before[j] == events[j];
    assert FailsAt(before, i);
  }

  lemma FailureAtTheEnd(start: Status, before: seq<Status>, s: Status)
    requires start.Pending? || start.Sent?
    requires !FailsInTime(before) && HighestFrom(start, before, s)
    ensures FailsInTime(before + [Failed]) <==> Rank(s).value <= 1
  {
    var events := before + [Failed];
    if Rank(s).value <= 1 {
      forall j | 0 <= j < |before|
        ensures !events[j].Delivered? && !events[j].Read?
      {
        assert events[j] == before[j] && before[j] in before;
      }
      assert FailsAt(events, |before|);
    } else {
      var k :| 0 <= k < |before| && before[k] == s;
      if FailsInTime(events) {
        var i :| 0 <= i < |events| && FailsAt(events, i);
        assert events[k] == s && k >= i;
        assert before[i] == events[i] && forall j :: 0 <= j < i ==> before[j] == events[j];
        assert FailsAt(before, i);
      }
    }
  }

  /** The highest rank among `sent` and the events. */
  function TopRank(events: seq<Status>): nat {
    if events == [] then 1
    else
      var before, last := TopRank(events[..|events| - 1]), Rank(events[|events| - 1]);
      if last.Some? && before < last.value then last.value else before
  }

  lemma {:induction false} TopRankIsHighest(events: seq<Status>)
    ensures TopRank(events) == 1 || exists e :: e in events && Rank(e) == Some(TopRank(events))
    ensures TopRank(events) >= 1 && forall e :: e in events && Rank(e).Some? ==> Rank(e).value <= TopRank(events)
  {
    if events != [] {
      var n := |events| - 1;
      TopRankIsHighest(events[..n]);
      assert events == events[..n] + [events[n]];
    }
  }

  /** A failure comes in time in both, or in neither and the top rank is the same. */
  ghost predicate SameTicks(a: seq<Status>, b: seq<Status>) {
    if FailsInTime(a) then FailsInTime(b) else !FailsInTime(b) && TopRank(a) == TopRank(b)
  }

  lemma FoldFromSent(events: seq<Status>)
    ensures FailsInTime(events) ==> Fold(Sent, events) == Failed
    ensures !FailsInTime(events) ==> Rank(Fold(Sent, events)) == Some(TopRank(events))
  {
    FoldMeaningFrom(Sent, events);
    TopRankIsHighest(events);
  }

  /** Two runs from `sent` end in the same status exactly then. */
  lemma SameTicksIff(a: seq<Status>, b: seq<Status>)
    ensures Fold(Sent, a) == Fold(Sent, b) <==> SameTicks(a, b)
  {
    FoldFromSent(a);
    FoldFromSent(b);
  }

  /** Replaying the last event changes nothing. */
  lemma ReplayChangesNothing(events: seq<Status>)
    requires events != []
    ensures Fold(Pending, events + [events[|events| - 1]]) == Fold(Pending, events)
  {
    var last := events[|events| - 1];
    var again := events + [last];
    assert again[..|again| - 1] == events;
    FoldIsKnown(events[..|events| - 1]);
    AdvanceMovesUp(Fold(Pending, events[..|events| - 1]), last);
  }

  lemma {:induction false} FoldIsKnown(events: seq<Status>)
    ensures IsKnown(Fold(Pending, events))
  {
    if events != [] {
      FoldIsKnown(events[..|events| - 1]);
    }
  }
}
