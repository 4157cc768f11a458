/**
 * The hook registry (src/core/hooks/hook-manager.service.ts): per event a list ordered by priority,
 * and per plugin the ids it registered.
 *
 * The ghost field `live` holds the registrations that exist, in the order they were made; every event
 * list is the stable sort of the live registrations of that event.
 */
module HookManager {
  import opened Wrappers
  import opened StableSort
  import opened HookHandlers
  import opened HookIds

  function ByPriority<D>(): (Registration<D>, Registration<D>) -> bool {
    (a: Registration<D>, b: Registration<D>) => a.priority <= b.priority
  }

  function OfEvent<D>(e: HookEvent): Registration<D> -> bool {
    (r: Registration<D>) => r.event == e
  }

  function NotOfPlugin<D>(pluginId: string): Registration<D> -> bool {
    (r: Registration<D>) => r.pluginId != pluginId
  }

  /** The chain of an event: its live registrations by priority, ties in registration order. */
  function ChainOf<D>(live: seq<Registration<D>>, e: HookEvent): seq<Registration<D>> {
    Sort(ByPriority(), Filter(OfEvent(e), live))
  }

  lemma ByPriorityIsPreorder<D(!new)>()
    ensures TotalPreorder(ByPriority<D>())
  {
  }

  /** A chain ascends in the priorities themselves. */
  lemma ChainAscends<D(!new)>(live: seq<Registration<D>>, e: HookEvent, i: nat, j: nat)
    requires i < j < |ChainOf(live, e)|
    ensures ChainOf(live, e)[i].priority <= ChainOf(live, e)[j].priority
  {
    ByPriorityIsPreorder<D>();
    SortSorts(ByPriority(), Filter(OfEvent(e), live));
    assert ByPriority<D>()(ChainOf(live, e)[i], ChainOf(live, e)[j]);
  }

  /** Every chain runs its live registrations lowest priority first, and ties in registration order. */
  lemma ChainIsOrdered<D(!new)>(live: seq<Registration<D>>, e: HookEvent, priority: real)
    ensures var chain := ChainOf(live, e);
            forall i, j :: 0 <= i < j < |chain| ==> chain[i].priority <= chain[j].priority
    ensures multiset(ChainOf(live, e)) == multiset(Filter(OfEvent(e), live))
    ensures Filter(OfPriority(priority), ChainOf(live, e)) == Filter(OfPriority(priority), Filter(OfEvent(e), live))
  {
    ByPriorityIsPreorder<D>();
    forall i: nat, j: nat | i < j < |ChainOf(live, e)|
      ensures ChainOf(live, e)[i].priority <= ChainOf(live, e)[j].priority
    {
      ChainAscends(live, e, i, j);
    }
    SortContents(ByPriority(), Filter(OfEvent(e), live));
    SortIsStable(ByPriority(), OfPriority(priority), Filter(OfEvent(e), live));
  }

  /** Unregistering keeps exactly the registrations of the other plugins. */
  lemma OthersStay<D(!new)>(live: seq<Registration<D>>, pluginId: string, r: Registration<D>)
    ensures r in Filter(NotOfPlugin(pluginId), live) <==> r in live && r.pluginId != pluginId
  {
    FilterMembers(NotOfPlugin(pluginId), live);
  }

  function OfPriority<D>(priority: real): Registration<D> -> bool {
    (r: Registration<D>) => r.priority == priority
  }

  /** Pushing a registration and sorting its event's list again is what the new chain is. */
  lemma ChainAfterRegister<D(!new)>(live: seq<Registration<D>>, r: Registration<D>, e: HookEvent)
    ensures ChainOf(live + [r], e) ==
      if r.event == e then Sort(ByPriority(), ChainOf(live, e) + [r]) else ChainOf(live, e)
  {
    ByPriorityIsPreorder<D>();
    var f := Filter(OfEvent(e), live);
    FilterSnoc(OfEvent(e), live, r);
    if r.event == e {
      SortSnoc(ByPriority(), f, r);
      SortSnoc(ByPriority(), ChainOf(live, e), r);
      SortSorts(ByPriority(), f);
      SortIsIdentityOnSorted(ByPriority(), ChainOf(live, e));
    }
  }

  /** Filtering a plugin out of every list is what the chains become without its registrations. */
  lemma ChainAfterUnregisterPlugin<D(!new)>(live: seq<Registration<D>>, pluginId: string, e: HookEvent)
    ensures Filter(NotOfPlugin(pluginId), ChainOf(live, e)) == ChainOf(Filter(NotOfPlugin(pluginId), live), e)
  {
    ByPriorityIsPreorder<D>();
    FilterSort(ByPriority(), NotOfPlugin(pluginId), Filter(OfEvent(e), live));
    FilterTwice(NotOfPlugin(pluginId), OfEvent(e), live);
  }

  /** Splicing one entry out of an event's list removes one live registration and touches no other list. */
  lemma ChainAfterSplice<D(!new)>(live: seq<Registration<D>>, e: HookEvent, k: nat) returns (m: nat)
    requires k < |ChainOf(live, e)|
    ensures m < |live| && live[m] == ChainOf(live, e)[k] && live[m].event == e
    ensures ChainOf(RemoveAt(live, m), e) == RemoveAt(ChainOf(live, e), k)
    ensures forall f :: f != e ==> ChainOf(RemoveAt(live, m), f) == ChainOf(live, f)
  {
    ByPriorityIsPreorder<D>();
    var j := RemoveFromSort(ByPriority(), Filter(OfEvent(e), live), k);
    m := RemoveFromFilter(OfEvent(e), live, j);
    forall f | f != e
      ensures ChainOf(RemoveAt(live, m), f) == ChainOf(live, f)
    {
      RemoveUnkept(OfEvent(f), live, m);
    }
  }

  lemma ChainMember<D(!new)>(live: seq<Registration<D>>, e: HookEvent, r: Registration<D>)
    ensures r in ChainOf(live, e) <==> r in live && r.event == e
  {
    ByPriorityIsPreorder<D>();
    var f := Filter(OfEvent(e), live);
    SortContents(ByPriority(), f);
    FilterMembers(OfEvent(e), live);
    assert r in ChainOf(live, e) <==> r in multiset(ChainOf(live, e));
    assert r in f <==> r in multiset(f);
  }

  /** The ids of a plugin's live registrations. */
  ghost function IdsOf<D>(live: seq<Registration<D>>, pluginId: string): set<string> {
    set i | 0 <= i < |live| && live[i].pluginId == pluginId :: live[i].id
  }

  ghost predicate DistinctIds<D>(live: seq<Registration<D>>, pluginId: string) {
    forall i, j :: 0 <= i < j < |live| && live[i].pluginId == live[j].pluginId == pluginId ==> live[i].id != live[j].id
  }

  /** `registrations.findIndex(r => r.id === hookId)`, with `None` for -1. */
  function FindId<D>(rs: seq<Registration<D>>, hookId: string): (k: Option<nat>)
    ensures k.Some? ==> k.value < |rs| && rs[k.value].id == hookId
  {
    if rs == [] then None
    else if rs[0].id == hookId then Some(0)
    else
      match FindId(rs[1..], hookId)
      case None => None
      case Some(k) => Some(k + 1)
  }

  /** Nothing in front of the index, or nothing at all, has the id. */
  lemma {:induction false} FindIdIsFirst<D>(rs: seq<Registration<D>>, hookId: string, r: Registration<D>)
    requires r in (if FindId(rs, hookId).Some? then rs[..FindId(rs, hookId).value] else rs)
    ensures r.id != hookId
  {
    if rs[0].id != hookId && r != rs[0] {
      FindIdIsFirst(rs[1..], hookId, r);
    }
  }

  /** Every event list is the chain of the live registrations of that event. */
  ghost predicate ListsAreChains<D>(hooks: Registry<D>, live: seq<Registration<D>>) {
    forall e :: e in hooks ==> hooks[e] == ChainOf(live, e)
  }

  /** The ids of a plugin that never repeated one are exactly those of its live registrations. */
  ghost predicate IdsAgree<D>(
      pluginHooks: map<string, set<string>>, live: seq<Registration<D>>, collided: set<string>) {
    forall p :: p in pluginHooks && p !in collided ==> pluginHooks[p] == IdsOf(live, p) && DistinctIds(live, p)
  }

  /** The plugin, when it already holds a live registration with this id. */
  ghost function Repeats<D>(live: seq<Registration<D>>, pluginId: string, id: string): set<string> {
    if id in IdsOf(live, pluginId) then {pluginId} else {}
  }

  /** Position `m` holds the first registration with this id in the chain of `e`. */
  ghost predicate RemovesFirst<D>(live: seq<Registration<D>>, m: int, e: HookEvent, hookId: string) {
    && 0 <= m < |live|
    && FindId(ChainOf(live, e), hookId).Some?
    && live[m] == ChainOf(live, e)[FindId(ChainOf(live, e), hookId).value]
  }

  class HookManager<D(!new)> {
    /** The `Map` from events to registration lists, and the order in which its keys were inserted. */
    var hooks: Registry<D>
    var hookOrder: seq<HookEvent>
    var pluginHooks: map<string, set<string>>
    ghost var live: seq<Registration<D>>
    /** Plugins that were handed an id they already held; ids repeat within one millisecond. */
    ghost var collided: set<string>

    ghost predicate Valid()
      reads this
    {
      ListsValid() && IdsValid(live)
    }

    ghost predicate ListsValid()
      reads this`hooks, this`hookOrder, this`live
    {
      && (forall e :: e in hookOrder <==> e in hooks)
      && ListsAreChains(hooks, live)
      && (forall r :: r in live ==> r.event in hooks)
    }

    ghost predicate IdsValid(live: seq<Registration<D>>)
      reads this`pluginHooks, this`collided
    {
      && IdsAgree(pluginHooks, live, collided)
      && (forall r :: r in live ==> r.pluginId in pluginHooks)
      && collided <= pluginHooks.Keys
    }

    constructor ()
      ensures Valid() && live == [] && collided == {} && hooks == map[] && pluginHooks == map[]
    {
      hooks, hookOrder, pluginHooks := map[], [], map[];
      live, collided := [], {};
    }

    method Register(
        pluginId: string, event: HookEvent, handler: Handler<D>, priority: real, now: string) returns (id: string)
      requires Valid() && NoColon(now)
      modifies this
      ensures Valid()
      ensures id == HookId(pluginId, event, now)
      ensures live == old(live) + [Registration(id, pluginId, event, handler, priority)]
      ensures collided == old(collided) + Repeats(old(live), pluginId, id)
    {
      id := HookId(pluginId, event, now);
      var registration := Registration(id, pluginId, event, handler, priority);
      AddHook(registration);
      TrackHook(registration);
    }

    /** Pushes the registration on its event's list and sorts the list by priority. */
    method AddHook(registration: Registration<D>)
      requires ListsValid()
      modifies this`hooks, this`hookOrder, this`live
      ensures ListsValid() && live == old(live) + [registration]
    {
      var event := registration.event;
      RegisterKeepsLists(hooks, live, registration);
      var registrations := HandlersOf(hooks, event);
      if event !in hooks {
        hookOrder := hookOrder + [event];
      }
      registrations := registrations + [registration];
      hooks := hooks[event := Sort(ByPriority(), registrations)];
      live := live + [registration];
    }

    /** Remembers the id for cleanup. */
    method TrackHook(registration: Registration<D>)
      requires |live| > 0 && live[|live| - 1] == registration && IdsValid(live[..|live| - 1])
      modifies this`pluginHooks, this`collided
      ensures IdsValid(live)
      ensures collided == old(collided) + Repeats(live[..|live| - 1], registration.pluginId, registration.id)
    {
      var p := registration.pluginId;
      ghost var earlier := live[..|live| - 1];
      assert live == earlier + [registration];
      RegisterKeepsIds(pluginHooks, earlier, collided, registration);
      if p !in pluginHooks {
        pluginHooks := pluginHooks[p := {}];
      }
      collided := collided + Repeats(earlier, p, registration.id);
      pluginHooks := pluginHooks[p := pluginHooks[p] + {registration.id}];
    }

    method Unregister(hookId: string)
      requires Valid()
      modifies this
      ensures Valid() && collided == old(collided)
      ensures (forall r :: r in old(live) ==> r.id != hookId) ==> live == old(live) && pluginHooks == old(pluginHooks)
      ensures (exists r :: r in old(live) && r.id == hookId) ==>
                exists m, e :: RemovesFirst(old(live), m, e, hookId) && live == RemoveAt(old(live), m)
    {
      var found := FindHook(hookId);
      if found.Some? {
        var (e, k) := found.value;
        ghost var m := RemoveEntry(e, k);
        assert RemovesFirst(old(live), m, e, hookId);
      }
    }

    /** Removes entry `k` of the list of `e` from the list and from the tracking. */
    method RemoveEntry(e: HookEvent, k: nat) returns (ghost m: nat)
      requires Valid() && e in hooks && k < |hooks[e]|
      modifies this`hooks, this`live, this`pluginHooks
      ensures Valid()
      ensures m < |old(live)| && live == RemoveAt(old(live), m) && old(live)[m] == old(hooks)[e][k]
    {
      var registration := hooks[e][k];
      m := RemoveHook(e, k);
      UntrackHook(registration, old(live), m);
    }

    /** The first list, in the map's own order, that holds the id, and where it holds it first. */
    method FindHook(hookId: string) returns (found: Option<(HookEvent, nat)>)
      requires ListsValid()
      ensures found.Some? ==>
                var (e, k) := found.value;
                e in hooks && k < |hooks[e]| && hooks[e][k].id == hookId && FindId(ChainOf(live, e), hookId) == Some(k)
      ensures found.None? ==> forall r :: r in live ==> r.id != hookId
    {
      found := FirstList(hookId);
      if found.None? {
        NotFound(hooks, live, hookId);
      }
    }

    /** The loop over the lists. */
    method FirstList(hookId: string) returns (found: Option<(HookEvent, nat)>)
      requires forall e :: e in hookOrder <==> e in hooks
      ensures found.Some? ==> found.value.0 in hooks && FindId(hooks[found.value.0], hookId) == Some(found.value.1)
      ensures found.None? ==> forall e :: e in hooks ==> FindId(hooks[e], hookId).None?
    {
      for i := 0 to |hookOrder|
        invariant forall e :: e in hookOrder[..i] ==> e in hooks && FindId(hooks[e], hookId).None?
      {
        var e := hookOrder[i];
        assert e in hookOrder && hookOrder[..i + 1] == hookOrder[..i] + [e];
        var index := FindId(hooks[e], hookId);
        if index.Some? {
          return Some((e, index.value));
        }
      }
      assert hookOrder[..|hookOrder|] == hookOrder;
      return None;
    }

    /** Splices entry `k` out of the list of `e`; `m` is where that registration stood among the live ones. */
    method RemoveHook(e: HookEvent, k: nat) returns (ghost m: nat)
      requires ListsValid() && e in hooks && k < |hooks[e]|
      modifies this`hooks, this`live
      ensures ListsValid()
      ensures m < |old(live)| && live == RemoveAt(old(live), m)
      ensures old(live)[m] == old(hooks)[e][k] && old(live)[m].event == e
    {
      m := ChainAfterSplice(live, e, k);
      hooks := hooks[e := hooks[e][..k] + hooks[e][k + 1..]];
      live := RemoveAt(live, m);
    }

    /** Forgets the id of a removed registration. */
    method UntrackHook(registration: Registration<D>, ghost was: seq<Registration<D>>, ghost m: nat)
      requires IdsValid(was) && m < |was| && was[m] == registration && live == RemoveAt(was, m)
      modifies this`pluginHooks
      ensures IdsValid(live)
    {
      var p := registration.pluginId;
      assert registration in was;
      RemoveKeepsIds(pluginHooks, was, collided, m);
      if p in pluginHooks {
        pluginHooks := pluginHooks[p := pluginHooks[p] - {registration.id}];
      }
    }

    method UnregisterPlugin(pluginId: string)
      requires Valid()
      modifies this
      ensures Valid()
      ensures live == Filter(NotOfPlugin(pluginId), old(live))
      ensures pluginHooks == old(pluginHooks) - {pluginId}
      ensures collided == old(collided) - {pluginId}
    {
      if pluginId !in pluginHooks {
        FilterAll(NotOfPlugin(pluginId), live);
        return;
      }
      FilterLists(pluginId, FilteredLists(hooks, live, pluginId));
      FilterShrinks(live, pluginId);
      live := Filter(NotOfPlugin(pluginId), live);
      UntrackPlugin(pluginId, old(live));
    }

    /** Filters the plugin out of every event list. */
    method FilterLists(pluginId: string, ghost target: Registry<D>)
      requires forall e :: e in hookOrder <==> e in hooks
      requires FiltersTo(hooks, target, pluginId) && FiltersTo(target, target, pluginId)
      modifies this`hooks
      ensures hooks == target
    {
      for i := 0 to |hookOrder|
        invariant hooks.Keys == old(hooks).Keys
        invariant FiltersTo(hooks, target, pluginId)
        invariant forall e :: e in hookOrder[..i] ==> e in hooks && hooks[e] == target[e]
      {
        var e := hookOrder[i];
        assert e in hookOrder && hookOrder[..i + 1] == hookOrder[..i] + [e];
        FilterOneList(hooks, target, pluginId, e);
        hooks := hooks[e := Filter(NotOfPlugin(pluginId), hooks[e])];
      }
      assert hookOrder[..|hookOrder|] == hookOrder;
      SameRegistry(hooks, target, hookOrder);
    }

    /** Forgets every id of the plugin. */
    method UntrackPlugin(pluginId: string, ghost was: seq<Registration<D>>)
      requires IdsValid(was) && live == Filter(NotOfPlugin(pluginId), was)
      modifies this`pluginHooks, this`collided
      ensures IdsValid(live)
      ensures pluginHooks == old(pluginHooks) - {pluginId} && collided == old(collided) - {pluginId}
    {
      OtherIdsAfterUnregisterPlugin(was, pluginId);
      FilterMembers(NotOfPlugin(pluginId), was);
      pluginHooks := pluginHooks - {pluginId};
      collided := collided - {pluginId};
    }

    method Execute(event: HookEvent, data: D, inFlight: set<HookEvent>) returns (reply: Reply<D>)
      ensures reply == HookHandlers.Execute(hooks, event, data, inFlight).0
      decreases |KNOWN_HOOK_EVENTS - inFlight|, 0
    {
      if event in inFlight {
        return Reply(true, data);
      }
      Shrinks(inFlight, {event}, event);
      reply := RunHandlers(event, data, inFlight + {event});
    }

    method RunHandlers(event: HookEvent, data: D, inFlight: set<HookEvent>) returns (reply: Reply<D>)
      ensures reply == ChainReply(hooks, HandlersOf(hooks, event), data, inFlight)
      decreases |KNOWN_HOOK_EVENTS - inFlight|, 2
    {
      var registrations := HandlersOf(hooks, event);
      if |registrations| == 0 {
        return Reply(true, data);
      }
      var currentData := data;
      for i := 0 to |registrations|
        invariant ChainReply(hooks, registrations, data, inFlight)
            == ChainReply(hooks, registrations[i..], currentData, inFlight)
      {
        var result := InvokeHandler(registrations[i].handler, currentData, inFlight);
        assert registrations[i..][1..] == registrations[i + 1..];
        if result.Throws? { continue; }
        if result.error.Undefined? && result.data.Some? {
          currentData := result.data.value;
        }
        if !result.go {
          return Reply(false, currentData);
        }
      }
      reply := Reply(true, currentData);
    }

    /** Runs a handler program; each event it fires goes through `Execute` in the same context. */
    method InvokeHandler(h: Handler<D>, data: D, inFlight: set<HookEvent>) returns (outcome: Outcome<D>)
      ensures outcome == Invoke(hooks, h, data, inFlight).0
      decreases |KNOWN_HOOK_EVENTS - inFlight|, 1, h
    {
      match h
      case Finish(f) =>
        outcome := f(data);
      case Branch(test, yes, no) =>
        outcome := InvokeHandler(if test(data) then yes else no, data, inFlight);
      case Fire(e, payload, onContinue, onStop) =>
        var reply := Execute(e, payload(data), inFlight);
        outcome := InvokeHandler(if reply.go then onContinue else onStop, reply.data, inFlight);
      case RunInFlight(events, body, next) =>
        Grows(inFlight, events);
        var inside := InvokeHandler(body, data, inFlight + events);
        if inside.Throws? {
          return Throws;
        }
        outcome := InvokeHandler(next, if inside.data.Some? then inside.data.value else data, inFlight);
    }
  }

  // ---------------------------------------------------------------- bookkeeping of ids

  lemma RegisterKeepsLists<D(!new)>(hooks: Registry<D>, live: seq<Registration<D>>, r: Registration<D>)
    requires ListsAreChains(hooks, live)
    requires forall s :: s in live ==> s.event in hooks
    ensures ListsAreChains(hooks[r.event := Sort(ByPriority(), HandlersOf(hooks, r.event) + [r])], live + [r])
  {
    if r.event !in hooks {
      NoneOfEvent(live, r.event);
    }
    forall e | e in hooks || e == r.event
      ensures ChainOf(live + [r], e) ==
        if r.event == e then Sort(ByPriority(), ChainOf(live, e) + [r]) else ChainOf(live, e)
    {
      ChainAfterRegister(live, r, e);
    }
  }

  lemma RegisterKeepsIds<D>(
      pluginHooks: map<string, set<string>>, live: seq<Registration<D>>, collided: set<string>, r: Registration<D>)
    requires IdsAgree(pluginHooks, live, collided)
    requires forall s :: s in live ==> s.pluginId in pluginHooks
    ensures var had := if r.pluginId in pluginHooks then pluginHooks[r.pluginId] else {};
            IdsAgree(pluginHooks[r.pluginId := had + {r.id}], live + [r], collided + Repeats(live, r.pluginId, r.id))
  {
    forall p | p in pluginHooks || p == r.pluginId
      ensures IdsOf(live + [r], p) == IdsOf(live, p) + if r.pluginId == p then {r.id} else {}
      ensures DistinctIds(live, p) && (r.pluginId == p ==> r.id !in IdsOf(live, p)) ==> DistinctIds(live + [r], p)
      ensures p !in pluginHooks ==> IdsOf(live, p) == {} && DistinctIds(live, p)
    {
      IdsAfterRegister(live, r, p);
    }
  }

  lemma RemoveKeepsIds<D>(
      pluginHooks: map<string, set<string>>, live: seq<Registration<D>>, collided: set<string>, m: nat)
    requires IdsAgree(pluginHooks, live, collided)
    requires m < |live| && live[m].pluginId in pluginHooks
    ensures var p := live[m].pluginId;
            IdsAgree(pluginHooks[p := pluginHooks[p] - {live[m].id}], RemoveAt(live, m), collided)
  {
    forall p | p in pluginHooks && DistinctIds(live, p)
      ensures DistinctIds(RemoveAt(live, m), p)
      ensures IdsOf(RemoveAt(live, m), p) == IdsOf(live, p) - if live[m].pluginId == p then {live[m].id} else {}
    {
      IdsAfterRemove(live, m, p);
    }
  }

  lemma NoneOfEvent<D(!new)>(live: seq<Registration<D>>, e: HookEvent)
    requires forall r :: r in live ==> r.event != e
    ensures ChainOf(live, e) == []
  {
    var chain := ChainOf(live, e);
    if chain != [] {
      ChainMember(live, e, chain[0]);
    }
  }

  lemma IdsAfterRegister<D>(live: seq<Registration<D>>, r: Registration<D>, p: string)
    ensures IdsOf(live + [r], p) == IdsOf(live, p) + if r.pluginId == p then {r.id} else {}
    ensures DistinctIds(live, p) && (r.pluginId == p ==> r.id !in IdsOf(live, p)) ==> DistinctIds(live + [r], p)
  {
    var after := live + [r];
    forall id | id in IdsOf(live, p)
      ensures id in IdsOf(after, p)
    {
      var i :| 0 <= i < |live| && live[i].pluginId == p && live[i].id == id;
      assert after[i] == live[i];
    }
    assert after[|live|] == r;
  }

  lemma IdsAfterRemove<D>(live: seq<Registration<D>>, m: nat, p: string)
    requires m < |live|
    ensures DistinctIds(live, p) ==>
              && DistinctIds(RemoveAt(live, m), p)
              && IdsOf(RemoveAt(live, m), p) == IdsOf(live, p) - if live[m].pluginId == p then {live[m].id} else {}
  {
    var after := RemoveAt(live, m);
    forall i | 0 <= i < |live| && i != m
      ensures live[i] == after[if i < m then i else i - 1]
    {
    }
    forall i | 0 <= i < |after|
      ensures after[i] == live[if i < m then i else i + 1]
    {
    }
  }

  lemma OtherIdsAfterUnregisterPlugin<D(!new)>(live: seq<Registration<D>>, pluginId: string)
    ensures forall p :: p != pluginId ==>
              && IdsOf(Filter(NotOfPlugin(pluginId), live), p) == IdsOf(live, p)
              && (DistinctIds(live, p) ==> DistinctIds(Filter(NotOfPlugin(pluginId), live), p))
  {
    forall p | p != pluginId
      ensures IdsOf(Filter(NotOfPlugin(pluginId), live), p) == IdsOf(live, p)
      ensures DistinctIds(live, p) ==> DistinctIds(Filter(NotOfPlugin(pluginId), live), p)
    {
      IdsAfterFilter(live, pluginId, p);
    }
  }

  lemma {:induction false} IdsAfterFilter<D(!new)>(live: seq<Registration<D>>, pluginId: string, p: string)
    requires p != pluginId
    ensures IdsOf(Filter(NotOfPlugin(pluginId), live), p) == IdsOf(live, p)
    ensures DistinctIds(live, p) ==> DistinctIds(Filter(NotOfPlugin(pluginId), live), p)
  {
    if live != [] {
      var n := |live| - 1;
      var f := Filter(NotOfPlugin(pluginId), live[..n]);
      IdsAfterFilter(live[..n], pluginId, p);
      IdsAfterRegister(live[..n], live[n], p);
      IdsAfterRegister(f, live[n], p);
      assert live == live[..n] + [live[n]];
      FilterSnoc(NotOfPlugin(pluginId), live[..n], live[n]);
      if DistinctIds(live, p) && live[n].pluginId == p {
        forall i | 0 <= i < n && live[..n][i].pluginId == p
          ensures live[..n][i].id != live[n].id
        {
          assert live[..n][i] == live[i];
        }
      }
    }
  }

  lemma FilterShrinks<D(!new)>(live: seq<Registration<D>>, pluginId: string)
    ensures forall r :: r in Filter(NotOfPlugin(pluginId), live) ==> r in live
  {
    FilterMembers(NotOfPlugin(pluginId), live);
  }

  lemma NotFound<D(!new)>(hooks: Registry<D>, live: seq<Registration<D>>, hookId: string)
    requires ListsAreChains(hooks, live)
    requires forall r :: r in live ==> r.event in hooks
    requires forall e :: e in hooks ==> FindId(hooks[e], hookId).None?
    ensures forall r :: r in live ==> r.id != hookId
  {
    forall r | r in live
      ensures r.id != hookId
    {
      ChainMember(live, r.event, r);
      FindIdIsFirst(hooks[r.event], hookId, r);
    }
  }

  lemma SameRegistry<D>(hooks: Registry<D>, target: Registry<D>, order: seq<HookEvent>)
    requires hooks.Keys == target.Keys && forall e :: e in hooks ==> e in order
    requires forall e :: e in order ==> e in hooks && e in target && hooks[e] == target[e]
    ensures hooks == target
  {
  }

  lemma FilterOneList<D>(hooks: Registry<D>, target: Registry<D>, pluginId: string, e: HookEvent)
    requires FiltersTo(hooks, target, pluginId) && FiltersTo(target, target, pluginId) && e in hooks
    ensures Filter(NotOfPlugin(pluginId), hooks[e]) == target[e]
    ensures FiltersTo(hooks[e := target[e]], target, pluginId)
  {
  }

  ghost predicate FiltersTo<D>(hooks: Registry<D>, target: Registry<D>, pluginId: string) {
    hooks.Keys == target.Keys && forall e :: e in hooks ==> Filter(NotOfPlugin(pluginId), hooks[e]) == target[e]
  }

  /** What the lists become; filtering a list once more would not change it. */
  ghost function FilteredLists<D(!new)>(
      hooks: Registry<D>, live: seq<Registration<D>>, pluginId: string): (target: Registry<D>)
    requires ListsAreChains(hooks, live)
    ensures ListsAreChains(target, Filter(NotOfPlugin(pluginId), live))
    ensures FiltersTo(hooks, target, pluginId) && FiltersTo(target, target, pluginId)
  {
    FilterLemma(hooks, live, pluginId);
    map e | e in hooks :: ChainOf(Filter(NotOfPlugin(pluginId), live), e)
  }

  lemma FilterLemma<D(!new)>(hooks: Registry<D>, live: seq<Registration<D>>, pluginId: string)
    requires ListsAreChains(hooks, live)
    ensures var target: Registry<D> := map e | e in hooks :: ChainOf(Filter(NotOfPlugin(pluginId), live), e);
            FiltersTo(hooks, target, pluginId) && FiltersTo(target, target, pluginId)
  {
    forall e | e in hooks
      ensures var chain := ChainOf(Filter(NotOfPlugin(pluginId), live), e);
              Filter(NotOfPlugin(pluginId), hooks[e]) == chain && Filter(NotOfPlugin(pluginId), chain) == chain
    {
      ChainAfterUnregisterPlugin(live, pluginId, e);
      FilterAgain(live, pluginId, e);
    }
  }

  lemma FilterAgain<D(!new)>(live: seq<Registration<D>>, pluginId: string, e: HookEvent)
    ensures var kept := ChainOf(Filter(NotOfPlugin(pluginId), live), e);
            Filter(NotOfPlugin(pluginId), kept) == kept
  {
    var rest := Filter(NotOfPlugin(pluginId), live);
    FilterMembers(NotOfPlugin(pluginId), live);
    forall r | r in ChainOf(rest, e)
      ensures NotOfPlugin(pluginId)(r)
    {
      ChainMember(rest, e, r);
    }
    FilterAll(NotOfPlugin(pluginId), ChainOf(rest, e));
  }
}
