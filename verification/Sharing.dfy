/** Callers that share one piece of work in flight. */
module Sharing {
  import opened Wrappers

  type Caller = nat

  /** The callers once one more shares what is in flight, or is the first to. */
  function Joined(waiting: Option<seq<Caller>>, caller: Caller): Option<seq<Caller>> {
    if waiting.Some? then Some(waiting.value + [caller]) else Some([caller])
  }

  /** The callers that wait, as often as they asked. */
  function Waiting(waiting: Option<seq<Caller>>): multiset<Caller> {
    if waiting.Some? then multiset(waiting.value) else multiset{}
  }

  /** One more caller is accounted for where he is answered, or where he waits. */
  lemma OneMoreCaller(asked: multiset<Caller>, answered: multiset<Caller>, waiting: multiset<Caller>, caller: Caller)
    requires asked == answered + waiting
    ensures asked + multiset{caller} == answered + multiset{caller} + waiting
    ensures asked + multiset{caller} == answered + (waiting + multiset{caller})
  {
  }
}
