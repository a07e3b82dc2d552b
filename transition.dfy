/** The firing protocol as a function of the engine's state: look the event
    up, check the current state is a permitted source, run the before hooks,
    ask the validator, then move to the target and run the after hooks. */
module Transition {
  import opened Types
  import opened Registry

  /** The index of the first registered event with this name, if any. */
  function Find(events: seq<Event>, name: string): (r: Option<nat>)
    ensures r.None? <==> !Registered(events, name)
    ensures r.Some? ==> r.value < |events| && events[r.value].name == name
    ensures r.Some? ==> forall j :: 0 <= j < r.value ==> events[j].name != name
  {
    if events == [] then None
    else if events[0].name == name then Some(0)
    else
      match Find(events[1..], name)
      case None => None
      case Some(i) => Some(i + 1)
  }

  /** With unique names, the event carrying a name is the one found. */
  lemma FindUnique(events: seq<Event>, name: string, i: nat)
    requires NamesUnique(events)
    requires i < |events| && events[i].name == name
    ensures Find(events, name) == Some(i)
  {
  }

  /** What the validator says about the transition from `from` to the event's
      target; an event without a validator never vetoes. */
  function Verdict(e: Event, from: string): Option<Error>
  {
    if e.validate.Some? then e.validate.value(from, e.to) else None
  }

  /** The outcome of firing: the error returned, if any, the current state
      afterwards, and the hook and validator calls made, in order. */
  datatype Firing = Firing(err: Option<Error>, state: string, calls: seq<HookCall>)

  /** The calls made before the validator: beforeAll, then the event's own before hook. */
  function Opening(beforeAll: bool, e: Event, from: string): seq<HookCall>
  {
    When(beforeAll, BeforeAllCall(e.name, from, e.to)) + When(e.before, BeforeCall(e.name))
  }

  /** The calls made after the state change: the event's own after hook, then
      afterAll, which is given the new state as its "from". */
  function Closing(afterAll: bool, e: Event): seq<HookCall>
  {
    When(e.after, AfterCall(e.name)) + When(afterAll, AfterAllCall(e.name, e.to, e.to))
  }

  /** The protocol once the event is found and permitted from `from`. */
  function Protocol(e: Event, from: string, beforeAll: bool, afterAll: bool): Firing
  {
    var calls := Opening(beforeAll, e, from) + When(e.validate.Some?, ValidateCall(e.name, from, e.to));
    var verdict := Verdict(e, from);
    if verdict.Some? then Firing(verdict, from, calls)
    else Firing(None, e.to, calls + Closing(afterAll, e))
  }

  function Fire(current: string, events: seq<Event>, beforeAll: bool, afterAll: bool, name: string): (r: Firing)
    ensures r.err.Some? ==> r.state == current
    ensures r.err.None? ==>
      exists i :: 0 <= i < |events| && events[i].name == name && current in events[i].from && r.state == events[i].to
    ensures !Registered(events, name) ==> r.calls == []
  {
    match Find(events, name)
    case None => Firing(Some(EventNotRegistered(name)), current, [])
    case Some(i) =>
      if current !in events[i].from then Firing(Some(CannotFire(events[i].name, current)), current, [])
      else Protocol(events[i], current, beforeAll, afterAll)
  }

  /** Firing an unregistered name fails, changes nothing and runs nothing. */
  lemma FireUnregistered(current: string, events: seq<Event>, beforeAll: bool, afterAll: bool, name: string)
    requires !Registered(events, name)
    ensures Fire(current, events, beforeAll, afterAll, name) == Firing(Some(EventNotRegistered(name)), current, [])
  {
  }

  /** Firing an event whose sources do not include the current state fails,
      changes nothing and runs nothing. */
  lemma FireFromForbiddenState(current: string, events: seq<Event>, beforeAll: bool, afterAll: bool, i: nat)
    requires NamesUnique(events)
    requires i < |events| && current !in events[i].from
    ensures Fire(current, events, beforeAll, afterAll, events[i].name)
         == Firing(Some(CannotFire(events[i].name, current)), current, [])
  {
    FindUnique(events, events[i].name, i);
  }

  /** A validator's veto is returned as it is; the state stays put, the
      before hooks and the validator have run, and no after hook runs. */
  lemma FireVetoed(current: string, events: seq<Event>, beforeAll: bool, afterAll: bool, i: nat, reason: Error)
    requires NamesUnique(events)
    requires i < |events| && current in events[i].from
    requires Verdict(events[i], current) == Some(reason)
    ensures var e := events[i];
      var r := Fire(current, events, beforeAll, afterAll, e.name);
      && r.err == Some(reason)
      && r.state == current
      && r.calls == When(beforeAll, BeforeAllCall(e.name, current, e.to)) + When(e.before, BeforeCall(e.name))
                    + [ValidateCall(e.name, current, e.to)]
      && forall c :: c in r.calls ==> !c.AfterCall? && !c.AfterAllCall?
  {
    FindUnique(events, events[i].name, i);
  }

  /** A transition the validator lets through ends in the event's target,
      with the calls in the fixed order beforeAll, before, validate, after,
      afterAll; afterAll is given the new state as its "from". */
  lemma FireCompletes(current: string, events: seq<Event>, beforeAll: bool, afterAll: bool, i: nat)
    requires NamesUnique(events)
    requires i < |events| && current in events[i].from
    requires Verdict(events[i], current).None?
    ensures var e := events[i];
      Fire(current, events, beforeAll, afterAll, e.name)
      == Firing(None, e.to,
                When(beforeAll, BeforeAllCall(e.name, current, e.to))
                + When(e.before, BeforeCall(e.name))
                + When(e.validate.Some?, ValidateCall(e.name, current, e.to))
                + When(e.after, AfterCall(e.name))
                + When(afterAll, AfterAllCall(e.name, e.to, e.to)))
  {
    FindUnique(events, events[i].name, i);
  }

  /** Firing keeps the current state among the declared states. */
  lemma FireStaysInStates(states: seq<string>, current: string, events: seq<Event>, beforeAll: bool, afterAll: bool, name: string)
    requires WellFormed(states, events) && current in states
    ensures Fire(current, events, beforeAll, afterAll, name).state in states
  {
    var r := Fire(current, events, beforeAll, afterAll, name);
    if r.err.None? {
      var i :| 0 <= i < |events| && events[i].name == name && current in events[i].from && r.state == events[i].to;
      assert Admissible(states, events[i]);
    }
  }
}
