/** The engine itself: a context that owns the declared states, the current
    state, the registered events and the two global hooks, and changes them
    in place. Hook invocations are recorded in the ghost `trace`. */
module StateMachine {
  import opened Types
  import Registry
  import Transition

  /** The search loop of Fire: scan the registered events in order and stop at
      the first one with the given name. */
  method FindEvent(events: seq<Event>, name: string) returns (found: Option<nat>)
    ensures found.None? <==> !Registry.Registered(events, name)
    ensures found.Some? ==> found.value < |events| && events[found.value].name == name
    ensures found == Transition.Find(events, name)
  {
    found := None;
    var i := 0;
    while i < |events|
      invariant 0 <= i <= |events|
      invariant forall j :: 0 <= j < i ==> events[j].name != name
    {
      if events[i].name == name {
        found := Some(i);
        break;
      }
      i := i + 1;
    }
  }

  /** Construction: fails unless the initial state is one of the states; the
      new engine starts in it, with no events and no global hooks. */
  method New(states: seq<string>, initialState: string) returns (c: Context?, err: Option<Error>)
    ensures err.None? <==> initialState in states
    ensures err.Some? ==> c == null && err.value == InitialStateNotInStates(initialState)
    ensures err.None? ==>
      && c != null && fresh(c) && c.Valid()
      && c.states == states && c.initialState == initialState && c.currentState == initialState
      && c.events == [] && !c.beforeAll && !c.afterAll && c.trace == []
  {
    if initialState !in states {
      return null, Some(InitialStateNotInStates(initialState));
    }
    c := new Context(states, initialState);
    err := None;
  }

  lemma ConcatAssoc(a: seq<HookCall>, b: seq<HookCall>, c: seq<HookCall>)
    ensures a + b + c == a + (b + c)
  {
  }

  class Context {
    const states: seq<string>
    const initialState: string
    var currentState: string
    var events: seq<Event>
    var beforeAll: bool
    var afterAll: bool
    /** Every hook and validator call made so far, oldest first. */
    ghost var trace: seq<HookCall>

    /** The engine's invariant: the current state is a declared state and the
        registered events are well-formed. */
    ghost predicate Valid()
      reads this
    {
      initialState in states && currentState in states && Registry.WellFormed(states, events)
    }

    constructor (states: seq<string>, initialState: string)
      requires initialState in states
      ensures Valid()
      ensures this.states == states && this.initialState == initialState && currentState == initialState
      ensures events == [] && !beforeAll && !afterAll && trace == []
    {
      this.states := states;
      this.initialState := initialState;
      currentState := initialState;
      events := [];
      beforeAll, afterAll := false, false;
      trace := [];
    }

    function CurrentState(): (s: string)
      reads this
      requires Valid()
      ensures s in states
    {
      currentState
    }

    /** Registers one event: on success it is appended at the end; on any
        error the registered events are left as they were. */
    method RegisterEvent(e: Event) returns (err: Option<Error>)
      requires Valid()
      modifies this`events
      ensures Valid()
      ensures err == Registry.Check(states, old(events), e)
      ensures events == if err.None? then old(events) + [e] else old(events)
    {
      err := Registry.Check(states, events, e);
      if err.None? {
        Registry.CheckKeepsWellFormed(states, events, e);
        events := events + [e];
      }
    }

    /** Registers each element in turn; each result overwrites the previous
        one, and if the final one is an error every registered event is
        dropped. */
    method RegisterEvents(batch: seq<Event>) returns (err: Option<Error>)
      requires Valid()
      modifies this`events
      ensures Valid()
      ensures var r := Registry.RegisterAll(states, old(events), batch);
        err == r.err && events == r.events
    {
      err := None;
      for i := 0 to |batch|
        invariant Valid()
        invariant Registry.Run(states, events, batch[i..], err) == Registry.Run(states, old(events), batch, None)
      {
        assert batch[i..][0] == batch[i] && batch[i..][1..] == batch[i + 1..];
        err := RegisterEvent(batch[i]);
      }
      assert batch[|batch|..] == [];
      if err.Some? {
        events := [];
      }
    }

    /** Sets or clears the global before-hook; the last call wins. */
    method BeforeAll(present: bool)
      requires Valid()
      modifies this`beforeAll
      ensures Valid() && beforeAll == present
    {
      beforeAll := present;
    }

    /** Sets or clears the global after-hook; the last call wins. */
    method AfterAll(present: bool)
      requires Valid()
      modifies this`afterAll
      ensures Valid() && afterAll == present
    {
      afterAll := present;
    }

    /** Fires the named event: lookup, source check, beforeAll, before,
        validate, the state change, after, afterAll. */
    method Fire(name: string) returns (err: Option<Error>)
      requires Valid()
      modifies this`currentState, this`trace
      ensures Valid()
      ensures var r := Transition.Fire(old(currentState), events, beforeAll, afterAll, name);
        err == r.err && currentState == r.state && trace == old(trace) + r.calls
    {
      var found := FindEvent(events, name);
      if found.None? {
        Transition.FireUnregistered(currentState, events, beforeAll, afterAll, name);
        return Some(EventNotRegistered(name));
      }
      var e := events[found.value];
      if currentState !in e.from {
        Transition.FireFromForbiddenState(currentState, events, beforeAll, afterAll, found.value);
        return Some(CannotFire(e.name, currentState));
      }
      assert Registry.Admissible(states, e);
      // Each hook that is set is called, and each call is collected here;
      // the collected calls join the trace when Fire returns.
      ghost var calls := When(beforeAll, BeforeAllCall(e.name, currentState, e.to));
      calls := calls + When(e.before, BeforeCall(e.name));
      calls := calls + When(e.validate.Some?, ValidateCall(e.name, currentState, e.to));
      if e.validate.Some? {
        var verdict := e.validate.value(currentState, e.to);
        if verdict.Some? {
          trace := trace + calls;
          return verdict;
        }
      }
      currentState := e.to;
      ghost var validated := calls;
      calls := calls + When(e.after, AfterCall(e.name));
      calls := calls + When(afterAll, AfterAllCall(e.name, currentState, e.to));
      ConcatAssoc(validated, When(e.after, AfterCall(e.name)), When(afterAll, AfterAllCall(e.name, e.to, e.to)));
      trace := trace + calls;
      err := None;
    }

    /** Overrides the current state directly, without hooks or validators;
        fails unless the state is one of the declared states. */
    method SetCurrentState(state: string) returns (err: Option<Error>)
      requires Valid()
      modifies this`currentState
      ensures Valid()
      ensures err.None? <==> state in states
      ensures err.Some? ==> err.value == StateNotInStates(state)
      ensures currentState == if state in states then state else old(currentState)
    {
      if state !in states {
        return Some(StateNotInStates(state));
      }
      currentState := state;
      err := None;
    }
  }
}
