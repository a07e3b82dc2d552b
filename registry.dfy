/** The rules for registering events: the four checks of a single
    registration, the invariant they keep over the registered list, and the
    batch registration with its clear-on-last-failure rule. */
module Registry {
  import opened Types

  predicate AllIn(from: seq<string>, states: seq<string>)
  {
    forall s :: s in from ==> s in states
  }

  /** What the first three checks ask of an event on its own. */
  predicate Admissible(states: seq<string>, e: Event)
  {
    e.to in states && AllIn(e.from, states) && e.to !in e.from
  }

  predicate Registered(events: seq<Event>, name: string)
  {
    exists i :: 0 <= i < |events| && events[i].name == name
  }

  ghost predicate NamesUnique(events: seq<Event>)
  {
    forall i, j :: 0 <= i < j < |events| ==> events[i].name != events[j].name
  }

  /** The invariant over the registered list: every event is admissible and
      no two events share a name. */
  ghost predicate WellFormed(states: seq<string>, events: seq<Event>)
  {
    (forall i :: 0 <= i < |events| ==> Admissible(states, events[i])) && NamesUnique(events)
  }

  /** The four checks of a single registration, in order; the first that
      fails decides the error, and None means the event may be appended. */
  function Check(states: seq<string>, events: seq<Event>, e: Event): (r: Option<Error>)
    ensures r == Some(ToStateNotInStates(e.to)) <==> e.to !in states
    ensures r == Some(FromStatesNotInStates(e.from)) <==> e.to in states && !AllIn(e.from, states)
    ensures r == Some(SameFromAndTo(e.to)) <==> e.to in states && AllIn(e.from, states) && e.to in e.from
    ensures r == Some(DuplicateEventName(e.name)) <==> Admissible(states, e) && Registered(events, e.name)
    ensures r.None? <==> Admissible(states, e) && !Registered(events, e.name)
  {
    if e.to !in states then Some(ToStateNotInStates(e.to))
    else if exists s :: s in e.from && s !in states then Some(FromStatesNotInStates(e.from))
    else if e.to in e.from then Some(SameFromAndTo(e.to))
    else if Registered(events, e.name) then Some(DuplicateEventName(e.name))
    else None
  }

  /** The checks accept exactly the events whose appending keeps a
      well-formed list well-formed. */
  lemma CheckKeepsWellFormed(states: seq<string>, events: seq<Event>, e: Event)
    ensures WellFormed(states, events + [e]) <==> WellFormed(states, events) && Check(states, events, e).None?
  {
    var grown := events + [e];
    assert forall i :: 0 <= i < |events| ==> grown[i] == events[i];
    assert grown[|events|] == e;
    if WellFormed(states, grown) {
      assert Admissible(states, grown[|events|]);
      forall i | 0 <= i < |events|
        ensures events[i].name != e.name
      {
        assert grown[i].name != grown[|events|].name;
      }
    }
    if WellFormed(states, events) && Check(states, events, e).None? {
      forall i, j | 0 <= i < j < |grown|
        ensures grown[i].name != grown[j].name
      {
        if j == |events| {
          assert !(0 <= i < |events| && events[i].name == e.name);
        }
      }
    }
  }

  /** The outcome of registering: the error returned, if any, and the list afterwards. */
  datatype Registration = Registration(err: Option<Error>, events: seq<Event>)

  /** One registration: the checks, then an append at the end on success. */
  function Register(states: seq<string>, events: seq<Event>, e: Event): (r: Registration)
    ensures WellFormed(states, events) ==> WellFormed(states, r.events)
  {
    var err := Check(states, events, e);
    CheckKeepsWellFormed(states, events, e);
    Registration(err, if err.None? then events + [e] else events)
  }

  /** The batch loop: every element is registered in order against the list
      the previous elements left, and each result overwrites the last one. */
  function Run(states: seq<string>, events: seq<Event>, batch: seq<Event>, last: Option<Error>): Registration
    decreases |batch|
  {
    if batch == [] then Registration(last, events)
    else
      var r := Register(states, events, batch[0]);
      Run(states, r.events, batch[1..], r.err)
  }

  /** Batch registration: the result of the final element decides; if it
      failed, the whole list is cleared, events registered before the batch
      included. */
  function RegisterAll(states: seq<string>, events: seq<Event>, batch: seq<Event>): (r: Registration)
    ensures batch == [] ==> r.err.None? && r.events == events
    ensures batch != [] ==>
      r.err == Check(states, Run(states, events, batch[..|batch| - 1], None).events, batch[|batch| - 1])
    ensures WellFormed(states, events) ==> WellFormed(states, r.events)
  {
    var run := Run(states, events, batch, None);
    RunLast(states, events, batch, None);
    RunKeepsWellFormed(states, events, batch, None);
    if run.err.Some? then Registration(run.err, []) else run
  }

  /** Only the final element's registration decides the batch's error. */
  lemma {:induction false} RunLast(states: seq<string>, events: seq<Event>, batch: seq<Event>, last: Option<Error>)
    ensures batch != [] ==>
      Run(states, events, batch, last)
      == Register(states, Run(states, events, batch[..|batch| - 1], last).events, batch[|batch| - 1])
    decreases |batch|
  {
    var n := |batch|;
    if n > 1 {
      var r := Register(states, events, batch[0]);
      RunLast(states, r.events, batch[1..], r.err);
      assert batch[1..][..n - 2] == batch[..n - 1][1..];
      assert batch[1..][n - 2] == batch[n - 1];
    } else if n == 1 {
      assert batch[..n - 1] == [];
    }
  }

  lemma {:induction false} RunKeepsWellFormed(states: seq<string>, events: seq<Event>, batch: seq<Event>, last: Option<Error>)
    ensures WellFormed(states, events) ==> WellFormed(states, Run(states, events, batch, last).events)
    decreases |batch|
  {
    if batch != [] {
      var r := Register(states, events, batch[0]);
      RunKeepsWellFormed(states, r.events, batch[1..], r.err);
    }
  }

  /** The batch only appends: the list it started from stays a prefix, and
      everything after it comes from the batch. */
  lemma {:induction false} RunOnlyAppends(states: seq<string>, events: seq<Event>, batch: seq<Event>, last: Option<Error>)
    ensures var after := Run(states, events, batch, last).events;
      events <= after && forall i :: |events| <= i < |after| ==> after[i] in batch
    decreases |batch|
  {
    if batch != [] {
      var r := Register(states, events, batch[0]);
      RunOnlyAppends(states, r.events, batch[1..], r.err);
      var after := Run(states, events, batch, last).events;
      forall i | |events| <= i < |after|
        ensures after[i] in batch
      {
        if i >= |r.events| {
          assert after[i] in batch[1..];
        } else {
          assert r.events[i] == batch[0];
        }
      }
    }
  }

  /** What the first k elements leave is a prefix of what the whole batch leaves. */
  lemma {:induction false} RunGrows(states: seq<string>, events: seq<Event>, batch: seq<Event>, last: Option<Error>, k: nat)
    requires k <= |batch|
    ensures Run(states, events, batch[..k], last).events <= Run(states, events, batch, last).events
    decreases |batch|
  {
    if k == 0 {
      RunOnlyAppends(states, events, batch, last);
    } else {
      var r := Register(states, events, batch[0]);
      RunGrows(states, r.events, batch[1..], r.err, k - 1);
      assert batch[..k][1..] == batch[1..][..k - 1];
    }
  }

  /** Every element that passed its own checks, against the list the earlier
      elements left, is still registered when the batch is over. */
  lemma RunKeepsAccepted(states: seq<string>, events: seq<Event>, batch: seq<Event>, last: Option<Error>, k: nat)
    requires k < |batch|
    requires Check(states, Run(states, events, batch[..k], last).events, batch[k]).None?
    ensures batch[k] in Run(states, events, batch, last).events
  {
    var upTo := batch[..k + 1];
    assert upTo[..k] == batch[..k];
    RunLast(states, events, upTo, last);
    var prior := Run(states, events, batch[..k], last).events;
    assert Run(states, events, upTo, last).events == prior + [batch[k]];
    RunGrows(states, events, batch, last, k + 1);
    assert Run(states, events, batch, last).events[|prior|] == batch[k];
  }

  /** A batch that extends a list into a well-formed one is taken whole. */
  lemma {:induction false} RunAllAccepted(states: seq<string>, events: seq<Event>, batch: seq<Event>, last: Option<Error>)
    requires WellFormed(states, events + batch)
    ensures Run(states, events, batch, last).events == events + batch
    ensures batch != [] ==> Run(states, events, batch, last).err.None?
    decreases |batch|
  {
    if batch == [] {
      assert events + batch == events;
    } else {
      var grown := events + [batch[0]];
      assert grown + batch[1..] == events + batch;
      WellFormedPrefix(states, events + batch, |grown|);
      assert (events + batch)[..|grown|] == grown;
      CheckKeepsWellFormed(states, events, batch[0]);
      RunAllAccepted(states, grown, batch[1..], None);
    }
  }

  lemma WellFormedPrefix(states: seq<string>, events: seq<Event>, k: nat)
    requires k <= |events|
    requires WellFormed(states, events)
    ensures WellFormed(states, events[..k])
  {
  }

  /** A batch whose final element fails empties the list and returns that
      element's error. */
  lemma BatchFailureClearsAll(states: seq<string>, events: seq<Event>, batch: seq<Event>)
    requires batch != []
    requires Check(states, Run(states, events, batch[..|batch| - 1], None).events, batch[|batch| - 1]).Some?
    ensures RegisterAll(states, events, batch)
         == Registration(Check(states, Run(states, events, batch[..|batch| - 1], None).events, batch[|batch| - 1]), [])
  {
  }

  /** A batch whose final element passes succeeds, keeps the list it started
      from as a prefix, and keeps every element that passed its own checks;
      earlier failures are not reported. */
  lemma BatchSuccessKeepsAccepted(states: seq<string>, events: seq<Event>, batch: seq<Event>, k: nat)
    requires batch == [] || Check(states, Run(states, events, batch[..|batch| - 1], None).events, batch[|batch| - 1]).None?
    requires k < |batch|
    requires Check(states, Run(states, events, batch[..k], None).events, batch[k]).None?
    ensures RegisterAll(states, events, batch).err.None?
    ensures events <= RegisterAll(states, events, batch).events
    ensures batch[k] in RegisterAll(states, events, batch).events
  {
    RunOnlyAppends(states, events, batch, None);
    RunKeepsAccepted(states, events, batch, None, k);
  }

  /** A batch of events that are all valid, together and against what is
      already registered, is appended whole and in order. */
  lemma BatchOfValidEvents(states: seq<string>, events: seq<Event>, batch: seq<Event>)
    requires WellFormed(states, events + batch)
    ensures RegisterAll(states, events, batch) == Registration(None, events + batch)
  {
    RunAllAccepted(states, events, batch, None);
  }

  /** An invalid element followed by a valid one: the batch reports success
      and the invalid element is silently dropped. */
  lemma LaterSuccessMasksEarlierFailure()
    ensures var states := ["A", "B"];
      var bad := Event("event1", ["C"], "A", false, false, None);
      var good := Event("event2", ["A"], "B", false, false, None);
      RegisterAll(states, [], [bad, good]) == Registration(None, [good])
  {
    var states := ["A", "B"];
    var bad := Event("event1", ["C"], "A", false, false, None);
    var good := Event("event2", ["A"], "B", false, false, None);
    assert "C" !in states;
    assert Check(states, [], bad) == Some(FromStatesNotInStates(["C"]));
    assert Check(states, [], good).None?;
    assert [bad, good][1..] == [good];
    assert [good][1..] == [];
  }

  /** A failing batch also clears what earlier, unrelated calls registered. */
  lemma FailureClearsEarlierRegistrations()
    ensures var states := ["A", "B"];
      var e1 := Event("event1", ["A"], "B", false, false, None);
      var e2 := Event("event2", ["C"], "A", false, false, None);
      RegisterAll(states, [e1], [e2]) == Registration(Some(FromStatesNotInStates(["C"])), [])
  {
    var states := ["A", "B"];
    var e2 := Event("event2", ["C"], "A", false, false, None);
    assert "C" !in states;
    assert [e2][1..] == [];
  }
}
