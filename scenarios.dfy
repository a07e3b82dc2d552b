/** Callers of the engine: what each can conclude from the contracts alone,
    for the engine's usual walk-throughs. */
module Scenarios {
  import opened Types
  import opened StateMachine
  import Registry

  /** A registered event fires from its source and moves to its target. */
  method FireMovesToTarget()
  {
    var c, err := New(["A", "B"], "A");
    assert err.None?;
    var go := Event("go", ["A"], "B", false, false, None);
    err := c.RegisterEvent(go);
    assert err.None? && c.events == [go];
    err := c.Fire("go");
    assert err.None? && c.CurrentState() == "B";
    err := c.Fire("go");
    assert err == Some(CannotFire("go", "B")) && c.CurrentState() == "B";
  }

  /** Firing before anything is registered fails and changes nothing. */
  method FireUnregisteredFails()
  {
    var c, err := New(["A", "B"], "A");
    err := c.Fire("go");
    assert err == Some(EventNotRegistered("go")) && c.CurrentState() == "A";
  }

  /** A second event with the same name is refused; the first stays. */
  method DuplicateNameRefused()
  {
    var c, err := New(["A", "B"], "A");
    var t := Event("t", ["A"], "B", false, false, None);
    err := c.RegisterEvent(t);
    err := c.RegisterEvent(t);
    assert err == Some(DuplicateEventName("t")) && c.events == [t];
  }

  /** A failing batch also drops the event registered before it. */
  method FailingBatchClearsEverything()
  {
    var c, err := New(["A", "B"], "A");
    var e1 := Event("event1", ["A"], "B", false, false, None);
    var e2 := Event("event2", ["C"], "A", false, false, None);
    err := c.RegisterEvent(e1);
    assert c.events == [e1];
    err := c.RegisterEvents([e2]);
    Registry.FailureClearsEarlierRegistrations();
    assert err == Some(FromStatesNotInStates(["C"])) && c.events == [];
  }

  /** A validator's veto is returned as it is and the state stays put. */
  method VetoKeepsState()
  {
    var c, err := New(["A", "B"], "A");
    var veto: Validator := (from, to) => Some(Rejected("t event is not allowed"));
    err := c.RegisterEvent(Event("t", ["A"], "B", false, false, Some(veto)));
    assert err.None?;
    err := c.Fire("t");
    assert err == Some(Rejected("t event is not allowed")) && c.CurrentState() == "A";
  }
}
