# A verified model of the statemachine finite-state-machine engine

The engine keeps a fixed list of state labels, a current state, an ordered
list of registered events and two optional global hooks (`beforeAll`,
`afterAll`). An event has a name, a list of permitted source states (`from`),
one target state (`to`), optional `before`/`after` hooks and an optional
validator. The model covers every operation of the engine:

- `New` builds an engine, provided the initial state is one of the states.
- `RegisterEvent` runs four checks in a fixed order (target known, every source
  known, target not among the sources, name not yet used). The first check that
  fails decides the error. When all four pass, the event is appended.
- `RegisterEvents` registers a batch element by element. Each result overwrites
  the previous one. If the final element failed, the whole event list is
  cleared, including events registered by earlier calls.
- `Fire` looks the event up by name and checks that the current state is a
  permitted source. It then calls `beforeAll`, `before` and the validator, in
  that order. On a veto it returns the validator's error unchanged. Otherwise it
  moves to the target and calls `after` and then `afterAll`.
- `SetCurrentState` overrides the current state, provided the new state is one
  of the states. No hooks run.
- `BeforeAll`, `AfterAll` and `CurrentState` set the global hook slots and read
  the current state.

Files:

- `types.dfy` (module `Types`): error kinds, events, hook calls.
- `registry.dfy` (module `Registry`): the registration rules as functions; the
  invariant they keep; the batch fold `Run` and its lemmas.
- `transition.dfy` (module `Transition`): the firing protocol as a function of
  the engine's state; its lemmas.
- `context.dfy` (module `StateMachine`): the engine as a class whose methods
  change its fields in place; each method is proved against the functions above.
- `scenarios.dfy` (module `Scenarios`): client methods for the usual
  walk-throughs, proved from the contracts alone.

How hooks are modelled: a hook slot is a boolean that says whether the hook is
set. Each hook call is appended to a ghost `trace` together with its
arguments, so the contracts can state the order of the calls. A validator is a
function value `(from, to) -> Option<Error>`.

Where the code differs from a natural reading of the engine's design, the
model follows the code:

- Batch registration is not all-or-nothing. Only the final element's result
  counts. An invalid element followed by a valid one reports success and drops
  the invalid element without an error (`Registry.LaterSuccessMasksEarlierFailure`).
- An event with an empty `from` list is accepted. Such an event can never fire.

## Model

| member | source | states |
|---|---|---|
| `Registry.Check` | statemachine.go:61-80 | The four checks in order: an unknown target gives the to-state error; otherwise an unknown source gives the from-states error; otherwise a target among the sources gives the same-state error; otherwise a used name gives the uniqueness error. No error exactly when the event is admissible and its name is new. |
| `Registry.CheckKeepsWellFormed` | statemachine.go:61-82 | Appending an event keeps the list well-formed exactly when the list was well-formed and the checks pass. Well-formed means every target and source is a state, no target is among its own sources, and names are pairwise distinct. |
| `Registry.Register` | statemachine.go:61-85 | One registration keeps a well-formed event list well-formed. |
| `Registry.RegisterAll` | statemachine.go:87-101 | An empty batch succeeds and changes nothing. For a non-empty batch, the error returned is the final element's check result, taken against the list the earlier elements left. Well-formedness is kept. |
| `Registry.RunLast` | statemachine.go:90-92 | The loop's outcome is the registration of the final element on top of what the earlier elements left. Earlier errors are overwritten. |
| `Registry.RunKeepsWellFormed` | statemachine.go:90-92 | Every iteration of the batch loop keeps the event list well-formed. |
| `Registry.RunOnlyAppends` | statemachine.go:90-92 | The batch loop only appends. The starting list stays a prefix, and every added event comes from the batch. |
| `Registry.RunGrows` | statemachine.go:90-92 | What the first k elements leave is a prefix of what the whole batch leaves. |
| `Registry.RunKeepsAccepted` | statemachine.go:90-92 | An element that passes its checks against the list the earlier elements left is still registered at the end of the loop. |
| `Registry.RunAllAccepted` | statemachine.go:90-92 | If the batch extends the current list into a well-formed list, every element is appended in order and no error remains. |
| `Registry.BatchFailureClearsAll` | statemachine.go:94-98 | If the final element fails, the result is that element's error and an empty event list. Events registered before the batch are dropped too. |
| `Registry.BatchSuccessKeepsAccepted` | statemachine.go:87-101 | If the final element passes, the batch succeeds. The previous list stays a prefix, and every element that passed its own checks is kept. |
| `Registry.BatchOfValidEvents` | statemachine.go:87-101 | A batch that is valid together with the existing events is appended whole and in order, with success. |
| `Registry.LaterSuccessMasksEarlierFailure` | statemachine.go:90-100 | With states A, B: a batch of an event with unknown source C followed by a valid event returns success and keeps only the valid event. |
| `Registry.FailureClearsEarlierRegistrations` | statemachine.go:94-97 | With states A, B and one registered event: a batch of one event with unknown source C returns the from-states error and leaves no events. |
| `Transition.Find` | statemachine.go:126-131 | The search returns nothing exactly when no event has the name. Otherwise it returns the index of the first event with that name. |
| `Transition.FindUnique` | statemachine.go:126-131 | When names are unique, the search finds the one event that has the name. |
| `Transition.Fire` | statemachine.go:123-168 | A failed firing leaves the state unchanged. A successful one lands on the target of a registered event with this name whose sources include the old state. An unknown name makes no hook call. |
| `Transition.FireUnregistered` | statemachine.go:133-135 | An unknown name gives the not-registered error. The state is unchanged and no hook or validator runs. |
| `Transition.FireFromForbiddenState` | statemachine.go:137-139 | If the current state is not among the event's sources, the result is the cannot-fire error, with the state unchanged and no hook or validator run. |
| `Transition.FireVetoed` | statemachine.go:141-155 | A validator's veto is returned unchanged and the state stays put. The calls are beforeAll (if set), before (if set), then validate. No after or afterAll call follows. |
| `Transition.FireCompletes` | statemachine.go:141-167 | Without a veto, the state becomes the target. The calls are beforeAll(name, old, to), before, validate(old, to), after, afterAll(name, to, to), each only if set. |
| `Transition.FireStaysInStates` | statemachine.go:157 | Firing over a well-formed event list keeps the current state among the states. |
| `StateMachine.FindEvent` | statemachine.go:124-131 | The search loop with early break returns the first index with the name, or nothing exactly when no event has it. |
| `StateMachine.New` | statemachine.go:41-51 | Fails with the initial-state error exactly when the initial state is not a state. Otherwise it returns a fresh engine in that state, with no events, no global hooks and an empty trace. |
| `StateMachine.Context.constructor` | statemachine.go:46-50 | The new engine holds the states and the initial state. Its current state is the initial state, with no events and no hooks. |
| `StateMachine.Context.CurrentState` | statemachine.go:53-55 | The current state is always one of the states. |
| `StateMachine.Context.RegisterEvent` | statemachine.go:61-85 | Returns the result of the four checks. On success the event is appended at the end; on any error the list is unchanged. The engine invariant is kept. |
| `StateMachine.Context.RegisterEvents` | statemachine.go:87-101 | The returned error and the new event list are those of `Registry.RegisterAll` on the old list. The engine invariant is kept. |
| `StateMachine.Context.BeforeAll` | statemachine.go:103-105 | Sets or clears the global before-hook. The last call wins and nothing else changes. |
| `StateMachine.Context.AfterAll` | statemachine.go:107-109 | Sets or clears the global after-hook. The last call wins and nothing else changes. |
| `StateMachine.Context.Fire` | statemachine.go:123-168 | The error, the new current state and the calls appended to the trace are those of `Transition.Fire` on the old state. Events and hooks are unchanged, and the engine invariant is kept. |
| `StateMachine.Context.SetCurrentState` | statemachine.go:170-178 | Succeeds exactly when the state is one of the states, and then sets it. Otherwise it returns the invalid-state error and changes nothing. It runs no hook. |

## Left out

- `RenderGraph` (statemachine.go:111-121): it prints a table of the events to standard output through an external table library. It only reads the event list.
- `Context()` (statemachine.go:57-59): it hands out a raw pointer through which callers can change private fields.
- Sharing: the `states` slice is shared with the caller. Go slice and pointer sharing has no counterpart here.
- The `StateMachine` interface (statemachine.go:28-38): the class exposes the same operations directly.
- Error text: the formatted messages, including the printed state list, are not modelled. Each error is a kind carrying the name or state involved.
- Hook bodies: the model records that a hook was called, and with which arguments, but not what it did. A hook that calls back into the engine during `Fire` is not modelled, and neither is a hook that panics.
- Validators: a validator is a pure function of (from, to). A Go validator may have side effects or read outside state.
- Concurrency: the engine has no locking and is used from one thread.
