/** Values shared by the registration rules, the firing protocol and the engine:
    states are plain strings, errors are a closed set of kinds, and hooks are
    observed only through the calls they receive. */
module Types {

  datatype Option<T> = None | Some(value: T)

  /** A per-event validator. Given the (from, to) pair of the transition being
      attempted it either vetoes it with an error or lets it through (None). */
  type Validator = (string, string) -> Option<Error>

  /** The engine's error kinds. Each carries the name or state the failing
      check looked at; `Rejected` is the shape a caller's validator may use. */
  datatype Error =
    | InitialStateNotInStates(initial: string)
    | ToStateNotInStates(to: string)
    | FromStatesNotInStates(from: seq<string>)
    | SameFromAndTo(state: string)
    | DuplicateEventName(name: string)
    | EventNotRegistered(name: string)
    | CannotFire(name: string, state: string)
    | StateNotInStates(state: string)
    | Rejected(reason: string)

  /** A named transition. `before` and `after` say whether the event carries
      those hooks; the hook bodies themselves are the caller's business. */
  datatype Event = Event(
    name: string,
    from: seq<string>,
    to: string,
    before: bool,
    after: bool,
    validate: Option<Validator>)

  /** One invocation of a hook or validator, with the arguments it was given. */
  datatype HookCall =
    | BeforeAllCall(event: string, from: string, to: string)
    | BeforeCall(event: string)
    | ValidateCall(event: string, from: string, to: string)
    | AfterCall(event: string)
    | AfterAllCall(event: string, from: string, to: string)

  /** The call a hook slot produces: one entry when the hook is set, none otherwise. */
  function When(present: bool, call: HookCall): (calls: seq<HookCall>)
  {
    if present then [call] else []
  }
}
