/** The client's error reducer: the store slice that holds the last error body
    the API sent back. */
module ErrorReducer {
  import opened Outcomes

  /** The action type constant the client's action creators dispatch. */
  const GetErrors := "GET_ERRORS"

  datatype Action = Action(kind: string, payload: ErrorMap)

  const InitialState: ErrorMap := map[]

  /** `state` is None when the store calls the reducer before it has a state,
      which selects the initial one. */
  function Reduce(state: Option<ErrorMap>, action: Action): (next: ErrorMap)
    ensures action.kind == GetErrors ==> next == action.payload
    ensures action.kind != GetErrors && state.Some? ==> next == state.value
    ensures action.kind != GetErrors && state.None? ==> next == map[]
  {
    var current := match state case None => InitialState case Some(s) => s;
    if action.kind == GetErrors then action.payload else current
  }

  /** Dispatching the same `GET_ERRORS` action twice is the same as once. */
  lemma GetErrorsIdempotent(state: Option<ErrorMap>, action: Action)
    requires action.kind == GetErrors
    ensures Reduce(Some(Reduce(state, action)), action) == Reduce(state, action)
  {
  }

  /** The state after dispatching `actions` in order. */
  function ReduceAll(state: ErrorMap, actions: seq<Action>): ErrorMap
    decreases actions
  {
    if actions == [] then state
    else ReduceAll(Reduce(Some(state), actions[0]), actions[1..])
  }

  /** The payload of the last `GET_ERRORS` action, or `state` when there is none. */
  function LastErrors(state: ErrorMap, actions: seq<Action>): ErrorMap
  {
    if actions == [] then state
    else if actions[|actions| - 1].kind == GetErrors then actions[|actions| - 1].payload
    else LastErrors(state, actions[..|actions| - 1])
  }

  lemma {:induction false} ReduceAllSnoc(state: ErrorMap, actions: seq<Action>, a: Action)
    ensures ReduceAll(state, actions + [a]) == Reduce(Some(ReduceAll(state, actions)), a)
    decreases actions
  {
    if actions != [] {
      assert (actions + [a])[1..] == actions[1..] + [a];
      ReduceAllSnoc(Reduce(Some(state), actions[0]), actions[1..], a);
    } else {
      assert [a][1..] == [];
    }
  }

  /** Whatever happened before, the error slice shows the last error body
      received; other actions never change it. */
  lemma {:induction false} ReduceAllIsLastErrors(state: ErrorMap, actions: seq<Action>)
    ensures ReduceAll(state, actions) == LastErrors(state, actions)
  {
    if actions != [] {
      var init := actions[..|actions| - 1];
      var a := actions[|actions| - 1];
      assert actions == init + [a];
      ReduceAllSnoc(state, init, a);
      ReduceAllIsLastErrors(state, init);
    }
  }
}
