/** The profile store: a reducer over two actions, with a `loaded` flag
    that says whether the saved profile has been read yet. */
module Store {
  import opened Wrappers
  import opened Types

  datatype State = State(profile: Option<Profile>, loaded: bool)

  /** LOAD carries what was read from storage, possibly nothing; SET_PROFILE
      carries a profile the settings screen just saved. */
  datatype Action = Load(loadedProfile: Option<Profile>) | SetProfile(newProfile: Profile)

  const InitialState: State := State(None, false)

  /** The profile an action installs. */
  function Installs(a: Action): Option<Profile> {
    match a
    case Load(p) => p
    case SetProfile(p) => Some(p)
  }

  /** LOAD marks the store loaded; SET_PROFILE leaves the flag as it was.
      Either way the action's profile replaces the current one. */
  function Reduce(s: State, a: Action): (t: State)
    ensures t.profile == Installs(a)
    ensures t.loaded == (s.loaded || a.Load?)
  {
    match a
    case Load(p) => State(p, true)
    case SetProfile(p) => s.(profile := Some(p))
  }

  /** The state after dispatching `actions` in order. */
  function Run(s: State, actions: seq<Action>): State
    decreases |actions|
  {
    if actions == [] then s else Run(Reduce(s, actions[0]), actions[1..])
  }

  predicate HasLoad(actions: seq<Action>) {
    exists i :: 0 <= i < |actions| && actions[i].Load?
  }

  /** After any actions the store is loaded exactly when it was loaded
      before or one of the actions was a LOAD: the flag never goes back. */
  lemma {:induction false} RunLoaded(s: State, actions: seq<Action>)
    ensures Run(s, actions).loaded <==> s.loaded || HasLoad(actions)
    decreases |actions|
  {
    if actions != [] {
      RunLoaded(Reduce(s, actions[0]), actions[1..]);
      if HasLoad(actions[1..]) {
        var i :| 0 <= i < |actions[1..]| && actions[1..][i].Load?;
        assert actions[i + 1].Load?;
      }
      if HasLoad(actions) && !actions[0].Load? {
        var i :| 0 <= i < |actions| && actions[i].Load?;
        assert actions[1..][i - 1].Load?;
      }
    }
  }

  /** The profile is always the one the last action installed; nothing
      dispatched earlier shows through. */
  lemma {:induction false} RunProfile(s: State, actions: seq<Action>)
    requires actions != []
    ensures Run(s, actions).profile == Installs(actions[|actions| - 1])
    decreases |actions|
  {
    if |actions| > 1 {
      RunProfile(Reduce(s, actions[0]), actions[1..]);
    }
  }

  /** From the initial state, the store is loaded exactly after a LOAD. */
  lemma InitialRunLoaded(actions: seq<Action>)
    ensures InitialState.profile.None? && !InitialState.loaded
    ensures Run(InitialState, actions).loaded <==> HasLoad(actions)
  {
    RunLoaded(InitialState, actions);
  }
}
