/**
 * The plugin's configuration (settings/LoggingSettings.kt): the logging
 * framework enumeration, the mutable `State` record with its defaults, and
 * the persistent component that hands the record out and replaces it.
 */
module Settings {

  /** `LoggingSettings.LoggingFramework`: exactly two constants. */
  datatype LoggingFramework = PRINTLN | TIMBER

  /** The `displayName` each constant carries. */
  function DisplayName(f: LoggingFramework): string {
    match f
    case PRINTLN => "System Println"
    case TIMBER => "Timber"
  }

  /** The enumeration has exactly the two constants, with distinct display names. */
  lemma FrameworkConstants(f: LoggingFramework)
    ensures f == PRINTLN || f == TIMBER
    ensures DisplayName(PRINTLN) == "System Println" && DisplayName(TIMBER) == "Timber"
    ensures DisplayName(PRINTLN) != DisplayName(TIMBER)
  {
  }

  /** The four values a `State` holds, as plain data. */
  datatype StateValue = StateValue(
    trackMethodExecution: bool,
    trackAssignments: bool,
    logTag: string,
    loggingFramework: LoggingFramework)

  /** The defaults of `State()`. */
  const DefaultState := StateValue(true, true, "Myfancy log", PRINTLN)

  /** `LoggingSettings.State`: a record whose four fields are `var`s. */
  class State {
    var trackMethodExecution: bool
    var trackAssignments: bool
    var logTag: string
    var loggingFramework: LoggingFramework

    function Value(): StateValue
      reads this
    {
      StateValue(trackMethodExecution, trackAssignments, logTag, loggingFramework)
    }

    /** `State()`: every field takes its default. */
    constructor ()
      ensures Value() == DefaultState
    {
      trackMethodExecution := true;
      trackAssignments := true;
      logTag := "Myfancy log";
      loggingFramework := PRINTLN;
    }

    /** `State(a, b, c, d)`: every field given. */
    constructor Of(v: StateValue)
      ensures Value() == v
    {
      trackMethodExecution := v.trackMethodExecution;
      trackAssignments := v.trackAssignments;
      logTag := v.logTag;
      loggingFramework := v.loggingFramework;
    }
  }

  /** The persistent component: its one field is the current state object. */
  class LoggingSettings {
    var myState: State

    /** A fresh component holds a fresh default `State`. */
    constructor ()
      ensures fresh(myState) && myState.Value() == DefaultState
    {
      myState := new State();
    }

    /** `getState()` hands out the stored object itself, not a copy. */
    method GetState() returns (s: State)
      ensures s == myState
    {
      s := myState;
    }

    /** `loadState(state)` replaces the stored object and changes nothing else. */
    method LoadState(state: State)
      modifies this
      ensures myState == state
    {
      myState := state;
    }
  }

  /**
   * A fresh component reports the defaults; after `loadState` of a record
   * holding `v`, `getState` reports `v`.
   */
  method FreshThenLoad(v: StateValue) returns (before: StateValue, after: StateValue)
    ensures before == DefaultState
    ensures after == v
  {
    var settings := new LoggingSettings();
    var s := settings.GetState();
    before := s.Value();
    var loaded := new State.Of(v);
    settings.LoadState(loaded);
    s := settings.GetState();
    after := s.Value();
  }
}
