// The timer's state enumeration and its textual form.

module TimerState {

  /** A timer state. As in the source it is an integer enumeration, so values
      other than the four named ones exist; the zero value is Idle. */
  newtype State = int

  const Idle: State := 0
  const Running: State := 1
  const Paused: State := 2
  const Finished: State := 3

  /** One of the four named states. */
  predicate IsKnown(s: State) {
    s == Idle || s == Running || s == Paused || s == Finished
  }

  /** The lower-case name used in tick payloads; "unknown" for any other value. */
  function StateString(s: State): (r: string)
    ensures s == Idle <==> r == "idle"
    ensures s == Running <==> r == "running"
    ensures s == Paused <==> r == "paused"
    ensures s == Finished <==> r == "finished"
    ensures !IsKnown(s) <==> r == "unknown"
  {
    if s == Idle then "idle"
    else if s == Running then "running"
    else if s == Paused then "paused"
    else if s == Finished then "finished"
    else "unknown"
  }

  /** The four named states have pairwise distinct names, so the name determines the state. */
  lemma StateStringInjective(s: State, t: State)
    requires IsKnown(s) && IsKnown(t)
    ensures StateString(s) == StateString(t) <==> s == t
  {
  }
}
