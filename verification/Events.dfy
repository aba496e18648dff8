/** Positions of events (genmc/genmc/Execution/Event.hpp). */
module Events {

  datatype Event = Event(thread: nat, index: nat) {
    predicate IsInitializer() { thread == 0 && index == 0 }
  }

  const INIT := Event(0, 0)

  /** std::max over the lexicographic order. */
  function Max(e: Event, f: Event): Event {
    if e.thread < f.thread || (e.thread == f.thread && e.index < f.index) then f else e
  }

  function MaxNat(a: nat, b: nat): nat { if a < b then b else a }

  /** How far e sees into thread t. */
  function Reading(e: Event, t: nat): nat { if e.thread == t then e.index else 0 }
}
