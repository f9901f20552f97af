/** What a register holds after a run of writes and other events. */
module Registers {
  import opened Platform

  /** The newest value that `written` finds among the events, or else the initial value. */
  function Latest<E, T>(events: seq<E>, written: E -> Option<T>, initial: T): T {
    if events == [] then initial
    else
      var value := written(events[|events| - 1]);
      if value.Some? then value.value else Latest(events[..|events| - 1], written, initial)
  }

  /** The oldest event only changes what the later ones start from. */
  lemma {:induction false} LatestFromFront<E, T>(events: seq<E>, written: E -> Option<T>, initial: T)
    requires events != []
    ensures Latest(events, written, initial)
         == Latest(events[1..], written, if written(events[0]).Some? then written(events[0]).value else initial)
    decreases |events|
  {
    if |events| > 1 {
      var front := events[..|events| - 1];
      LatestFromFront(front, written, initial);
      assert front[1..] == events[1..][..|events| - 2];
    } else {
      assert events[..0] == events[1..] == [];
    }
  }
}
