/** Shared vocabulary. */
module Prelude {
  datatype Option<+T> = None | Some(value: T) {
    function GetOr(otherwise: T): T {
      if None? then otherwise else value
    }
  }

  /** A process, or a caller that acts on its own. */
  type Pid = nat

  /** What a path holds. A file that is still being written reads as torn. */
  datatype Content<+C> = Absent | Torn | Whole(value: C)

  /** A mutator fails or returns what it made of the value it was given. */
  type Mutator<!C> = C -> Option<C>

  /** One mutator after another, each on what the one before it made. */
  ghost function FoldMutators<C>(start: C, log: seq<Mutator<C>>): Option<C> {
    if log == [] then Some(start)
    else
      match FoldMutators(start, log[..|log| - 1])
      case Some(c) => log[|log| - 1](c)
      case None => None
  }
}
