/**
  `backToPrevious` as the source writes it. It reads the history entry at
  `_history.end()`, the position one past the last entry, which is undefined
  behaviour for a vector. The model elsewhere uses `Engine.BackToPrevious`,
  which reads the last entry. The operation's name and its guard against an
  empty history (StateMachine.hpp:218) both point at the last entry.
*/
module UndoAsWritten {
  import opened Options
  import opened Machines
  import Engine

  /** A vector read without a bounds check: None marks a read outside the vector (undefined behaviour). */
  function ReadUnchecked<E>(v: seq<E>, pos: int): Option<E>
  {
    if 0 <= pos < |v| then Some(v[pos]) else None
  }

  /** The position `end()` denotes: one past the last element. */
  function EndPosition<E>(v: seq<E>): int
  {
    |v|
  }

  /** `backToPrevious` as written: None where it would dereference `end()`. */
  function BackToPreviousAsWritten<T(==,!new)>(m: Machine<T>): (r: Option<Step<T>>)
    ensures |m.history| == 0 ==> r == Some(Step(m, false, []))
    ensures |m.history| > 0 ==> r.None?
  {
    if |m.history| == 0 then Some(Step(m, false, []))
    else match ReadUnchecked(m.history, EndPosition(m.history))
      case None => None
      case Some(entry) => Some(Engine.TransitionTo(m, entry.0))
  }

  /**
    The as-written undo agrees with the intended one only on an empty
    history; on every non-empty history its read is undefined, while the
    intended undo asks for the origin of the last entry.
  */
  lemma AsWrittenUndoIsUndefined<T(!new)>(m: Machine<T>)
    ensures |m.history| == 0 ==> BackToPreviousAsWritten(m) == Some(Engine.BackToPrevious(m))
    ensures |m.history| > 0 ==> BackToPreviousAsWritten(m).None?
    ensures |m.history| > 0 ==> Engine.BackToPrevious(m) == Engine.TransitionTo(m, m.history[|m.history| - 1].0)
  {
  }
}
