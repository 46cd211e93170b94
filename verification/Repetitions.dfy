/** A step that may fail, taken a number of times. */
module Repetitions {
  import opened Wrappers

  function Repeat<S, E>(step: S -> Result<S, E>, count: nat, s: S): Result<S, E> {
    if count == 0 then Ok(s)
    else
      var r := step(s);
      if r.Err? then r else Repeat(step, count - 1, r.value)
  }

  lemma {:induction false} RepeatNext<S, E>(step: S -> Result<S, E>, count: nat, s: S)
    requires count > 0
    ensures Repeat(step, count, s) == if step(s).Err? then step(s) else Repeat(step, count - 1, step(s).value)
  {
  }

  /** What every step keeps is kept. */
  lemma {:induction false} RepeatKeeps<S(!new), E>(step: S -> Result<S, E>, count: nat, s: S, keeps: S -> bool)
    requires keeps(s) && forall x | keeps(x) && step(x).Ok? :: keeps(step(x).value)
    ensures Repeat(step, count, s).Ok? ==> keeps(Repeat(step, count, s).value)
    decreases count
  {
    if count > 0 && step(s).Ok? {
      RepeatKeeps(step, count - 1, step(s).value, keeps);
    }
  }
}
