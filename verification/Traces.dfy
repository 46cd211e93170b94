/** Runs of a state machine: states[k] is the state that call k meets. */
module Traces {
  ghost predicate IsHistory<S, C, A>(isStep: (S, C, A, S) -> bool, states: seq<S>, calls: seq<C>, answers: seq<A>) {
    && |answers| <= |calls| && |states| == |answers| + 1
    && forall k | 0 <= k < |answers| :: isStep(states[k], calls[k], answers[k], states[k + 1])
  }

  lemma ExtendHistory<S, C, A>(isStep: (S, C, A, S) -> bool, states: seq<S>, calls: seq<C>, answers: seq<A>,
                               answer: A, next: S)
    requires IsHistory(isStep, states, calls, answers) && |answers| < |calls|
    requires isStep(states[|answers|], calls[|answers|], answer, next)
    ensures IsHistory(isStep, states + [next], calls, answers + [answer])
  {
    var states', answers' := states + [next], answers + [answer];
    forall k | 0 <= k < |answers'| ensures isStep(states'[k], calls[k], answers'[k], states'[k + 1]) {
      if k < |answers| {
        assert states'[k] == states[k] && states'[k + 1] == states[k + 1] && answers'[k] == answers[k];
      }
    }
  }
}
