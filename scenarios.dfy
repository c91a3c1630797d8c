/** Concrete firings of small rule collections, worked out from the model of
    the pass. Positions are indexes into the (already sorted) collection. */
module Scenarios {
  import opened FiringPass

  function Quiet(): Behaviour { Behaviour(DoesNotHold, Completes) }
  function Applies(): Behaviour { Behaviour(Holds, Completes) }

  /** Priorities [1, 3, 5, 10] with threshold 5: the first three conditions are
      evaluated and the pass stops at the priority-10 rule without evaluating it. */
  lemma ThresholdScenario()
    ensures var rules := [Rule("a", 1), Rule("b", 3), Rule("c", 5), Rule("d", 10)];
      Fire(rules, Config(false, 5), [Quiet(), Quiet(), Quiet(), Quiet()])
        == Run([Evaluated(0), Evaluated(1), Evaluated(2), ThresholdStop(3)], ThresholdExceeded(3))
  {
  }

  /** No rules: nothing is evaluated and nothing is performed. */
  lemma EmptyScenario(cfg: Config)
    ensures Fire([], cfg, []) == Run([], NoRulesRegistered)
  {
  }

  /** Skip mode with two applicable rules: only the first one's actions run and
      the second condition is never evaluated. */
  lemma SkipScenario()
    ensures var rules := [Rule("a", 1), Rule("b", 2)];
      Fire(rules, Config(true, 5), [Applies(), Applies()])
        == Run([Evaluated(0), Performed(0), SkipStop(0)], SkippedAfterSuccess(0))
  {
  }

  /** The second rule's actions throw an Exception: the failure is logged and the third rule
      is still evaluated and applied; the pass ends normally. */
  lemma ActionFailureScenario()
    ensures var rules := [Rule("a", 1), Rule("b", 2), Rule("c", 3)];
      Fire(rules, Config(false, 5), [Applies(), Behaviour(Holds, ThrowsException), Applies()])
        == Run([Evaluated(0), Performed(0), Evaluated(1), Failed(1), Evaluated(2), Performed(2)], Exhausted)
  {
  }

  /** The first condition throws: the pass is aborted and the second condition
      is never evaluated. */
  lemma ConditionFailureScenario()
    ensures var rules := [Rule("a", 1), Rule("b", 2)];
      Fire(rules, Config(false, 5), [Behaviour(Raises, Completes), Applies()])
        == Run([Evaluated(0)], ConditionRaised(0))
  {
  }

  /** The first rule's actions throw an Error: the catch does not cover it, so
      the pass is aborted and the second condition is never evaluated. */
  lemma ActionErrorScenario()
    ensures var rules := [Rule("a", 1), Rule("b", 2)];
      Fire(rules, Config(false, 5), [Behaviour(Holds, ThrowsError), Applies()])
        == Run([Evaluated(0)], ActionRaised(0))
  {
  }
}
