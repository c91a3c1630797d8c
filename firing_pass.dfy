/** The rule-firing pass of the default rules engine, as functions over values.

    A rule's condition and action are arbitrary user code, so a pass is given
    their outcomes as data: `behaviours[i]` says what evaluating the condition
    of the i-th rule (in collection order) yields and whether its action then
    completes. Each condition is evaluated at most once per pass (proved in
    PassProperties), so one outcome per rule describes a pass exactly.
    The log lines the engine writes are abstracted as a trace of events. */
module FiringPass {

  /** Java `int`: priorities and the threshold are only ever compared. */
  newtype Int32 = x: int | -0x8000_0000 <= x < 0x8000_0000

  /** `EasyRulesConstants.DEFAULT_RULE_PRIORITY_THRESHOLD`; its value is not
      part of this model, so it is left unspecified. */
  const DefaultRulePriorityThreshold: Int32

  /** What the engine reads of a rule: its name (used only in log lines) and its priority. */
  datatype Rule = Rule(name: string, priority: Int32)

  /** Outcome of `evaluateConditions`: true, false, or an exception. */
  datatype Verdict = Holds | DoesNotHold | Raises

  /** Outcome of `performActions`. The try block catches `Exception` only, so an
      `Error` (any other `Throwable`) thrown by the actions is not caught. */
  datatype ActionOutcome = Completes | ThrowsException | ThrowsError

  /** What the user code of one rule does when the engine calls it. */
  datatype Behaviour = Behaviour(condition: Verdict, action: ActionOutcome)

  /** The two scalars fixed at construction. */
  datatype Config = Config(skipOnFirstAppliedRule: bool, rulePriorityThreshold: Int32)

  /** Observable steps of a pass; `at` is the rule's position in the collection. */
  datatype Event =
    | Evaluated(at: nat)      // the condition of rule `at` was evaluated
    | Performed(at: nat)      // its actions completed
    | Failed(at: nat)         // its actions threw an Exception; logged as severe and the loop goes on
    | ThresholdStop(at: nat)  // rule `at` exceeds the threshold; the pass ends
    | SkipStop(at: nat)       // rule `at` applied and skip mode ends the pass

  /** How a firing ends. ConditionRaised and ActionRaised are abrupt: the
      exception leaves applyRules and fireRules. The others are normal returns. */
  datatype Exit =
    | NoRulesRegistered          // empty collection: fireRules warns and returns
    | Exhausted                  // every rule was considered
    | ThresholdExceeded(at: nat) // the break at the threshold check
    | SkippedAfterSuccess(at: nat) // the break after the first applied rule
    | ConditionRaised(at: nat)   // evaluateConditions threw; the exception propagates
    | ActionRaised(at: nat)      // performActions threw an Error, which the catch does not cover

  datatype Run = Run(trace: seq<Event>, exit: Exit)

  function Prepend(steps: seq<Event>, r: Run): Run
  {
    Run(steps + r.trace, r.exit)
  }

  /** What one iteration of the loop in applyRules does with rule `i`:
      the events it produces and, when the pass ends there, how it ends. */
  datatype Visit = Continue(steps: seq<Event>) | Stop(steps: seq<Event>, exit: Exit)

  function VisitRule(rule: Rule, cfg: Config, behaviour: Behaviour, i: nat): (v: Visit)
    ensures 1 <= |v.steps| <= 3
    ensures v.steps[0] == (if rule.priority > cfg.rulePriorityThreshold then ThresholdStop(i) else Evaluated(i))
    ensures forall p :: 0 <= p < |v.steps| ==> v.steps[p].at == i
    ensures v.Stop? ==> !v.exit.Exhausted? && !v.exit.NoRulesRegistered? && v.exit.at == i
  {
    if rule.priority > cfg.rulePriorityThreshold then
      Stop([ThresholdStop(i)], ThresholdExceeded(i))
    else
      match behaviour.condition
      case Raises => Stop([Evaluated(i)], ConditionRaised(i))
      case DoesNotHold => Continue([Evaluated(i)])
      case Holds =>
        match behaviour.action
        case ThrowsException => Continue([Evaluated(i), Failed(i)])
        case ThrowsError => Stop([Evaluated(i)], ActionRaised(i))
        case Completes =>
          if cfg.skipOnFirstAppliedRule then
            Stop([Evaluated(i), Performed(i), SkipStop(i)], SkippedAfterSuccess(i))
          else
            Continue([Evaluated(i), Performed(i)])
  }

  /** The pass from rule `i` onward. */
  function PassFrom(rules: seq<Rule>, cfg: Config, behaviours: seq<Behaviour>, i: nat): (r: Run)
    requires |behaviours| == |rules| && i <= |rules|
    ensures !r.exit.NoRulesRegistered?
    ensures !r.exit.Exhausted? ==> i <= r.exit.at < |rules|
    decreases |rules| - i
  {
    if i == |rules| then
      Run([], Exhausted)
    else
      match VisitRule(rules[i], cfg, behaviours[i], i)
      case Stop(steps, exit) => Run(steps, exit)
      case Continue(steps) => Prepend(steps, PassFrom(rules, cfg, behaviours, i + 1))
  }

  /** One iteration of the pass, as an equation between the pass from `i`
      and the pass from `i + 1`. */
  lemma PassFromUnfold(rules: seq<Rule>, cfg: Config, behaviours: seq<Behaviour>, i: nat)
    requires |behaviours| == |rules| && i < |rules|
    ensures var visit := VisitRule(rules[i], cfg, behaviours[i], i);
      && (visit.Stop? ==> PassFrom(rules, cfg, behaviours, i) == Run(visit.steps, visit.exit))
      && (visit.Continue? ==>
            PassFrom(rules, cfg, behaviours, i) == Prepend(visit.steps, PassFrom(rules, cfg, behaviours, i + 1)))
  {
  }

  lemma PrependAppend(a: seq<Event>, b: seq<Event>, r: Run)
    ensures Prepend(a, Prepend(b, r)) == Prepend(a + b, r)
  {
  }

  /** applyRules: the pass over the whole collection. */
  function Pass(rules: seq<Rule>, cfg: Config, behaviours: seq<Behaviour>): (r: Run)
    requires |behaviours| == |rules|
    ensures !r.exit.NoRulesRegistered?
    ensures !r.exit.Exhausted? ==> r.exit.at < |rules|
  {
    PassFrom(rules, cfg, behaviours, 0)
  }

  /** fireRules: an empty collection returns at once, otherwise the pass runs. */
  function Fire(rules: seq<Rule>, cfg: Config, behaviours: seq<Behaviour>): (r: Run)
    requires |behaviours| == |rules|
    ensures r.exit.NoRulesRegistered? <==> rules == []
    ensures rules == [] ==> r.trace == []
  {
    if rules == [] then Run([], NoRulesRegistered) else Pass(rules, cfg, behaviours)
  }
}
