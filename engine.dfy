/** The engine object: the rule collection and the two configuration scalars
    as fields, and the firing pass as a loop over the collection. */
module Engine {
  import opened FiringPass

  class DefaultRulesEngine {
    /** The registered rules in the collection's iteration order. */
    var rules: seq<Rule>
    var skipOnFirstAppliedRule: bool
    var rulePriorityThreshold: Int32

    function Settings(): Config
      reads this
    {
      Config(skipOnFirstAppliedRule, rulePriorityThreshold)
    }

    /** The two-argument constructor, which the other three delegate to. */
    constructor (skipOnFirstAppliedRule: bool, rulePriorityThreshold: Int32)
      ensures rules == []
      ensures this.skipOnFirstAppliedRule == skipOnFirstAppliedRule
      ensures this.rulePriorityThreshold == rulePriorityThreshold
    {
      rules := [];
      this.skipOnFirstAppliedRule := skipOnFirstAppliedRule;
      this.rulePriorityThreshold := rulePriorityThreshold;
    }

    constructor Default()
      ensures rules == [] && !skipOnFirstAppliedRule
      ensures rulePriorityThreshold == DefaultRulePriorityThreshold
    {
      rules := [];
      skipOnFirstAppliedRule := false;
      rulePriorityThreshold := DefaultRulePriorityThreshold;
    }

    constructor WithSkip(skipOnFirstAppliedRule: bool)
      ensures rules == [] && this.skipOnFirstAppliedRule == skipOnFirstAppliedRule
      ensures rulePriorityThreshold == DefaultRulePriorityThreshold
    {
      rules := [];
      this.skipOnFirstAppliedRule := skipOnFirstAppliedRule;
      rulePriorityThreshold := DefaultRulePriorityThreshold;
    }

    constructor WithThreshold(rulePriorityThreshold: Int32)
      ensures rules == [] && !skipOnFirstAppliedRule
      ensures this.rulePriorityThreshold == rulePriorityThreshold
    {
      rules := [];
      skipOnFirstAppliedRule := false;
      this.rulePriorityThreshold := rulePriorityThreshold;
    }

    /** Fires the registered rules. `behaviours[i]` is what the user code of
        the i-th rule does. The method modifies nothing: the configuration
        and the collection are the same after the pass. */
    method FireRules(behaviours: seq<Behaviour>) returns (trace: seq<Event>, exit: Exit)
      requires |behaviours| == |rules|
      ensures rules == [] ==> trace == [] && exit == NoRulesRegistered
      ensures rules != [] ==> !exit.NoRulesRegistered?
      ensures Run(trace, exit) == Fire(rules, Settings(), behaviours)
    {
      if rules == [] {
        return [], NoRulesRegistered;
      }
      trace, exit := ApplyRules(behaviours);
    }

    /** One pass over the collection in order, stopping at the first rule
        over the threshold, after the first applied rule in skip mode, when a
        condition throws, or when an action throws an Error. */
    method ApplyRules(behaviours: seq<Behaviour>) returns (trace: seq<Event>, exit: Exit)
      requires |behaviours| == |rules|
      ensures Run(trace, exit) == Pass(rules, Settings(), behaviours)
    {
      ghost var cfg := Settings();
      ghost var whole := Pass(rules, cfg, behaviours);
      trace, exit := [], Exhausted;
      var i := 0;
      while i < |rules|
        invariant i <= |rules| && exit == Exhausted
        invariant Prepend(trace, PassFrom(rules, cfg, behaviours, i)) == whole
      {
        PassFromUnfold(rules, cfg, behaviours, i);
        var rule := rules[i];
        if rule.priority > rulePriorityThreshold {
          trace, exit := trace + [ThresholdStop(i)], ThresholdExceeded(i);
          break;
        }
        var verdict := behaviours[i].condition;
        if verdict == Raises {
          // the exception leaves applyRules and fireRules
          trace, exit := trace + [Evaluated(i)], ConditionRaised(i);
          return;
        }
        var steps := [Evaluated(i)];
        if verdict == Holds {
          var outcome := behaviours[i].action;
          if outcome == Completes {
            if skipOnFirstAppliedRule {
              trace, exit := trace + [Evaluated(i), Performed(i), SkipStop(i)], SkippedAfterSuccess(i);
              break;
            }
            steps := [Evaluated(i), Performed(i)];
          } else if outcome == ThrowsException {
            // the exception is caught and logged; the loop moves on
            steps := [Evaluated(i), Failed(i)];
          } else {
            // an Error is not caught: it leaves applyRules and fireRules
            trace, exit := trace + [Evaluated(i)], ActionRaised(i);
            return;
          }
        }
        PrependAppend(trace, steps, PassFrom(rules, cfg, behaviours, i + 1));
        trace := trace + steps;
        i := i + 1;
      }
    }
  }
}
