# easy-rules: the firing pass of the default rules engine

This project models `DefaultRulesEngine` from easy-rules. The engine holds a
collection of rules, each with a name and an integer priority, plus two
scalars fixed at construction: `skipOnFirstAppliedRule` and
`rulePriorityThreshold`.

`fireRules` warns and returns when the collection is empty. Otherwise it runs
`applyRules`, which walks the collection in iteration order and does the
following for each rule:

- A rule whose priority exceeds the threshold ends the pass before its
  condition is evaluated.
- Otherwise the rule's condition is evaluated. When the condition holds, the
  rule's actions are performed inside a try/catch.
- An action that throws an `Exception` is logged, and the loop moves on to
  the next rule.
- An action that completes ends the pass in skip mode.
- A condition that throws is not caught, so the exception leaves the pass and
  `fireRules`.
- The try/catch around the actions catches `Exception` only
  (DefaultRulesEngine.java:120). An `Error` thrown by the actions, such as an
  `AssertionError`, is not caught either, and it also leaves the pass and
  `fireRules`.

The model has three parts:

- `FiringPass` (firing_pass.dfy) is the reference definition of a pass, as
  functions over values.
  - A rule is `Rule(name, priority)`. Priorities and the threshold are Java
    `int`s (`Int32`).
  - The user code behind a rule's condition and actions is given as data.
    `behaviours[i]` says whether the i-th rule's condition holds, does not
    hold or throws. It also says whether the rule's actions complete, throw
    an `Exception`, or throw an `Error`.
  - The log lines of a pass are abstracted as a trace of events: `Evaluated`,
    `Performed`, `Failed`, `ThresholdStop` and `SkipStop`, each carrying the
    rule's position.
  - How the pass ended is an `Exit`: `NoRulesRegistered`, `Exhausted`,
    `ThresholdExceeded`, `SkippedAfterSuccess`, `ConditionRaised` or
    `ActionRaised`. The last two are abrupt completions: a throwing
    condition, and actions that throw an `Error`.
- `Engine` (engine.dfy) is the class `DefaultRulesEngine`.
  - Its fields are the ones the constructors assign.
  - It has the four constructors.
  - `FireRules` and `ApplyRules` are methods. `ApplyRules` is a loop with the
    source's two `break`s and the two exceptions that propagate. Each method
    is proved equal to the reference definition.
  - Neither method has a `modifies` clause. So a pass provably changes
    neither the configuration nor the collection.
- `PassProperties` (pass_properties.dfy) proves what a pass guarantees, for
  every collection, configuration and behaviour of the user code.
  `Scenarios` (scenarios.dfy) works through a few small collections.

## Model

| member | source | states |
|---|---|---|
| FiringPass.VisitRule | easyrules-core/src/main/java/org/easyrules/core/DefaultRulesEngine.java:99-123 | one iteration for rule i: its first event is the threshold stop when the priority exceeds the threshold and the evaluation of its condition otherwise; every event concerns rule i; an iteration that ends the pass ends it at rule i |
| FiringPass.PassFrom | easyrules-core/src/main/java/org/easyrules/core/DefaultRulesEngine.java:97-125 | the pass from rule i onward never reports an empty collection, and any stop it reports is at a rule from i to the end of the collection |
| FiringPass.Pass | easyrules-core/src/main/java/org/easyrules/core/DefaultRulesEngine.java:95-127 | a pass over the whole collection never reports an empty collection, and any stop it reports names a rule of the collection |
| FiringPass.Fire | easyrules-core/src/main/java/org/easyrules/core/DefaultRulesEngine.java:82-93 | a firing reports NoRulesRegistered exactly when the collection is empty, and then records no events |
| Engine.DefaultRulesEngine.constructor | easyrules-core/src/main/java/org/easyrules/core/DefaultRulesEngine.java:75-79 | a new engine has an empty collection and exactly the given skip flag and threshold |
| Engine.DefaultRulesEngine.Default | easyrules-core/src/main/java/org/easyrules/core/DefaultRulesEngine.java:50-52 | a new engine has an empty collection, skip mode off and the default threshold |
| Engine.DefaultRulesEngine.WithSkip | easyrules-core/src/main/java/org/easyrules/core/DefaultRulesEngine.java:58-60 | a new engine has an empty collection, the given skip flag and the default threshold |
| Engine.DefaultRulesEngine.WithThreshold | easyrules-core/src/main/java/org/easyrules/core/DefaultRulesEngine.java:66-68 | a new engine has an empty collection, skip mode off and the given threshold |
| Engine.DefaultRulesEngine.FireRules | easyrules-core/src/main/java/org/easyrules/core/DefaultRulesEngine.java:82-93 | an empty collection yields no events and the exit NoRulesRegistered; otherwise the result is the pass over the collection, which never reports NoRulesRegistered; the engine's state is unchanged |
| Engine.DefaultRulesEngine.ApplyRules | easyrules-core/src/main/java/org/easyrules/core/DefaultRulesEngine.java:95-127 | the loop's trace and exit equal the reference pass `Pass` over the engine's collection and configuration, including both breaks and the two exceptions that propagate |
| PassProperties.VisitsRulesInCollectionOrder | easyrules-core/src/main/java/org/easyrules/core/DefaultRulesEngine.java:97-125 | every event names a rule of the collection, and the positions named by the trace never decrease |
| PassProperties.EvaluatedRulesFormPrefix | easyrules-core/src/main/java/org/easyrules/core/DefaultRulesEngine.java:97-125 | the evaluated conditions are those of rules 0, 1, …, n-1 in that order, each once; n is fixed by the exit: all rules when exhausted, the stopping rule excluded at the threshold and included otherwise |
| PassProperties.PassEndsAtFirstStop | easyrules-core/src/main/java/org/easyrules/core/DefaultRulesEngine.java:97-125 | the pass exhausts the collection iff no rule ends it (over the threshold, throwing condition, actions throwing an Error, completed actions in skip mode); otherwise it ends at the first rule that does, with the exit that rule's reason gives |
| PassProperties.ThresholdStopsPass | easyrules-core/src/main/java/org/easyrules/core/DefaultRulesEngine.java:101-107 | no rule above the threshold is evaluated or acted on; a threshold stop is the last event; the pass stops at the first rule above the threshold |
| PassProperties.SortedPassEvaluatesRulesWithinThreshold | easyrules-core/src/main/java/org/easyrules/core/DefaultRulesEngine.java:101-107 | for a collection sorted by priority, a pass that neither skipped nor aborted evaluates a rule's condition iff its priority is within the threshold |
| PassProperties.ActionsFollowTrueConditions | easyrules-core/src/main/java/org/easyrules/core/DefaultRulesEngine.java:109-122 | actions run only right after their own rule's condition evaluated to true; they are recorded as performed only when they complete and as failed only when they throw an Exception; every true condition whose actions do not throw an Error is followed by its rule's actions |
| PassProperties.SkipModeAppliesAtMostOneRule | easyrules-core/src/main/java/org/easyrules/core/DefaultRulesEngine.java:113-119 | in skip mode at most one action completes, and it is followed only by the skip stop, which ends the pass |
| PassProperties.FailedActionDoesNotEndPass | easyrules-core/src/main/java/org/easyrules/core/DefaultRulesEngine.java:112-122 | after an action that threw an Exception the next rule is considered, or the pass ends normally after the last rule; a pass aborts only on a throwing condition or on actions that throw an Error |
| PassProperties.ConditionFailureAbortsPass | easyrules-core/src/main/java/org/easyrules/core/DefaultRulesEngine.java:109-122 | an evaluation of a throwing condition is the last event and the pass exits with ConditionRaised; no later rule is looked at |
| PassProperties.ActionErrorAbortsPass | easyrules-core/src/main/java/org/easyrules/core/DefaultRulesEngine.java:112-122 | the evaluation of a true condition whose actions throw an Error is the last event, and the exit is ActionRaised; no later rule is looked at |
| PassProperties.UnstoppedPassEvaluatesEveryRule | easyrules-core/src/main/java/org/easyrules/core/DefaultRulesEngine.java:97-125 | when no rule exceeds the threshold, has a throwing condition, has actions that throw an Error, or completes its actions in skip mode, the pass is exhausted and evaluates every condition exactly once, in order |
| Scenarios.ThresholdScenario | easyrules-core/src/main/java/org/easyrules/core/DefaultRulesEngine.java:101-107 | priorities 1, 3, 5, 10 with threshold 5: three conditions are evaluated, and the pass stops at the fourth rule |
| Scenarios.EmptyScenario | easyrules-core/src/main/java/org/easyrules/core/DefaultRulesEngine.java:84-87 | firing an empty collection yields no events |
| Scenarios.SkipScenario | easyrules-core/src/main/java/org/easyrules/core/DefaultRulesEngine.java:116-119 | in skip mode with two applicable rules, only the first rule's condition and actions run |
| Scenarios.ActionFailureScenario | easyrules-core/src/main/java/org/easyrules/core/DefaultRulesEngine.java:112-122 | an Exception from the middle rule's actions does not stop the third rule from being applied |
| Scenarios.ConditionFailureScenario | easyrules-core/src/main/java/org/easyrules/core/DefaultRulesEngine.java:109 | a throwing first condition aborts the pass before the second condition |
| Scenarios.ActionErrorScenario | easyrules-core/src/main/java/org/easyrules/core/DefaultRulesEngine.java:112-122 | an Error from the first rule's actions aborts the pass before the second condition |

## Left out

- Logging is not modelled. The `java.util.logging` calls and `logEngineParameters` become abstract trace events, and the warning for an empty collection and the log texts are not modelled.
- The ordering of the collection is not modelled. The `TreeSet` order comes from `Rule.compareTo`, which is not part of this model. The collection is a sequence in iteration order, and being sorted by priority is a precondition of `SortedPassEvaluatesRulesWithinThreshold` only.
- Rule registration and removal are not modelled. `AbstractRulesEngine` is not part of this model, so `rules` is a field that callers assign directly.
- The bodies of `evaluateConditions` and `performActions` are user code behind the `Rule` interface. They are given as per-rule outcomes: whether the condition holds, does not hold or throws, and whether the actions complete. This assumes the user code's outcome for a rule does not depend on what earlier rules did in the same pass.
- The value of `DEFAULT_RULE_PRIORITY_THRESHOLD` is not modelled. `EasyRulesConstants` is not part of this model, so `DefaultRulePriorityThreshold` is an unspecified `Int32`.
- The exception objects are not modelled. Only two things are kept: whether an action's throwable is an `Exception` (caught) or an `Error` (not caught), and the position of the failing rule. Messages and causes are dropped.
- Concurrent use of an engine, and changes to the collection during a pass, are not modelled.
- Repeated firings of an unchanged engine are not modelled. A pass is a function of the collection, the configuration and the user code's outcomes, so two firings with the same outcomes are equal by construction.
