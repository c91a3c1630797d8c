/** What a firing pass guarantees, proved about the functions of FiringPass
    for every rule collection, configuration and behaviour of the user code.
    Each property is first proved for the pass from an arbitrary position `i`
    (by induction on the rules still to visit) and then stated for the whole pass. */
module PassProperties {
  import opened FiringPass

  /** The positions whose condition a trace shows evaluated, in trace order. */
  function Evaluations(t: seq<Event>): seq<nat>
  {
    if t == [] then []
    else (if t[0].Evaluated? then [t[0].at] else []) + Evaluations(t[1..])
  }

  lemma {:induction false} EvaluationsAppend(a: seq<Event>, b: seq<Event>)
    ensures Evaluations(a + b) == Evaluations(a) + Evaluations(b)
  {
    if a == [] {
      assert a + b == b;
    } else {
      var ab := a + b;
      assert ab[0] == a[0] && ab[1..] == a[1..] + b;
      EvaluationsAppend(a[1..], b);
      var head: seq<nat> := if a[0].Evaluated? then [a[0].at] else [];
      calc {
        Evaluations(ab);
        head + Evaluations(a[1..] + b);
        head + (Evaluations(a[1..]) + Evaluations(b));
        (head + Evaluations(a[1..])) + Evaluations(b);
      }
    }
  }

  /** Rule `j` ends the pass: it exceeds the threshold, its condition throws,
      its condition holds and its actions throw an Error, or, in skip mode,
      its condition holds and its actions complete. */
  predicate Stops(rules: seq<Rule>, cfg: Config, behaviours: seq<Behaviour>, j: nat)
    requires |behaviours| == |rules| && j < |rules|
  {
    || rules[j].priority > cfg.rulePriorityThreshold
    || behaviours[j].condition == Raises
    || (behaviours[j].condition == Holds && behaviours[j].action == ThrowsError)
    || (cfg.skipOnFirstAppliedRule && behaviours[j].condition == Holds && behaviours[j].action == Completes)
  }

  /** The exit of a pass that ends at rule `j`; the threshold is checked first. */
  function StopExit(rules: seq<Rule>, cfg: Config, behaviours: seq<Behaviour>, j: nat): Exit
    requires |behaviours| == |rules| && j < |rules|
  {
    if rules[j].priority > cfg.rulePriorityThreshold then ThresholdExceeded(j)
    else if behaviours[j].condition == Raises then ConditionRaised(j)
    else if behaviours[j].action == ThrowsError then ActionRaised(j)
    else SkippedAfterSuccess(j)
  }

  /** How many conditions a pass that started at `i` and ended with `exit` evaluated. */
  function EvaluatedCount(i: nat, exit: Exit, n: nat): int
  {
    match exit
    case NoRulesRegistered => 0
    case Exhausted => n - i
    case ThresholdExceeded(k) => k - i
    case SkippedAfterSuccess(k) => k + 1 - i
    case ConditionRaised(k) => k + 1 - i
    case ActionRaised(k) => k + 1 - i
  }

  /** One iteration ends the pass exactly when rule `i` Stops, and then with StopExit. */
  lemma VisitStops(rules: seq<Rule>, cfg: Config, behaviours: seq<Behaviour>, i: nat)
    requires |behaviours| == |rules| && i < |rules|
    ensures var v := VisitRule(rules[i], cfg, behaviours[i], i);
      && (v.Stop? <==> Stops(rules, cfg, behaviours, i))
      && (v.Stop? ==> v.exit == StopExit(rules, cfg, behaviours, i))
  {
  }

  /** One iteration evaluates the condition of rule `i` unless the threshold stops it. */
  lemma VisitEvaluations(rules: seq<Rule>, cfg: Config, behaviours: seq<Behaviour>, i: nat)
    requires |behaviours| == |rules| && i < |rules|
    ensures Evaluations(VisitRule(rules[i], cfg, behaviours[i], i).steps)
         == if rules[i].priority > cfg.rulePriorityThreshold then [] else [i]
  {
    var s := VisitRule(rules[i], cfg, behaviours[i], i).steps;
    assert Evaluations([]) == [];
    if |s| == 1 {
      assert s[1..] == [];
    } else if |s| == 2 {
      assert s[1..][1..] == [];
      assert Evaluations(s[1..]) == [];
    } else {
      assert s[1..][1..][1..] == [];
      assert Evaluations(s[1..][1..]) == [];
      assert Evaluations(s[1..]) == [];
    }
  }

  /** An iteration that does not end the pass has one of three forms. */
  lemma ContinueShape(rules: seq<Rule>, cfg: Config, behaviours: seq<Behaviour>, i: nat)
    requires |behaviours| == |rules| && i < |rules|
    requires VisitRule(rules[i], cfg, behaviours[i], i).Continue?
    ensures var s := VisitRule(rules[i], cfg, behaviours[i], i).steps;
      && rules[i].priority <= cfg.rulePriorityThreshold
      && ((s == [Evaluated(i)] && behaviours[i].condition == DoesNotHold)
       || (s == [Evaluated(i), Failed(i)] && behaviours[i].condition == Holds && behaviours[i].action == ThrowsException)
       || (s == [Evaluated(i), Performed(i)] && behaviours[i].condition == Holds && behaviours[i].action == Completes))
  {
  }

  /** An iteration that ends the pass has one of four forms. */
  lemma StopShape(rules: seq<Rule>, cfg: Config, behaviours: seq<Behaviour>, i: nat)
    requires |behaviours| == |rules| && i < |rules|
    requires VisitRule(rules[i], cfg, behaviours[i], i).Stop?
    ensures var v := VisitRule(rules[i], cfg, behaviours[i], i);
      || (v == Stop([ThresholdStop(i)], ThresholdExceeded(i))
          && rules[i].priority > cfg.rulePriorityThreshold)
      || (v == Stop([Evaluated(i)], ConditionRaised(i))
          && rules[i].priority <= cfg.rulePriorityThreshold && behaviours[i].condition == Raises)
      || (v == Stop([Evaluated(i)], ActionRaised(i))
          && rules[i].priority <= cfg.rulePriorityThreshold && behaviours[i].condition == Holds
          && behaviours[i].action == ThrowsError)
      || (v == Stop([Evaluated(i), Performed(i), SkipStop(i)], SkippedAfterSuccess(i))
          && rules[i].priority <= cfg.rulePriorityThreshold && behaviours[i].condition == Holds
          && behaviours[i].action == Completes && cfg.skipOnFirstAppliedRule)
  {
  }

  // ---------------------------------------------------------------------
  // Properties of the pass from position i

  lemma {:induction false} EventsInRange(rules: seq<Rule>, cfg: Config, behaviours: seq<Behaviour>, i: nat)
    requires |behaviours| == |rules| && i <= |rules|
    ensures var t := PassFrom(rules, cfg, behaviours, i).trace;
      forall p :: 0 <= p < |t| ==> i <= t[p].at < |rules|
    decreases |rules| - i
  {
    if i < |rules| {
      PassFromUnfold(rules, cfg, behaviours, i);
      if VisitRule(rules[i], cfg, behaviours[i], i).Continue? {
        EventsInRange(rules, cfg, behaviours, i + 1);
      }
    }
  }

  /** The pass from `i` begins with rule `i`: its threshold check or its condition. */
  lemma FirstEventFrom(rules: seq<Rule>, cfg: Config, behaviours: seq<Behaviour>, i: nat)
    requires |behaviours| == |rules| && i <= |rules|
    ensures var r := PassFrom(rules, cfg, behaviours, i);
      if i == |rules| then r == Run([], Exhausted)
      else r.trace != [] && r.trace[0].at == i && (r.trace[0].Evaluated? || r.trace[0].ThresholdStop?)
  {
    if i < |rules| {
      PassFromUnfold(rules, cfg, behaviours, i);
    }
  }

  lemma {:induction false} OrderedFrom(rules: seq<Rule>, cfg: Config, behaviours: seq<Behaviour>, i: nat)
    requires |behaviours| == |rules| && i <= |rules|
    ensures var t := PassFrom(rules, cfg, behaviours, i).trace;
      forall p, q :: 0 <= p < q < |t| ==> t[p].at <= t[q].at
    decreases |rules| - i
  {
    if i < |rules| {
      PassFromUnfold(rules, cfg, behaviours, i);
      var v := VisitRule(rules[i], cfg, behaviours[i], i);
      if v.Continue? {
        var rest := PassFrom(rules, cfg, behaviours, i + 1).trace;
        OrderedFrom(rules, cfg, behaviours, i + 1);
        EventsInRange(rules, cfg, behaviours, i + 1);
        var t := v.steps + rest;
        forall p, q | 0 <= p < q < |t| ensures t[p].at <= t[q].at {
          if q < |v.steps| {
          } else if p < |v.steps| {
            assert t[q] == rest[q - |v.steps|];
          } else {
            assert t[p] == rest[p - |v.steps|] && t[q] == rest[q - |v.steps|];
          }
        }
      }
    }
  }

  lemma {:induction false} EvaluationsFrom(rules: seq<Rule>, cfg: Config, behaviours: seq<Behaviour>, i: nat)
    requires |behaviours| == |rules| && i <= |rules|
    ensures var r := PassFrom(rules, cfg, behaviours, i);
      var e := Evaluations(r.trace);
      && |e| == EvaluatedCount(i, r.exit, |rules|)
      && forall j :: 0 <= j < |e| ==> e[j] == i + j
    decreases |rules| - i
  {
    if i < |rules| {
      PassFromUnfold(rules, cfg, behaviours, i);
      VisitEvaluations(rules, cfg, behaviours, i);
      var v := VisitRule(rules[i], cfg, behaviours[i], i);
      if v.Stop? {
        VisitStops(rules, cfg, behaviours, i);
      } else {
        var rest := PassFrom(rules, cfg, behaviours, i + 1);
        EvaluationsFrom(rules, cfg, behaviours, i + 1);
        ContinueShape(rules, cfg, behaviours, i);
        EvaluationsAppend(v.steps, rest.trace);
        var tail := Evaluations(rest.trace);
        var e := [i] + tail;
        assert Evaluations(PassFrom(rules, cfg, behaviours, i).trace) == e;
        forall j | 0 <= j < |e| ensures e[j] == i + j {
          if j > 0 {
            assert e[j] == tail[j - 1];
          }
        }
      }
    } else {
      assert PassFrom(rules, cfg, behaviours, i) == Run([], Exhausted);
    }
  }

  lemma {:induction false} FirstStopFrom(rules: seq<Rule>, cfg: Config, behaviours: seq<Behaviour>, i: nat)
    requires |behaviours| == |rules| && i <= |rules|
    ensures var exit := PassFrom(rules, cfg, behaviours, i).exit;
      && (exit.Exhausted? <==> forall j :: i <= j < |rules| ==> !Stops(rules, cfg, behaviours, j))
      && (!exit.Exhausted? ==>
            && Stops(rules, cfg, behaviours, exit.at)
            && exit == StopExit(rules, cfg, behaviours, exit.at)
            && forall j :: i <= j < exit.at ==> !Stops(rules, cfg, behaviours, j))
    decreases |rules| - i
  {
    if i < |rules| {
      PassFromUnfold(rules, cfg, behaviours, i);
      VisitStops(rules, cfg, behaviours, i);
      if VisitRule(rules[i], cfg, behaviours[i], i).Continue? {
        FirstStopFrom(rules, cfg, behaviours, i + 1);
      }
    }
  }

  lemma {:induction false} ThresholdFrom(rules: seq<Rule>, cfg: Config, behaviours: seq<Behaviour>, i: nat)
    requires |behaviours| == |rules| && i <= |rules|
    ensures var r := PassFrom(rules, cfg, behaviours, i);
      var t := r.trace;
      && (forall p :: 0 <= p < |t| && !t[p].ThresholdStop? ==>
            t[p].at < |rules| && rules[t[p].at].priority <= cfg.rulePriorityThreshold)
      && (forall p :: 0 <= p < |t| && t[p].ThresholdStop? ==>
            p == |t| - 1 && r.exit == ThresholdExceeded(t[p].at))
    decreases |rules| - i
  {
    if i < |rules| {
      PassFromUnfold(rules, cfg, behaviours, i);
      var v := VisitRule(rules[i], cfg, behaviours[i], i);
      if v.Continue? {
        ContinueShape(rules, cfg, behaviours, i);
        var next := PassFrom(rules, cfg, behaviours, i + 1);
        var rest := next.trace;
        ThresholdFrom(rules, cfg, behaviours, i + 1);
        var s := v.steps;
        var t := s + rest;
        forall p | 0 <= p < |t| && !t[p].ThresholdStop?
          ensures t[p].at < |rules| && rules[t[p].at].priority <= cfg.rulePriorityThreshold
        {
          if p >= |s| {
            assert t[p] == rest[p - |s|];
          }
        }
        forall p | 0 <= p < |t| && t[p].ThresholdStop?
          ensures p == |t| - 1 && next.exit == ThresholdExceeded(t[p].at)
        {
          assert p >= |s|;
          assert t[p] == rest[p - |s|];
        }
      } else {
        StopShape(rules, cfg, behaviours, i);
      }
    }
  }

  lemma {:induction false} ActionsFrom(rules: seq<Rule>, cfg: Config, behaviours: seq<Behaviour>, i: nat)
    requires |behaviours| == |rules| && i <= |rules|
    ensures var t := PassFrom(rules, cfg, behaviours, i).trace;
      forall p :: 0 <= p < |t| && (t[p].Performed? || t[p].Failed?) ==>
        && 0 < p && t[p - 1] == Evaluated(t[p].at) && t[p].at < |rules|
        && behaviours[t[p].at].condition == Holds
        && (t[p].Performed? ==> behaviours[t[p].at].action == Completes)
        && (t[p].Failed? ==> behaviours[t[p].at].action == ThrowsException)
    decreases |rules| - i
  {
    if i < |rules| {
      PassFromUnfold(rules, cfg, behaviours, i);
      var v := VisitRule(rules[i], cfg, behaviours[i], i);
      if v.Continue? {
        var rest := PassFrom(rules, cfg, behaviours, i + 1).trace;
        ActionsFrom(rules, cfg, behaviours, i + 1);
        ContinueShape(rules, cfg, behaviours, i);
        var s := v.steps;
        var t := s + rest;
        forall p | 0 <= p < |t| && (t[p].Performed? || t[p].Failed?)
          ensures 0 < p && t[p - 1] == Evaluated(t[p].at) && t[p].at < |rules|
          ensures behaviours[t[p].at].condition == Holds
          ensures t[p].Performed? ==> behaviours[t[p].at].action == Completes
          ensures t[p].Failed? ==> behaviours[t[p].at].action == ThrowsException
        {
          if p >= |s| {
            assert t[p] == rest[p - |s|];
            assert t[p - 1] == rest[p - 1 - |s|];
          }
        }
      } else {
        StopShape(rules, cfg, behaviours, i);
      }
    }
  }

  lemma {:induction false} ConditionsFrom(rules: seq<Rule>, cfg: Config, behaviours: seq<Behaviour>, i: nat)
    requires |behaviours| == |rules| && i <= |rules|
    ensures var t := PassFrom(rules, cfg, behaviours, i).trace;
      forall p :: 0 <= p < |t| && t[p].Evaluated? && t[p].at < |rules|
                  && behaviours[t[p].at].condition == Holds && behaviours[t[p].at].action != ThrowsError ==>
        && p + 1 < |t| && t[p + 1].at == t[p].at
        && (t[p + 1].Performed? || t[p + 1].Failed?)
    decreases |rules| - i
  {
    if i < |rules| {
      PassFromUnfold(rules, cfg, behaviours, i);
      var v := VisitRule(rules[i], cfg, behaviours[i], i);
      if v.Continue? {
        var rest := PassFrom(rules, cfg, behaviours, i + 1).trace;
        ConditionsFrom(rules, cfg, behaviours, i + 1);
        ContinueShape(rules, cfg, behaviours, i);
        var s := v.steps;
        var t := s + rest;
        forall p | 0 <= p < |t| && t[p].Evaluated? && t[p].at < |rules| && behaviours[t[p].at].condition == Holds
                   && behaviours[t[p].at].action != ThrowsError
          ensures p + 1 < |t| && t[p + 1].at == t[p].at && (t[p + 1].Performed? || t[p + 1].Failed?)
        {
          if p >= |s| {
            assert t[p] == rest[p - |s|];
            assert t[p + 1] == rest[p + 1 - |s|];
          }
        }
      } else {
        StopShape(rules, cfg, behaviours, i);
      }
    }
  }

  lemma {:induction false} SkipFrom(rules: seq<Rule>, cfg: Config, behaviours: seq<Behaviour>, i: nat)
    requires |behaviours| == |rules| && i <= |rules|
    requires cfg.skipOnFirstAppliedRule
    ensures var r := PassFrom(rules, cfg, behaviours, i);
      var t := r.trace;
      forall p :: 0 <= p < |t| && t[p].Performed? ==>
        p == |t| - 2 && t[p + 1] == SkipStop(t[p].at) && r.exit == SkippedAfterSuccess(t[p].at)
    decreases |rules| - i
  {
    if i < |rules| {
      PassFromUnfold(rules, cfg, behaviours, i);
      var v := VisitRule(rules[i], cfg, behaviours[i], i);
      if v.Continue? {
        var rest := PassFrom(rules, cfg, behaviours, i + 1).trace;
        SkipFrom(rules, cfg, behaviours, i + 1);
        var t := v.steps + rest;
        forall p | 0 <= p < |t| && p >= |v.steps| ensures t[p] == rest[p - |v.steps|] { }
      } else {
        StopShape(rules, cfg, behaviours, i);
      }
    }
  }

  lemma {:induction false} FailureFrom(rules: seq<Rule>, cfg: Config, behaviours: seq<Behaviour>, i: nat)
    requires |behaviours| == |rules| && i <= |rules|
    ensures var r := PassFrom(rules, cfg, behaviours, i);
      var t := r.trace;
      forall p :: 0 <= p < |t| && t[p].Failed? ==>
        if t[p].at + 1 < |rules| then
          p + 1 < |t| && t[p + 1].at == t[p].at + 1 && (t[p + 1].Evaluated? || t[p + 1].ThresholdStop?)
        else
          p + 1 == |t| && r.exit == Exhausted
    decreases |rules| - i
  {
    if i < |rules| {
      PassFromUnfold(rules, cfg, behaviours, i);
      var v := VisitRule(rules[i], cfg, behaviours[i], i);
      if v.Continue? {
        ContinueShape(rules, cfg, behaviours, i);
        var next := PassFrom(rules, cfg, behaviours, i + 1);
        var rest := next.trace;
        FailureFrom(rules, cfg, behaviours, i + 1);
        FirstEventFrom(rules, cfg, behaviours, i + 1);
        var s := v.steps;
        var t := s + rest;
        forall p | |s| <= p < |t| && t[p].Failed?
          ensures if t[p].at + 1 < |rules| then
                    p + 1 < |t| && t[p + 1].at == t[p].at + 1 && (t[p + 1].Evaluated? || t[p + 1].ThresholdStop?)
                  else
                    p + 1 == |t| && next.exit == Exhausted
        {
          assert t[p] == rest[p - |s|];
          if p + 1 < |t| {
            assert t[p + 1] == rest[p + 1 - |s|];
          }
        }
        forall p | 0 <= p < |s| && t[p].Failed?
          ensures if t[p].at + 1 < |rules| then
                    p + 1 < |t| && t[p + 1].at == t[p].at + 1 && (t[p + 1].Evaluated? || t[p + 1].ThresholdStop?)
                  else
                    p + 1 == |t| && next.exit == Exhausted
        {
          assert t[p] == s[p];
          assert p == 1 && t[p] == Failed(i) && s == [Evaluated(i), Failed(i)];
          if i + 1 < |rules| {
            assert rest != [] && t[p + 1] == rest[0];
          } else {
            assert next == Run([], Exhausted) && |t| == 2;
          }
        }
      } else {
        StopShape(rules, cfg, behaviours, i);
      }
    }
  }

  lemma {:induction false} RaiseFrom(rules: seq<Rule>, cfg: Config, behaviours: seq<Behaviour>, i: nat)
    requires |behaviours| == |rules| && i <= |rules|
    ensures var r := PassFrom(rules, cfg, behaviours, i);
      var t := r.trace;
      forall p :: 0 <= p < |t| && t[p].Evaluated? && t[p].at < |rules|
                  && behaviours[t[p].at].condition == Raises ==>
        p == |t| - 1 && r.exit == ConditionRaised(t[p].at)
    decreases |rules| - i
  {
    if i < |rules| {
      PassFromUnfold(rules, cfg, behaviours, i);
      var v := VisitRule(rules[i], cfg, behaviours[i], i);
      if v.Continue? {
        var rest := PassFrom(rules, cfg, behaviours, i + 1).trace;
        ContinueShape(rules, cfg, behaviours, i);
        RaiseFrom(rules, cfg, behaviours, i + 1);
        var t := v.steps + rest;
        forall p | 0 <= p < |t| && p >= |v.steps| ensures t[p] == rest[p - |v.steps|] { }
      } else {
        StopShape(rules, cfg, behaviours, i);
      }
    }
  }

  lemma {:induction false} ActionErrorFrom(rules: seq<Rule>, cfg: Config, behaviours: seq<Behaviour>, i: nat)
    requires |behaviours| == |rules| && i <= |rules|
    ensures var r := PassFrom(rules, cfg, behaviours, i);
      var t := r.trace;
      forall p :: 0 <= p < |t| && t[p].Evaluated? && t[p].at < |rules|
                  && behaviours[t[p].at].condition == Holds && behaviours[t[p].at].action == ThrowsError ==>
        p == |t| - 1 && r.exit == ActionRaised(t[p].at)
    decreases |rules| - i
  {
    if i < |rules| {
      PassFromUnfold(rules, cfg, behaviours, i);
      var v := VisitRule(rules[i], cfg, behaviours[i], i);
      if v.Continue? {
        var rest := PassFrom(rules, cfg, behaviours, i + 1).trace;
        ContinueShape(rules, cfg, behaviours, i);
        ActionErrorFrom(rules, cfg, behaviours, i + 1);
        var t := v.steps + rest;
        forall p | 0 <= p < |t| && p >= |v.steps| ensures t[p] == rest[p - |v.steps|] { }
      } else {
        StopShape(rules, cfg, behaviours, i);
      }
    }
  }

  lemma {:induction false} LastEventFrom(rules: seq<Rule>, cfg: Config, behaviours: seq<Behaviour>, i: nat)
    requires |behaviours| == |rules| && i <= |rules|
    ensures var r := PassFrom(rules, cfg, behaviours, i);
      var t := r.trace;
      && (r.exit.ThresholdExceeded? ==> t != [] && t[|t| - 1] == ThresholdStop(r.exit.at))
      && (r.exit.ConditionRaised? ==> t != [] && t[|t| - 1] == Evaluated(r.exit.at))
      && (r.exit.ActionRaised? ==> t != [] && t[|t| - 1] == Evaluated(r.exit.at))
      && (r.exit.SkippedAfterSuccess? ==> t != [] && t[|t| - 1] == SkipStop(r.exit.at))
    decreases |rules| - i
  {
    if i < |rules| {
      PassFromUnfold(rules, cfg, behaviours, i);
      var v := VisitRule(rules[i], cfg, behaviours[i], i);
      if v.Continue? {
        var rest := PassFrom(rules, cfg, behaviours, i + 1).trace;
        LastEventFrom(rules, cfg, behaviours, i + 1);
        var t := v.steps + rest;
        if rest != [] {
          assert t[|t| - 1] == rest[|rest| - 1];
        }
      } else {
        StopShape(rules, cfg, behaviours, i);
      }
    }
  }

  // ---------------------------------------------------------------------
  // Properties of a whole pass

  /** The collection is in ascending priority order. */
  predicate SortedByPriority(rules: seq<Rule>)
  {
    forall a, b :: 0 <= a < b < |rules| ==> rules[a].priority <= rules[b].priority
  }

  /** Rules are visited in collection order: the positions named by the trace never go back. */
  lemma VisitsRulesInCollectionOrder(rules: seq<Rule>, cfg: Config, behaviours: seq<Behaviour>)
    requires |behaviours| == |rules|
    ensures var t := Pass(rules, cfg, behaviours).trace;
      && (forall p :: 0 <= p < |t| ==> t[p].at < |rules|)
      && (forall p, q :: 0 <= p < q < |t| ==> t[p].at <= t[q].at)
  {
    assert Pass(rules, cfg, behaviours) == PassFrom(rules, cfg, behaviours, 0);
    EventsInRange(rules, cfg, behaviours, 0);
    OrderedFrom(rules, cfg, behaviours, 0);
  }

  /** The conditions evaluated are those of a prefix of the collection, each once,
      in order; the prefix's length is fixed by how the pass ended. */
  lemma EvaluatedRulesFormPrefix(rules: seq<Rule>, cfg: Config, behaviours: seq<Behaviour>)
    requires |behaviours| == |rules|
    ensures var r := Pass(rules, cfg, behaviours);
      var e := Evaluations(r.trace);
      && |e| <= |rules|
      && |e| == EvaluatedCount(0, r.exit, |rules|)
      && (forall j :: 0 <= j < |e| ==> e[j] == j)
      && (forall a, b :: 0 <= a < b < |e| ==> e[a] != e[b])
  {
    assert Pass(rules, cfg, behaviours) == PassFrom(rules, cfg, behaviours, 0);
    EvaluationsFrom(rules, cfg, behaviours, 0);
  }

  /** The pass ends at the first rule that Stops, in the way StopExit gives,
      and runs to the end of the collection exactly when no rule Stops. */
  lemma PassEndsAtFirstStop(rules: seq<Rule>, cfg: Config, behaviours: seq<Behaviour>)
    requires |behaviours| == |rules|
    ensures var exit := Pass(rules, cfg, behaviours).exit;
      && (exit.Exhausted? <==> forall j :: 0 <= j < |rules| ==> !Stops(rules, cfg, behaviours, j))
      && (!exit.Exhausted? ==>
            && exit.at < |rules|
            && Stops(rules, cfg, behaviours, exit.at)
            && exit == StopExit(rules, cfg, behaviours, exit.at)
            && forall j :: 0 <= j < exit.at ==> !Stops(rules, cfg, behaviours, j))
  {
    assert Pass(rules, cfg, behaviours) == PassFrom(rules, cfg, behaviours, 0);
    FirstStopFrom(rules, cfg, behaviours, 0);
  }

  /** No rule above the threshold has its condition evaluated or its actions
      performed; the pass stops at the first such rule and records nothing after it. */
  lemma ThresholdStopsPass(rules: seq<Rule>, cfg: Config, behaviours: seq<Behaviour>)
    requires |behaviours| == |rules|
    ensures var r := Pass(rules, cfg, behaviours);
      var t := r.trace;
      && (forall p :: 0 <= p < |t| && !t[p].ThresholdStop? ==>
            t[p].at < |rules| && rules[t[p].at].priority <= cfg.rulePriorityThreshold)
      && (forall p :: 0 <= p < |t| && t[p].ThresholdStop? ==>
            p == |t| - 1 && r.exit == ThresholdExceeded(t[p].at))
      && (r.exit.ThresholdExceeded? ==>
            && r.exit.at < |rules|
            && rules[r.exit.at].priority > cfg.rulePriorityThreshold
            && forall j :: 0 <= j < r.exit.at ==> rules[j].priority <= cfg.rulePriorityThreshold)
  {
    assert Pass(rules, cfg, behaviours) == PassFrom(rules, cfg, behaviours, 0);
    ThresholdFrom(rules, cfg, behaviours, 0);
    FirstStopFrom(rules, cfg, behaviours, 0);
    var exit := Pass(rules, cfg, behaviours).exit;
    if exit.ThresholdExceeded? {
      forall j | 0 <= j < exit.at ensures rules[j].priority <= cfg.rulePriorityThreshold {
        assert !Stops(rules, cfg, behaviours, j);
      }
    }
  }

  /** With the collection sorted by priority, a pass that neither skipped nor
      aborted evaluated the condition of exactly the rules within the threshold. */
  lemma SortedPassEvaluatesRulesWithinThreshold(rules: seq<Rule>, cfg: Config, behaviours: seq<Behaviour>)
    requires |behaviours| == |rules|
    requires SortedByPriority(rules)
    ensures var r := Pass(rules, cfg, behaviours);
      r.exit.Exhausted? || r.exit.ThresholdExceeded? ==>
        forall j :: 0 <= j < |rules| ==>
          (j in Evaluations(r.trace) <==> rules[j].priority <= cfg.rulePriorityThreshold)
  {
    assert Pass(rules, cfg, behaviours) == PassFrom(rules, cfg, behaviours, 0);
    var r := Pass(rules, cfg, behaviours);
    var e := Evaluations(r.trace);
    EvaluationsFrom(rules, cfg, behaviours, 0);
    FirstStopFrom(rules, cfg, behaviours, 0);
    if r.exit.Exhausted? || r.exit.ThresholdExceeded? {
      var n := |e|;
      forall j | 0 <= j < |rules|
        ensures j in e <==> rules[j].priority <= cfg.rulePriorityThreshold
      {
        if j < n {
          assert e[j] == j;
          assert !Stops(rules, cfg, behaviours, j);
        } else {
          assert j !in e by {
            forall a | 0 <= a < n ensures e[a] != j { }
          }
          assert r.exit.ThresholdExceeded? && r.exit.at == n;
          assert rules[n].priority <= rules[j].priority;
        }
      }
    }
  }

  /** Actions run only right after their rule's condition evaluated to true;
      they are recorded as performed when they complete and as failed when they
      throw an Exception. Every true condition is followed by its rule's
      actions, unless they throw an Error (see ActionErrorAbortsPass). */
  lemma ActionsFollowTrueConditions(rules: seq<Rule>, cfg: Config, behaviours: seq<Behaviour>)
    requires |behaviours| == |rules|
    ensures var t := Pass(rules, cfg, behaviours).trace;
      && (forall p :: 0 <= p < |t| && (t[p].Performed? || t[p].Failed?) ==>
            && 0 < p && t[p - 1] == Evaluated(t[p].at) && t[p].at < |rules|
            && behaviours[t[p].at].condition == Holds
            && (t[p].Performed? ==> behaviours[t[p].at].action == Completes)
            && (t[p].Failed? ==> behaviours[t[p].at].action == ThrowsException))
      && (forall p :: 0 <= p < |t| && t[p].Evaluated? && t[p].at < |rules|
                      && behaviours[t[p].at].condition == Holds && behaviours[t[p].at].action != ThrowsError ==>
            && p + 1 < |t| && t[p + 1].at == t[p].at
            && (t[p + 1].Performed? || t[p + 1].Failed?))
  {
    assert Pass(rules, cfg, behaviours) == PassFrom(rules, cfg, behaviours, 0);
    ActionsFrom(rules, cfg, behaviours, 0);
    ConditionsFrom(rules, cfg, behaviours, 0);
  }

  /** In skip mode at most one action completes per pass, and it is the last
      thing the pass does. */
  lemma SkipModeAppliesAtMostOneRule(rules: seq<Rule>, cfg: Config, behaviours: seq<Behaviour>)
    requires |behaviours| == |rules|
    requires cfg.skipOnFirstAppliedRule
    ensures var r := Pass(rules, cfg, behaviours);
      var t := r.trace;
      && (forall p :: 0 <= p < |t| && t[p].Performed? ==>
            p == |t| - 2 && t[p + 1] == SkipStop(t[p].at) && r.exit == SkippedAfterSuccess(t[p].at))
      && (forall p, q :: 0 <= p < |t| && 0 <= q < |t| && t[p].Performed? && t[q].Performed? ==> p == q)
  {
    assert Pass(rules, cfg, behaviours) == PassFrom(rules, cfg, behaviours, 0);
    SkipFrom(rules, cfg, behaviours, 0);
  }

  /** An action that throws an Exception does not end the pass: the next rule
      is considered, or, after the last rule, the pass ends normally. A pass
      ends abruptly only when a condition throws or an action throws an Error. */
  lemma FailedActionDoesNotEndPass(rules: seq<Rule>, cfg: Config, behaviours: seq<Behaviour>)
    requires |behaviours| == |rules|
    ensures var r := Pass(rules, cfg, behaviours);
      var t := r.trace;
      && (forall p :: 0 <= p < |t| && t[p].Failed? ==>
            if t[p].at + 1 < |rules| then
              p + 1 < |t| && t[p + 1].at == t[p].at + 1 && (t[p + 1].Evaluated? || t[p + 1].ThresholdStop?)
            else
              p + 1 == |t| && r.exit == Exhausted)
      && (r.exit.ConditionRaised? ==> r.exit.at < |rules| && behaviours[r.exit.at].condition == Raises)
      && (r.exit.ActionRaised? ==>
            && r.exit.at < |rules| && behaviours[r.exit.at].condition == Holds
            && behaviours[r.exit.at].action == ThrowsError)
  {
    assert Pass(rules, cfg, behaviours) == PassFrom(rules, cfg, behaviours, 0);
    FailureFrom(rules, cfg, behaviours, 0);
    FirstStopFrom(rules, cfg, behaviours, 0);
  }

  /** A condition that throws aborts the pass: the exception leaves the pass
      right after that evaluation and no later rule is looked at. */
  lemma ConditionFailureAbortsPass(rules: seq<Rule>, cfg: Config, behaviours: seq<Behaviour>)
    requires |behaviours| == |rules|
    ensures var r := Pass(rules, cfg, behaviours);
      var t := r.trace;
      && (forall p :: 0 <= p < |t| && t[p].Evaluated? && t[p].at < |rules|
                      && behaviours[t[p].at].condition == Raises ==>
            p == |t| - 1 && r.exit == ConditionRaised(t[p].at))
      && (r.exit.ConditionRaised? ==>
            && t != [] && t[|t| - 1] == Evaluated(r.exit.at)
            && forall p :: 0 <= p < |t| ==> t[p].at <= r.exit.at)
  {
    assert Pass(rules, cfg, behaviours) == PassFrom(rules, cfg, behaviours, 0);
    var r := Pass(rules, cfg, behaviours);
    var t := r.trace;
    RaiseFrom(rules, cfg, behaviours, 0);
    OrderedFrom(rules, cfg, behaviours, 0);
    EventsInRange(rules, cfg, behaviours, 0);
    if r.exit.ConditionRaised? {
      var k := r.exit.at;
      LastEventFrom(rules, cfg, behaviours, 0);
      forall p | 0 <= p < |t| ensures t[p].at <= k {
        if p < |t| - 1 {
          assert t[p].at <= t[|t| - 1].at;
        }
      }
    }
  }

  /** When no rule Stops, the pass runs to the end and evaluates every
      condition exactly once, in collection order. */
  lemma UnstoppedPassEvaluatesEveryRule(rules: seq<Rule>, cfg: Config, behaviours: seq<Behaviour>)
    requires |behaviours| == |rules|
    requires forall j :: 0 <= j < |rules| ==> !Stops(rules, cfg, behaviours, j)
    ensures var r := Pass(rules, cfg, behaviours);
      var e := Evaluations(r.trace);
      && r.exit == Exhausted
      && |e| == |rules|
      && forall j :: 0 <= j < |rules| ==> e[j] == j
  {
    assert Pass(rules, cfg, behaviours) == PassFrom(rules, cfg, behaviours, 0);
    FirstStopFrom(rules, cfg, behaviours, 0);
    EvaluationsFrom(rules, cfg, behaviours, 0);
  }

  /** An action that throws an Error aborts the pass: the Error leaves the pass
      right after its rule's condition was evaluated, and no later rule is looked at. */
  lemma ActionErrorAbortsPass(rules: seq<Rule>, cfg: Config, behaviours: seq<Behaviour>)
    requires |behaviours| == |rules|
    ensures var r := Pass(rules, cfg, behaviours);
      var t := r.trace;
      && (forall p :: 0 <= p < |t| && t[p].Evaluated? && t[p].at < |rules|
                      && behaviours[t[p].at].condition == Holds && behaviours[t[p].at].action == ThrowsError ==>
            p == |t| - 1 && r.exit == ActionRaised(t[p].at))
      && (r.exit.ActionRaised? ==>
            && t != [] && t[|t| - 1] == Evaluated(r.exit.at)
            && forall p :: 0 <= p < |t| ==> t[p].at <= r.exit.at)
  {
    assert Pass(rules, cfg, behaviours) == PassFrom(rules, cfg, behaviours, 0);
    var r := Pass(rules, cfg, behaviours);
    var t := r.trace;
    ActionErrorFrom(rules, cfg, behaviours, 0);
    OrderedFrom(rules, cfg, behaviours, 0);
    EventsInRange(rules, cfg, behaviours, 0);
    if r.exit.ActionRaised? {
      var k := r.exit.at;
      LastEventFrom(rules, cfg, behaviours, 0);
      forall p | 0 <= p < |t| ensures t[p].at <= k {
        if p < |t| - 1 {
          assert t[p].at <= t[|t| - 1].at;
        }
      }
    }
  }
}
