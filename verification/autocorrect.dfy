/**
  The emit / autocorrect protocol between a rule and the rule engine.

  A rule that finds a violation calls `emit(offset, errorMessage,
  canBeAutoCorrected)`. The engine records the violation and answers with an
  `AutocorrectDecision`; the rule changes the tree for that occurrence only
  when the answer allows it. The engine's policy (autocorrect everything,
  nothing, or only outside suppressed regions) is supplied from outside and is
  modelled as a total function of the emission.
 */
module Autocorrect {

  datatype AutocorrectDecision = AllowAutocorrect | NoAutocorrect

  datatype Emission = Emission(offset: nat, errorMessage: string, canBeAutoCorrected: bool)

  /** One reported violation together with the decision the engine returned for it. */
  datatype Report = Report(emission: Emission, decision: AutocorrectDecision)

  type Policy = Emission -> AutocorrectDecision

  /** The outcome of one call of a rule hook: it completes, or it throws. */
  datatype RuleResult<T> = Completed(value: T) | Aborted(exception: string)

  /** The tree after one call of a rule hook, and the reports of that call. */
  datatype Outcome<T> = Outcome(root: T, log: seq<Report>)

  /** One `emit` call: the violation is appended to the log and the policy decides. */
  function Emit(policy: Policy, log: seq<Report>, offset: nat, errorMessage: string): (r: (AutocorrectDecision, seq<Report>))
    ensures r.0 == policy(Emission(offset, errorMessage, true))
    ensures r.1 == log + [Report(Emission(offset, errorMessage, true), r.0)]
  {
    var e := Emission(offset, errorMessage, true);
    var d := policy(e);
    (d, log + [Report(e, d)])
  }

  /** No report in the log was allowed to be fixed. */
  predicate NoneAllowed(log: seq<Report>) {
    forall i :: 0 <= i < |log| ==> log[i].decision == NoAutocorrect
  }

  /** The policy of a run without autocorrection (format check only). */
  function RejectAll(): Policy {
    e => NoAutocorrect
  }

  /** The policy of a run that autocorrects everything. */
  function AllowAll(): Policy {
    e => AllowAutocorrect
  }

  lemma {:induction false} NoneAllowedAppend(a: seq<Report>, b: seq<Report>)
    ensures NoneAllowed(a + b) <==> NoneAllowed(a) && NoneAllowed(b)
  {
    if NoneAllowed(a) && NoneAllowed(b) {
      forall i | 0 <= i < |a + b| ensures (a + b)[i].decision == NoAutocorrect {
        if i >= |a| { assert (a + b)[i] == b[i - |a|]; }
      }
    }
    if NoneAllowed(a + b) {
      forall i | 0 <= i < |a| ensures a[i].decision == NoAutocorrect {
        assert (a + b)[i] == a[i];
      }
      forall i | 0 <= i < |b| ensures b[i].decision == NoAutocorrect {
        assert (a + b)[|a| + i] == b[i];
      }
    }
  }

  /**
    An `emit` keeps the earlier reports and adds exactly one, marked correctable,
    that records the engine's answer; the log allows no fix afterwards exactly
    when it allowed none before and the engine refused this one.
   */
  lemma {:induction false} EmitRecordsDecision(policy: Policy, log: seq<Report>, offset: nat, errorMessage: string)
    ensures var (d, log') := Emit(policy, log, offset, errorMessage);
      && log <= log' && |log'| == |log| + 1
      && log'[|log|].emission.offset == offset && log'[|log|].emission.errorMessage == errorMessage
      && log'[|log|].emission.canBeAutoCorrected
      && log'[|log|].decision == d
      && (NoneAllowed(log') <==> NoneAllowed(log) && d == NoAutocorrect)
  {
    var (d, log') := Emit(policy, log, offset, errorMessage);
    var one := [Report(Emission(offset, errorMessage, true), d)];
    assert log' == log + one;
    NoneAllowedAppend(log, one);
    assert NoneAllowed(one) <==> one[0].decision == NoAutocorrect;
  }

  /** A log that grew from `a` to `b` and then to `c` allowed nothing from `a` on only if it allowed nothing in either step. */
  lemma {:induction false} NoneAllowedSplit(a: seq<Report>, b: seq<Report>, c: seq<Report>)
    requires a <= b <= c
    ensures NoneAllowed(c[|a|..]) <==> NoneAllowed(b[|a|..]) && NoneAllowed(c[|b|..])
  {
    assert c[|a|..] == b[|a|..] + c[|b|..];
    NoneAllowedAppend(b[|a|..], c[|b|..]);
  }
}
