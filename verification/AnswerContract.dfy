/**
 The answer contract: validation of the model-written evidence and the outcome it allows.
 Texts reach the outcome only through the deterministic floor in `PreservesMeaning`.
 */
module AnswerContract {
  import opened Common
  import opened Sequences
  import opened Text
  import opened Clauses
  import opened Markers

  const MAX_SUBJECT := 160
  const MAX_HYPOTHESIS := 160
  const MAX_COMMITMENT := 240
  const MAX_MINIMAL := 240
  const MAX_RECONSTRUCTED := 480
  const MAX_REQUIRED_SLOTS := 5
  const MAX_HYPOTHESES := 3
  const GAP_THRESHOLD := 0.20
  const HIGH_ENTROPY := 0.88
  const LOW_TOP_HYPOTHESIS := 0.65
  const COVERAGE_TOLERANCE := 0.05
  const REPAIR_GAIN := 0.20
  const MEANING_PRESERVATION := 0.86
  const INFERRED_COMMITMENT := 0.90

  // Each enumeration has one constructor for every string outside the source's list.
  datatype Operator = Boolean | Choice | Quantity | State | Cause | Procedure | Definition
    | Comparison | Evidence | Purpose | Open | UnknownOperator
  datatype Slot = SlotPolarity | SlotSelection | SlotQuantity | SlotState | SlotCause | SlotProcedure
    | SlotDefinition | SlotComparison | SlotEvidence | SlotPurpose | SlotPosition | SlotUnit
    | SlotCondition | SlotUncertainty | SlotScope | UnknownSlot
  datatype Position = First | Later | Absent | UnknownPosition
  datatype Calibration = CommittedTo | Conditional | Uncertain | Abstain | UnknownCalibration
  datatype Issue = NoIssue | TargetMissing | MissingRequiredSlot | ReasonOnly | BackgroundFirst
    | ConditionSeparated | QuestionRestatement | AmbiguousCommitment | AnswerTypeMismatch
    | UnsupportedCertainty | InsufficientEvidence | Contradiction | MeaningChanged | NotEvaluable
    | UnknownIssue
  datatype Outcome = Keep | Clarify | Restructure | Reject

  datatype Hypothesis = Hypothesis(interpretation: string, confidence: real)
  datatype Question = Question(operator: Operator, subject: string, required: seq<Slot>, hypotheses: seq<Hypothesis>)
  datatype Commitment = Commitment(first: string, fillsTarget: bool, targetCoverage: real, filled: seq<Slot>,
                                   position: Position, calibration: Calibration, issue: Issue)
  datatype Repair = Repair(minimal: string, reconstructed: string, confidence: real, gain: real)
  datatype Contract = Contract(question: Question, commitment: Commitment, repair: Repair)

  datatype Assessment = Assessment(outcome: Outcome, ambiguous: bool, targetSatisfied: bool,
                                   repairAccepted: bool, reconstructed: string, coverage: real)

  /** The patterns, kept abstract: fillers, extracted conditions and causes, protected facts. */
  datatype Lexicon = Lexicon(
    isFiller: string -> bool, conditions: string -> set<string>, causes: string -> set<string>,
    facts: string -> set<string>)

  function TargetSlot(op: Operator): Option<Slot> {
    match op
    case Boolean => Some(SlotPolarity) case Choice => Some(SlotSelection) case Quantity => Some(SlotQuantity)
    case State => Some(SlotState) case Cause => Some(SlotCause) case Procedure => Some(SlotProcedure)
    case Definition => Some(SlotDefinition) case Comparison => Some(SlotComparison)
    case Evidence => Some(SlotEvidence) case Purpose => Some(SlotPurpose) case Open => Some(SlotPosition)
    case UnknownOperator => None
  }

  predicate Blocking(i: Issue) {
    i.QuestionRestatement? || i.AnswerTypeMismatch? || i.UnsupportedCertainty? || i.Contradiction?
    || i.MeaningChanged? || i.NotEvaluable?
  }

  predicate Repairable(i: Issue) {
    i.ReasonOnly? || i.BackgroundFirst? || i.ConditionSeparated? || i.AmbiguousCommitment?
    || i.MissingRequiredSlot? || i.InsufficientEvidence?
  }

  // ---------------------------------------------------------------- validation

  predicate Bounded(s: string, maximum: nat, required: bool) {
    |s| <= maximum && (required ==> s != "")
  }

  predicate Unit(x: real) { 0.0 <= x <= 1.0 }

  ghost predicate ValidSlots(slots: seq<Slot>) {
    Distinct(slots) && UnknownSlot !in slots
  }

  function ConfidenceSum(hs: seq<Hypothesis>): real {
    if hs == [] then 0.0 else ConfidenceSum(hs[..|hs| - 1]) + hs[|hs| - 1].confidence
  }

  ghost predicate ValidHypothesis(hs: seq<Hypothesis>, i: nat)
    requires i < |hs|
  {
    && Bounded(Collapse(hs[i].interpretation), MAX_HYPOTHESIS, true)
    && 0.0 < hs[i].confidence <= 1.0
    && (i > 0 ==> hs[i].confidence <= hs[i - 1].confidence + 0.000000001)
    && forall j :: 0 <= j < i ==> Collapse(hs[j].interpretation) != Collapse(hs[i].interpretation)
  }

  ghost predicate ValidHypotheses(hs: seq<Hypothesis>) {
    && 0 < |hs| <= MAX_HYPOTHESES
    && (forall i :: 0 <= i < |hs| ==> ValidHypothesis(hs, i))
    && ConfidenceSum(hs) <= 1.000001
  }

  function Coverage(c: Contract): real
    requires c.question.required != []
  {
    |c.commitment.filled| as real / |c.question.required| as real
  }

  ghost predicate ValidQuestion(q: Question) {
    && TargetSlot(q.operator).Some?
    && Bounded(Collapse(q.subject), MAX_SUBJECT, true)
    && 0 < |q.required| <= MAX_REQUIRED_SLOTS && ValidSlots(q.required)
    && TargetSlot(q.operator).value in q.required
    && (q.operator.Quantity? ==> SlotUnit in q.required)
    && ValidHypotheses(q.hypotheses)
  }

  ghost predicate ValidCommitment(c: Contract)
    requires c.question.required != [] && TargetSlot(c.question.operator).Some?
  {
    var m := c.commitment;
    var coverage := Coverage(c);
    var gap := m.targetCoverage - coverage;
    && Bounded(Collapse(m.first), MAX_COMMITMENT, !m.position.Absent?)
    && !m.position.UnknownPosition? && !m.calibration.UnknownCalibration? && !m.issue.UnknownIssue?
    && Unit(m.targetCoverage)
    && (m.position.Absent? ==> Collapse(m.first) == "")
    && ValidSlots(m.filled) && (forall s :: s in m.filled ==> s in c.question.required)
    && -COVERAGE_TOLERANCE <= gap <= COVERAGE_TOLERANCE
    && (m.fillsTarget <==> TargetSlot(c.question.operator).value in m.filled)
    && !(m.position.Absent? && m.fillsTarget)
    && !(m.issue.NoIssue? && coverage < 1.0)
  }

  ghost predicate ValidRepair(r: Repair) {
    && Bounded(Collapse(r.minimal), MAX_MINIMAL, false)
    && Bounded(Collapse(r.reconstructed), MAX_RECONSTRUCTED, false)
    && Unit(r.confidence) && Unit(r.gain)
    && (r.gain > 0.0 ==> Collapse(r.minimal) != "" && Collapse(r.reconstructed) != "")
  }

  ghost predicate ValidContract(c: Contract) {
    ValidQuestion(c.question) && ValidCommitment(c) && ValidRepair(c.repair)
  }

  /** The duplicate check with a set of slots already seen. */
  method UniqueSlots(slots: seq<Slot>) returns (ok: bool)
    ensures ok <==> ValidSlots(slots)
  {
    var seen: set<Slot> := {};
    for i := 0 to |slots|
      invariant seen == set s | s in slots[..i]
      invariant ValidSlots(slots[..i])
    {
      assert slots[..i + 1] == slots[..i] + [slots[i]];
      if slots[i] == UnknownSlot {
        return false;
      }
      if slots[i] in seen {
        var j :| 0 <= j < i && slots[j] == slots[i];
        return false;
      }
      seen := seen + {slots[i]};
    }
    assert slots[..|slots|] == slots;
    ok := true;
  }

  /** The hypothesis loop: decreasing confidences, distinct collapsed names, a bounded sum. */
  method CheckHypotheses(hs: seq<Hypothesis>) returns (ok: bool)
    ensures ok <==> ValidHypotheses(hs)
  {
    hide Collapse;
    if hs == [] || |hs| > MAX_HYPOTHESES {
      return false;
    }
    var names: set<string> := {};
    var sum, previous := 0.0, 2.0;
    for i := 0 to |hs|
      invariant names == set j | 0 <= j < i :: Collapse(hs[j].interpretation)
      invariant sum == ConfidenceSum(hs[..i])
      invariant previous == if i == 0 then 2.0 else hs[i - 1].confidence
      invariant forall j :: 0 <= j < i ==> ValidHypothesis(hs, j)
    {
      var name := Collapse(hs[i].interpretation);
      if !Bounded(name, MAX_HYPOTHESIS, true) || !Unit(hs[i].confidence) || hs[i].confidence <= 0.0
         || hs[i].confidence > previous + 0.000000001 || name in names {
        assert !ValidHypothesis(hs, i);
        return false;
      }
      names := names + {name};
      previous := hs[i].confidence;
      sum := sum + hs[i].confidence;
      assert hs[..i + 1][..i] == hs[..i];
    }
    assert hs[..|hs|] == hs;
    ok := sum <= 1.000001;
  }

  /** Every check, in the source's order. */
  method Validate(c: Contract) returns (ok: bool)
    ensures ok <==> ValidContract(c)
  {
    hide Collapse;
    hide ValidSlots;
    hide ValidHypotheses;
    var q, m, r := c.question, c.commitment, c.repair;
    var target := TargetSlot(q.operator);
    if target.None? || !Bounded(Collapse(q.subject), MAX_SUBJECT, true)
       || |q.required| == 0 || |q.required| > MAX_REQUIRED_SLOTS {
      return false;
    }
    var unique := UniqueSlots(q.required);
    if !unique || target.value !in q.required || (q.operator.Quantity? && SlotUnit !in q.required) {
      return false;
    }
    var hypothesesOk := CheckHypotheses(q.hypotheses);
    if !hypothesesOk {
      return false;
    }
    assert ValidQuestion(q);
    if !Bounded(Collapse(m.first), MAX_COMMITMENT, !m.position.Absent?)
       || m.position.UnknownPosition? || m.calibration.UnknownCalibration? || m.issue.UnknownIssue?
       || !Unit(m.targetCoverage) || (m.position.Absent? && Collapse(m.first) != "") {
      return false;
    }
    unique := UniqueSlots(m.filled);
    if !unique {
      return false;
    }
    for i := 0 to |m.filled|
      invariant forall j :: 0 <= j < i ==> m.filled[j] in q.required
    {
      if m.filled[i] !in q.required {
        return false;
      }
    }
    var coverage := Coverage(c);
    var gap := m.targetCoverage - coverage;
    if gap > COVERAGE_TOLERANCE || -gap > COVERAGE_TOLERANCE
       || m.fillsTarget != (target.value in m.filled)
       || (m.position.Absent? && m.fillsTarget) || (m.issue.NoIssue? && coverage < 1.0) {
      return false;
    }
    assert ValidCommitment(c);
    ok := Bounded(Collapse(r.minimal), MAX_MINIMAL, false)
       && Bounded(Collapse(r.reconstructed), MAX_RECONSTRUCTED, false)
       && Unit(r.confidence) && Unit(r.gain)
       && !(r.gain > 0.0 && (Collapse(r.minimal) == "" || Collapse(r.reconstructed) == ""));
  }

  // ---------------------------------------------------------------- the deterministic floor

  predicate StartsNormalized(container: string, value: string) {
    Collapse(value) != "" && Collapse(value) <= Collapse(container)
  }

  function LeadingFillers(clauses: seq<string>, lex: Lexicon): (n: nat)
    ensures n <= |clauses|
  {
    if clauses == [] || !lex.isFiller(clauses[0]) then 0 else 1 + LeadingFillers(clauses[1..], lex)
  }

  /** Only whole filler clauses may come before the commitment. */
  predicate StartsIgnoringFillers(container: string, value: string, lex: Lexicon) {
    StartsNormalized(container, value) ||
    (var cs, vs := SemanticClauses(container), SemanticClauses(value);
     var n := LeadingFillers(cs, lex);
     && vs != [] && n > 0 && |cs| - n >= |vs|
     && cs[n..n + |vs| - 1] == vs[..|vs| - 1]
     && vs[|vs| - 1] <= cs[n + |vs| - 1])
  }

  function CalibrationUncertainty(c: Calibration): int {
    match c case Conditional => 1 case Uncertain => 2 case Abstain => 3 case _ => 0
  }

  ghost predicate PreservesMeaning(
    original: string, reconstructed: string, first: string, calibration: Calibration, op: Operator, lex: Lexicon)
  {
    var o, r := Collapse(original), Collapse(reconstructed);
    if r == "" then o == ""
    else
      && FrontMove(SemanticClauses(o), SemanticClauses(r), SemanticClauses(first))
      && HasCondition(o) == HasCondition(r) && lex.conditions(o) == lex.conditions(r)
      && HasCause(o) == HasCause(r) && lex.causes(o) == lex.causes(r)
      && (op.Boolean? ==> Polarity(o) == Polarity(r))
      && lex.facts(o) == lex.facts(r)
      && (if Uncertainty(o) == 0 then CalibrationUncertainty(calibration) else Uncertainty(o)) == Uncertainty(r)
  }

  // ---------------------------------------------------------------- the outcome

  function Gap(hs: seq<Hypothesis>): real {
    if |hs| < 2 then 1.0 else hs[0].confidence - hs[1].confidence
  }

  ghost predicate Ambiguous(c: Contract, entropy: real)
    requires c.question.hypotheses != []
  {
    var hs := c.question.hypotheses;
    (|hs| > 1 && Gap(hs) <= GAP_THRESHOLD) || hs[0].confidence < LOW_TOP_HYPOTHESIS || entropy >= HIGH_ENTROPY
  }

  ghost predicate Anchored(c: Contract, original: string) {
    var m := c.commitment;
    m.position.Absent? || (Collapse(m.first) != "" && Contains(Collapse(original), Collapse(m.first)))
  }

  ghost predicate CommitmentFronted(c: Contract, original: string, lex: Lexicon) {
    c.commitment.position.First? && StartsIgnoringFillers(original, Collapse(c.commitment.first), lex)
  }

  ghost predicate TargetFilled(c: Contract)
    requires TargetSlot(c.question.operator).Some?
  {
    TargetSlot(c.question.operator).value in c.commitment.filled
  }

  ghost predicate TargetSatisfied(c: Contract, original: string, lex: Lexicon)
    requires ValidContract(c)
  {
    && TargetFilled(c) && c.commitment.fillsTarget && Coverage(c) == 1.0
    && Anchored(c, original) && CommitmentFronted(c, original, lex) && c.commitment.issue.NoIssue?
  }

  ghost predicate MeaningPreserved(c: Contract, original: string, lex: Lexicon)
    requires ValidContract(c)
  {
    var r := c.repair;
    var answer := Collapse(r.reconstructed);
    && PreservesMeaning(original, answer, Collapse(c.commitment.first), c.commitment.calibration,
       c.question.operator, lex)
    && !(r.gain == 0.0 && Collapse(answer) != Collapse(original))
    && !(Collapse(r.minimal) != "" && !Contains(Collapse(answer), Collapse(Collapse(r.minimal))))
    && !(!TargetFilled(c) && r.confidence < INFERRED_COMMITMENT)
  }

  ghost predicate RepairFronted(c: Contract) {
    var front := if c.commitment.position.Later? || c.commitment.issue.BackgroundFirst?
                 then Collapse(c.commitment.first) else Collapse(c.repair.minimal);
    c.repair.gain == 0.0 || StartsNormalized(Collapse(c.repair.reconstructed), front)
  }

  ghost predicate RepairAccepted(c: Contract, original: string, lex: Lexicon)
    requires ValidContract(c)
  {
    && Coverage(c) == 1.0 && !Blocking(c.commitment.issue) && MeaningPreserved(c, original, lex)
    && RepairFronted(c) && c.repair.confidence >= MEANING_PRESERVATION
  }

  ghost predicate HighGainRepair(c: Contract, original: string, lex: Lexicon)
    requires ValidContract(c)
  {
    && (!TargetSatisfied(c, original, lex) || c.commitment.position.Later? || Repairable(c.commitment.issue))
    && c.repair.gain >= REPAIR_GAIN
  }

  /** The assessment of one answer; `entropy` is the normalized entropy of the hypotheses. */
  ghost function Evaluate(c: Contract, original: string, entropy: real, lex: Lexicon): Result<Assessment, ()> {
    if !ValidContract(c) then Err(())
    else
      var m := c.commitment;
      var ambiguous := Ambiguous(c, entropy);
      var satisfied := TargetSatisfied(c, original, lex);
      var accepted := RepairAccepted(c, original, lex);
      var highGain := HighGainRepair(c, original, lex);
      var coverage := Coverage(c);
      var outcome :=
        if ambiguous then Clarify
        else if !Anchored(c, original) then Reject
        else if m.position.First? && !CommitmentFronted(c, original, lex) then Reject
        else if Blocking(m.issue) then Reject
        else if coverage == 1.0 && highGain && accepted then Restructure
        else if highGain && !accepted then Reject
        else if !satisfied && (coverage < 0.20 || m.issue.AnswerTypeMismatch?
                               || m.issue.QuestionRestatement? || m.issue.NotEvaluable?) then Reject
        else if !satisfied then Clarify
        else Keep;
      Ok(Assessment(outcome, ambiguous, satisfied, accepted, Collapse(c.repair.reconstructed), coverage))
  }

  // ---------------------------------------------------------------- theorems

  /**
   An answer is kept exactly when its question is unambiguous and the person's own target answer
   already comes first: no repair, however confident, can displace it.
   */
  lemma {:induction false} KeepIff(c: Contract, original: string, entropy: real, lex: Lexicon)
    requires Evaluate(c, original, entropy, lex).Ok?
    ensures var a := Evaluate(c, original, entropy, lex).value;
      a.outcome.Keep? <==> !a.ambiguous && a.targetSatisfied
  {
    hide ValidContract;
    hide Ambiguous;
    hide Anchored;
    hide StartsIgnoringFillers;
    hide RepairAccepted;
    hide Collapse;
    hide Coverage;
  }

  lemma AcceptedIsFrontMove(c: Contract, original: string, lex: Lexicon)
    requires ValidContract(c) && c.repair.gain > 0.0 && RepairAccepted(c, original, lex)
    ensures FrontMove(SemanticClauses(original), SemanticClauses(Collapse(c.repair.reconstructed)),
      SemanticClauses(c.commitment.first))
  {
    var answer := Collapse(c.repair.reconstructed);
    CollapseIdempotent(c.repair.reconstructed);
    ClausesOfCollapsed(original);
    ClausesOfCollapsed(c.commitment.first);
    hide Collapse;
    hide FrontMove;
    hide SemanticClauses;
    assert PreservesMeaning(original, answer, Collapse(c.commitment.first), c.commitment.calibration,
      c.question.operator, lex);
  }

  /**
   Whenever an answer is restructured, what is handed out is the person's own clauses with exactly
   the commitment moved to the front: a unique permutation without one new word character.
   */
  lemma {:induction false} RestructureIsFrontMove(c: Contract, original: string, entropy: real, lex: Lexicon)
    requires Evaluate(c, original, entropy, lex).Ok?
    requires Evaluate(c, original, entropy, lex).value.outcome.Restructure?
    ensures var answer := Evaluate(c, original, entropy, lex).value.reconstructed;
      && FrontMove(SemanticClauses(original), SemanticClauses(answer), SemanticClauses(c.commitment.first))
      && multiset(SemanticClauses(answer)) == multiset(SemanticClauses(original))
      && multiset(Core(answer)) == multiset(Core(original))
      && SemanticClauses(c.commitment.first) <= SemanticClauses(answer)
  {
    hide ValidCommitment;
    hide ValidQuestion;
    hide Ambiguous;
    hide Anchored;
    hide CommitmentFronted;
    hide TargetSatisfied;
    hide RepairAccepted;
    hide FrontMove;
    hide SemanticClauses;
    hide Core;
    hide Collapse;
    hide Coverage;
    AcceptedIsFrontMove(c, original, lex);
    var answer := Collapse(c.repair.reconstructed);
    FrontMovePermutes(SemanticClauses(original), SemanticClauses(answer), SemanticClauses(c.commitment.first));
    FrontMoveKeepsCharacters(original, answer, c.commitment.first);
  }

  /** A restructured answer had a filled, anchored commitment that was not yet in front. */
  lemma {:induction false} RestructurePreconditions(c: Contract, original: string, entropy: real, lex: Lexicon)
    requires Evaluate(c, original, entropy, lex).Ok?
    requires Evaluate(c, original, entropy, lex).value.outcome.Restructure?
    ensures !TargetSatisfied(c, original, lex) && Anchored(c, original) && !c.commitment.position.Absent?
    ensures forall s :: s in c.question.required ==> s in c.commitment.filled
    ensures c.repair.confidence >= MEANING_PRESERVATION && c.repair.gain >= REPAIR_GAIN
  {
    AcceptedIsFrontMove(c, original, lex);
    if c.commitment.position.Absent? {
      EmptyHasNoClauses(c.commitment.first);
    }
    hide Collapse;
    hide SemanticClauses;
    hide FrontMove;
    FullCoverage(c.commitment.filled, c.question.required);
  }

  lemma EmptyHasNoClauses(s: string)
    requires Collapse(s) == ""
    ensures SemanticClauses(s) == []
  {
  }

  /** Distinct slots out of the required ones, as many as are required, are all of them. */
  lemma FullCoverage(filled: seq<Slot>, required: seq<Slot>)
    requires Distinct(filled) && required != [] && (forall s :: s in filled ==> s in required)
    requires |filled| as real / |required| as real == 1.0
    ensures forall s :: s in required ==> s in filled
  {
    assert |filled| == |required|;
    var f, r := set s | s in filled, set s | s in required;
    DistinctSize(filled);
    SetAtMost(required);
    assert f <= r;
    if f != r { ProperSubsetSize(f, r); }
    forall s | s in required ensures s in filled { assert s in r; }
  }

  lemma {:induction false} DistinctSize(slots: seq<Slot>)
    requires Distinct(slots)
    ensures |set s | s in slots| == |slots|
    decreases |slots|
  {
    var all := set s | s in slots;
    if slots == [] {
      assert all == {};
    } else {
      var n := |slots| - 1;
      DistinctSize(slots[..n]);
      assert slots == slots[..n] + [slots[n]];
      assert all == (set s | s in slots[..n]) + {slots[n]};
      assert slots[n] !in slots[..n];
    }
  }

  lemma {:induction false} SetAtMost(slots: seq<Slot>)
    ensures |set s | s in slots| <= |slots|
    decreases |slots|
  {
    var all := set s | s in slots;
    if slots == [] {
      assert all == {};
    } else {
      var n := |slots| - 1;
      SetAtMost(slots[..n]);
      assert slots == slots[..n] + [slots[n]];
      assert all == (set s | s in slots[..n]) + {slots[n]};
    }
  }
}
