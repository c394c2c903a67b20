/**
 The outcome of an assessment read off its inputs: the contract's labels, the person's answer and the
 proposed one.
 */
module AnswerOutcome {
  import opened Common
  import opened Sequences
  import opened Text
  import opened Clauses
  import opened Markers
  import opened AnswerContract

  // ---------------------------------------------------------------- the deterministic floor

  /**
   The answer is the person's own with the commitment moved to the front, the patterns still read the
   same off it, and an answer without a hedge is not labelled as a hedged one.
   */
  ghost predicate Rearranges(
    original: string, answer: string, first: string, calibration: Calibration, lex: Lexicon)
  {
    && FrontMove(SemanticClauses(original), SemanticClauses(answer), SemanticClauses(first))
    && lex.conditions(Collapse(original)) == lex.conditions(Collapse(answer))
    && lex.causes(Collapse(original)) == lex.causes(Collapse(answer))
    && lex.facts(Collapse(original)) == lex.facts(Collapse(answer))
    && (Uncertainty(original) == 0 ==> calibration.CommittedTo?)
  }

  lemma SameClausesOfFrontMove(original: string, answer: string, first: string)
    requires FrontMove(SemanticClauses(original), SemanticClauses(answer), SemanticClauses(first))
    ensures SameClauses(original, answer)
  {
    hide SemanticClauses;
    FrontMovePermutes(SemanticClauses(original), SemanticClauses(answer), SemanticClauses(first));
  }

  lemma CollapsedMarkers(s: string)
    ensures HasCondition(Collapse(s)) == HasCondition(s) && HasCause(Collapse(s)) == HasCause(s)
    ensures Polarity(Collapse(s)) == Polarity(s) && Uncertainty(Collapse(s)) == Uncertainty(s)
  {
    ClausesOfCollapsed(s);
    assert SameClauses(Collapse(s), s);
    hide *;
    MarkersAreArrangementFree(Collapse(s), s);
  }

  /**
   What the floor comes to: every marker comparison in it is decided by the front move, and of the
   uncertainty comparison only the calibration of an unhedged answer is left.
   */
  lemma {:induction false} FloorIff(
    original: string, answer: string, first: string, calibration: Calibration, op: Operator, lex: Lexicon)
    requires !calibration.UnknownCalibration?
    ensures PreservesMeaning(original, answer, first, calibration, op, lex)
       <==> if Collapse(answer) == "" then Collapse(original) == ""
            else Rearranges(original, answer, first, calibration, lex)
  {
    var o, r := SemanticClauses(original), SemanticClauses(answer);
    ClausesOfCollapsed(original);
    ClausesOfCollapsed(answer);
    hide FrontMove;
    hide SemanticClauses;
    hide Collapse;
    hide HasCondition;
    hide HasCause;
    hide Polarity;
    hide Uncertainty;
    if FrontMove(o, r, SemanticClauses(first)) {
      SameClausesOfFrontMove(original, answer, first);
      MarkersAreArrangementFree(original, answer);
      CollapsedMarkers(original);
      CollapsedMarkers(answer);
    }
  }

  // ---------------------------------------------------------------- slots

  ghost predicate AllFilled(c: Contract) {
    forall s :: s in c.question.required ==> s in c.commitment.filled
  }

  lemma SlotsFull(c: Contract)
    requires ValidContract(c)
    ensures Coverage(c) == 1.0 <==> AllFilled(c)
    ensures Coverage(c) < 0.20 <==> c.commitment.filled == []
    ensures AllFilled(c) ==> TargetFilled(c) && c.commitment.fillsTarget && !c.commitment.position.Absent?
  {
    var filled, required := c.commitment.filled, c.question.required;
    hide Collapse;
    hide ValidHypotheses;
    if Coverage(c) == 1.0 { FullCoverage(filled, required); }
    if AllFilled(c) { SameLength(filled, required); }
    LowCoverage(|filled|, |required|);
  }

  lemma LowCoverage(k: nat, n: nat)
    requires 0 < n <= 5
    ensures k as real / n as real < 0.20 <==> k == 0
  {
    var x := k as real / n as real;
    assert x * n as real == k as real;
    assert x * 5.0 >= x * n as real;
  }

  lemma SameLength(filled: seq<Slot>, required: seq<Slot>)
    requires Distinct(filled) && Distinct(required)
    requires (forall s :: s in filled ==> s in required) && (forall s :: s in required ==> s in filled)
    ensures |filled| == |required|
  {
    DistinctSize(filled);
    DistinctSize(required);
    assert (set s | s in filled) == (set s | s in required);
  }

  // ---------------------------------------------------------------- accepted repairs

  /** What the model asserts about its own repair, apart from the texts. */
  ghost predicate RepairInPlace(c: Contract) {
    var answer, minimal := Collapse(c.repair.reconstructed), Collapse(c.repair.minimal);
    var first := Collapse(c.commitment.first);
    && c.repair.confidence >= MEANING_PRESERVATION
    && (minimal == "" || Contains(answer, minimal))
    && (if c.commitment.position.Later? || c.commitment.issue.BackgroundFirst?
        then first != "" && first <= answer else minimal != "" && minimal <= answer)
  }

  lemma InPlace(c: Contract, original: string)
    requires ValidContract(c) && c.repair.gain > 0.0
    ensures RepairInPlace(c) <==>
      && c.repair.confidence >= MEANING_PRESERVATION && RepairFronted(c)
      && !(Collapse(c.repair.minimal) != ""
           && !Contains(Collapse(Collapse(c.repair.reconstructed)), Collapse(Collapse(c.repair.minimal))))
  {
    CollapseIdempotent(c.repair.minimal);
    CollapseIdempotent(c.repair.reconstructed);
    CollapseIdempotent(c.commitment.first);
    hide Collapse;
    hide Contains;
    hide ValidContract;
  }

  /** Exactly which repairs with a gain are accepted. */
  lemma {:induction false} RepairAcceptedIff(c: Contract, original: string, lex: Lexicon)
    requires ValidContract(c) && c.repair.gain > 0.0
    ensures RepairAccepted(c, original, lex)
       <==> && AllFilled(c) && !Blocking(c.commitment.issue) && RepairInPlace(c)
            && Rearranges(original, c.repair.reconstructed, c.commitment.first, c.commitment.calibration, lex)
  {
    var m, r := c.commitment, c.repair;
    SlotsFull(c);
    InPlace(c, original);
    FloorIff(original, Collapse(r.reconstructed), Collapse(m.first), m.calibration, c.question.operator, lex);
    RearrangesCollapsed(original, r.reconstructed, m.first, m.calibration, lex);
    CollapseIdempotent(r.reconstructed);
    hide Collapse;
    hide Contains;
    hide Rearranges;
    hide PreservesMeaning;
    hide RepairInPlace;
    hide RepairFronted;
    hide Coverage;
    hide AllFilled;
    hide ValidQuestion;
  }

  lemma RearrangesCollapsed(
    original: string, answer: string, first: string, calibration: Calibration, lex: Lexicon)
    ensures Rearranges(original, Collapse(answer), Collapse(first), calibration, lex)
       <==> Rearranges(original, answer, first, calibration, lex)
  {
    ClausesOfCollapsed(answer);
    ClausesOfCollapsed(first);
    CollapseIdempotent(answer);
    hide FrontMove;
    hide SemanticClauses;
    hide Collapse;
    hide Uncertainty;
  }

  // ---------------------------------------------------------------- the four outcomes

  /** One interpretation of the question stands out. */
  ghost predicate Clear(c: Contract, entropy: real) {
    var hs := c.question.hypotheses;
    && hs != [] && hs[0].confidence >= LOW_TOP_HYPOTHESIS && entropy < HIGH_ENTROPY
    && (|hs| > 1 ==> hs[0].confidence - hs[1].confidence > GAP_THRESHOLD)
  }

  /** The commitment is in the person's answer where the contract says it is. */
  ghost predicate WellPlaced(c: Contract, original: string, lex: Lexicon) {
    var first := Collapse(c.commitment.first);
    && (!c.commitment.position.Absent? ==> first != "" && Contains(Collapse(original), first))
    && (c.commitment.position.First? ==> StartsIgnoringFillers(original, first, lex))
  }

  /** The person's own answer is already in front, complete and without an issue. */
  ghost predicate AlreadyAnswers(c: Contract) {
    c.commitment.position.First? && AllFilled(c) && c.commitment.issue.NoIssue?
  }

  lemma Readings(c: Contract, original: string, entropy: real, lex: Lexicon)
    requires ValidContract(c)
    ensures Clear(c, entropy) <==> !Ambiguous(c, entropy)
    ensures WellPlaced(c, original, lex)
       <==> Anchored(c, original) && (c.commitment.position.First? ==> CommitmentFronted(c, original, lex))
    ensures WellPlaced(c, original, lex) ==> (TargetSatisfied(c, original, lex) <==> AlreadyAnswers(c))
  {
    SlotsFull(c);
    hide Collapse;
    hide Contains;
    hide StartsIgnoringFillers;
    hide AllFilled;
    hide Coverage;
  }

  /** An answer is kept exactly when it already answers a clear question. */
  lemma {:induction false} KeptIff(c: Contract, original: string, entropy: real, lex: Lexicon)
    requires ValidContract(c)
    ensures Evaluate(c, original, entropy, lex).Ok?
    ensures Evaluate(c, original, entropy, lex).value.outcome.Keep?
       <==> Clear(c, entropy) && WellPlaced(c, original, lex) && AlreadyAnswers(c)
  {
    Readings(c, original, entropy, lex);
    KeepIff(c, original, entropy, lex);
    if TargetSatisfied(c, original, lex) { SatisfiedIsPlaced(c, original, lex); }
    hide Clear;
    hide WellPlaced;
    hide AlreadyAnswers;
    hide ValidContract;
    hide Ambiguous;
    hide Anchored;
    hide CommitmentFronted;
    hide RepairAccepted;
    hide HighGainRepair;
    hide TargetSatisfied;
    hide Collapse;
    hide Coverage;
  }

  lemma SatisfiedIsPlaced(c: Contract, original: string, lex: Lexicon)
    requires ValidContract(c) && TargetSatisfied(c, original, lex)
    ensures Anchored(c, original) && CommitmentFronted(c, original, lex)
  {
    hide Anchored;
    hide CommitmentFronted;
    hide Coverage;
    hide ValidQuestion;
    hide ValidCommitment;
  }

  /**
   An answer is restructured exactly when the question is clear, every required slot is filled from the
   answer but not yet in front without an issue, and the proposed answer rearranges the person's own.
   */
  lemma {:induction false} RestructuredIff(c: Contract, original: string, entropy: real, lex: Lexicon)
    requires ValidContract(c)
    ensures Evaluate(c, original, entropy, lex).Ok?
    ensures Evaluate(c, original, entropy, lex).value.outcome.Restructure?
       <==> && Clear(c, entropy) && WellPlaced(c, original, lex) && !AlreadyAnswers(c)
            && AllFilled(c) && !Blocking(c.commitment.issue) && c.repair.gain >= REPAIR_GAIN && RepairInPlace(c)
            && Rearranges(original, c.repair.reconstructed, c.commitment.first, c.commitment.calibration, lex)
  {
    Readings(c, original, entropy, lex);
    SlotsFull(c);
    if c.repair.gain > 0.0 { RepairAcceptedIff(c, original, lex); }
    Wanted(c, original, lex);
    hide Clear;
    hide WellPlaced;
    hide AlreadyAnswers;
    hide Rearranges;
    hide RepairInPlace;
    hide ValidContract;
    hide Ambiguous;
    hide Anchored;
    hide CommitmentFronted;
    hide RepairAccepted;
    hide HighGainRepair;
    hide TargetSatisfied;
    hide AllFilled;
    hide Collapse;
    hide Coverage;
  }

  /** A repair is wanted exactly for an answer that is not satisfied yet. */
  lemma Wanted(c: Contract, original: string, lex: Lexicon)
    requires ValidContract(c)
    ensures HighGainRepair(c, original, lex) <==> !TargetSatisfied(c, original, lex) && c.repair.gain >= REPAIR_GAIN
  {
    hide Anchored;
    hide StartsIgnoringFillers;
    hide Coverage;
    hide ValidQuestion;
    hide ValidCommitment;
    hide Collapse;
  }

  /**
   An answer is rejected exactly when the question is clear and the commitment is misplaced, the issue
   is a blocking one, a repair with a gain is wanted but not accepted, or nothing was filled at all.
   */
  lemma {:induction false} RejectedIff(c: Contract, original: string, entropy: real, lex: Lexicon)
    requires ValidContract(c)
    ensures Evaluate(c, original, entropy, lex).Ok?
    ensures Evaluate(c, original, entropy, lex).value.outcome.Reject?
       <==> && Clear(c, entropy)
            && (|| !WellPlaced(c, original, lex) || Blocking(c.commitment.issue) || c.commitment.filled == []
                || (!AlreadyAnswers(c) && c.repair.gain >= REPAIR_GAIN
                    && !(AllFilled(c) && RepairInPlace(c)
                         && Rearranges(original, c.repair.reconstructed, c.commitment.first,
                                       c.commitment.calibration, lex))))
  {
    Readings(c, original, entropy, lex);
    SlotsFull(c);
    if c.repair.gain > 0.0 { RepairAcceptedIff(c, original, lex); }
    Wanted(c, original, lex);
    if c.commitment.filled == [] { NothingFilled(c); }
    hide Clear;
    hide WellPlaced;
    hide AlreadyAnswers;
    hide Rearranges;
    hide RepairInPlace;
    hide ValidContract;
    hide Ambiguous;
    hide Anchored;
    hide CommitmentFronted;
    hide RepairAccepted;
    hide HighGainRepair;
    hide TargetSatisfied;
    hide AllFilled;
    hide Collapse;
    hide Coverage;
  }

  lemma NothingFilled(c: Contract)
    requires ValidContract(c) && c.commitment.filled == []
    ensures !AlreadyAnswers(c)
  {
    assert TargetSlot(c.question.operator).value in c.question.required;
    hide Collapse;
    hide ValidHypotheses;
  }

  // ---------------------------------------------------------------- what restructuring keeps

  /** Whatever is restructured reads the same to every check, however the person hedged. */
  lemma {:induction false} RestructureKeepsMeaning(c: Contract, original: string, entropy: real, lex: Lexicon)
    requires Evaluate(c, original, entropy, lex).Ok?
    requires Evaluate(c, original, entropy, lex).value.outcome.Restructure?
    ensures var o, r := Collapse(original), Evaluate(c, original, entropy, lex).value.reconstructed;
      && HasCondition(o) == HasCondition(r) && HasCause(o) == HasCause(r)
      && Polarity(o) == Polarity(r) && Uncertainty(o) == Uncertainty(r)
      && lex.conditions(o) == lex.conditions(r) && lex.causes(o) == lex.causes(r) && lex.facts(o) == lex.facts(r)
  {
    assert ValidContract(c);
    RestructuredIff(c, original, entropy, lex);
    hide *;
    Rearranged(original, c.repair.reconstructed, c.commitment.first, c.commitment.calibration, lex);
    AnswerHandedOut(c, original, entropy, lex);
  }

  lemma Rearranged(original: string, answer: string, first: string, calibration: Calibration, lex: Lexicon)
    requires Rearranges(original, answer, first, calibration, lex)
    ensures var o, r := Collapse(original), Collapse(answer);
      && HasCondition(o) == HasCondition(r) && HasCause(o) == HasCause(r)
      && Polarity(o) == Polarity(r) && Uncertainty(o) == Uncertainty(r)
      && lex.conditions(o) == lex.conditions(r) && lex.causes(o) == lex.causes(r) && lex.facts(o) == lex.facts(r)
  {
    hide FrontMove;
    hide SemanticClauses;
    hide Collapse;
    hide HasCondition;
    hide HasCause;
    hide Polarity;
    hide Uncertainty;
    SameClausesOfFrontMove(original, answer, first);
    MarkersAreArrangementFree(original, answer);
    CollapsedMarkers(original);
    CollapsedMarkers(answer);
  }

  lemma AnswerHandedOut(c: Contract, original: string, entropy: real, lex: Lexicon)
    requires Evaluate(c, original, entropy, lex).Ok?
    ensures Evaluate(c, original, entropy, lex).value.reconstructed == Collapse(c.repair.reconstructed)
  {
    hide ValidContract;
    hide Collapse;
  }

  /** An answer without a hedge that is labelled as anything but a commitment is never restructured. */
  lemma {:induction false} UnhedgedIsNotRestructured(c: Contract, original: string, entropy: real, lex: Lexicon)
    requires Evaluate(c, original, entropy, lex).Ok?
    requires Uncertainty(original) == 0 && !c.commitment.calibration.CommittedTo?
    ensures !Evaluate(c, original, entropy, lex).value.outcome.Restructure?
  {
    assert ValidContract(c);
    RestructuredIff(c, original, entropy, lex);
    hide ValidContract;
    hide Evaluate;
    hide SemanticClauses;
    hide Uncertainty;
  }

  // ---------------------------------------------------------------- fillers

  /** The clauses begin with fillers, and the value begins right behind the last of them. */
  ghost predicate BehindFillers(
    clauses: seq<string>, value: seq<string>, fillers: seq<string>, rest: seq<string>, lex: Lexicon)
  {
    && clauses == fillers + rest && fillers != []
    && (forall i :: 0 <= i < |fillers| ==> lex.isFiller(fillers[i]))
    && (rest != [] ==> !lex.isFiller(rest[0]))
    && BeginsWith(rest, value)
  }

  /** Before the commitment there is nothing, or nothing but whole filler clauses. */
  lemma {:induction false} BehindFillersIff(container: string, value: string, lex: Lexicon)
    ensures StartsIgnoringFillers(container, value, lex)
       <==> || (Collapse(value) != "" && Collapse(value) <= Collapse(container))
            || exists fillers, rest ::
                 BehindFillers(SemanticClauses(container), SemanticClauses(value), fillers, rest, lex)
  {
    var cs, vs := SemanticClauses(container), SemanticClauses(value);
    hide SemanticClauses;
    hide Collapse;
    hide BehindFillers;
    var n := LeadingFillers(cs, lex);
    CutBehindFillers(cs, vs, lex);
    if fillers, rest :| BehindFillers(cs, vs, fillers, rest, lex) {
      OnlyCut(cs, vs, fillers, rest, lex);
    }
  }

  lemma CutBehindFillers(cs: seq<string>, vs: seq<string>, lex: Lexicon)
    ensures var n := LeadingFillers(cs, lex);
      BehindFillers(cs, vs, cs[..n], cs[n..], lex)
      <==> && vs != [] && n > 0 && |cs| - n >= |vs| && cs[n..n + |vs| - 1] == vs[..|vs| - 1]
           && vs[|vs| - 1] <= cs[n + |vs| - 1]
  {
    var n := LeadingFillers(cs, lex);
    FillersSplit(cs, lex);
    assert cs == cs[..n] + cs[n..];
    if |cs| - n >= |vs| && vs != [] {
      assert cs[n..][..|vs| - 1] == cs[n..n + |vs| - 1] && cs[n..][|vs| - 1] == cs[n + |vs| - 1];
    }
  }

  lemma OnlyCut(cs: seq<string>, vs: seq<string>, fillers: seq<string>, rest: seq<string>, lex: Lexicon)
    requires BehindFillers(cs, vs, fillers, rest, lex)
    ensures fillers == cs[..LeadingFillers(cs, lex)] && rest == cs[LeadingFillers(cs, lex)..]
  {
    FillersUnique(fillers, rest, lex);
    hide BeginsWith;
  }

  /** Whole clauses up to the last, which may go on. */
  predicate BeginsWith(clauses: seq<string>, value: seq<string>) {
    && value != [] && |clauses| >= |value| && clauses[..|value| - 1] == value[..|value| - 1]
    && value[|value| - 1] <= clauses[|value| - 1]
  }

  lemma {:induction false} FillersSplit(cs: seq<string>, lex: Lexicon)
    ensures var n := LeadingFillers(cs, lex);
      (forall i :: 0 <= i < n ==> lex.isFiller(cs[i])) && (n < |cs| ==> !lex.isFiller(cs[n]))
    decreases |cs|
  {
    if cs != [] && lex.isFiller(cs[0]) {
      FillersSplit(cs[1..], lex);
      var n := LeadingFillers(cs, lex);
      forall i | 0 <= i < n ensures lex.isFiller(cs[i]) {
        if i > 0 { assert cs[i] == cs[1..][i - 1]; }
      }
    }
  }

  lemma {:induction false} FillersUnique(fillers: seq<string>, rest: seq<string>, lex: Lexicon)
    requires (forall i :: 0 <= i < |fillers| ==> lex.isFiller(fillers[i])) && (rest != [] ==> !lex.isFiller(rest[0]))
    ensures LeadingFillers(fillers + rest, lex) == |fillers| && (fillers + rest)[|fillers|..] == rest
    decreases |fillers|
  {
    if fillers == [] {
      assert fillers + rest == rest;
    } else {
      assert (fillers + rest)[1..] == fillers[1..] + rest;
      FillersUnique(fillers[1..], rest, lex);
    }
  }
}
