/**
 The conformal boundary between speech recognition and inference: calibration of a threshold
 from a finite sample, the decision made with it, and the finite-sample coverage guarantee as a
 counting theorem over every leave-one-out calibration.
 */
module AsrRisk {
  import opened Common
  import opened ByteEncoding
  import opened Sequences

  const SCALE := 1_000_000
  const SCHEMA_VERSION := 1

  /** The bytes of "provider-confidence-v1". */
  const BUCKET: Bytes := [112, 114, 111, 118, 105, 100, 101, 114, 45, 99, 111, 110, 102, 105, 100,
                          101, 110, 99, 101, 45, 118, 49]

  datatype Artifact = Artifact(fields: Fields, digest: string)
  datatype Controller = Controller(policy: Bytes, threshold: nat, calibrated: bool)

  ghost predicate Sorted(s: seq<nat>) {
    forall i, j :: 0 <= i < j < |s| ==> s[i] <= s[j]
  }

  predicate HeaderValid(a: Artifact, sha: Bytes -> string) {
    && a.fields.schema == SCHEMA_VERSION
    && a.fields.policy != []
    && a.fields.bucket == BUCKET
    && 0 < a.fields.alpha < SCALE
    && a.fields.sampleCount != 0
    && a.fields.sampleCount == |a.fields.scores| % WORD
    && a.digest != ""
    && a.digest == sha(EncodeFields(a.fields))
  }

  /** Everything the source validates before it looks at the rank. */
  ghost predicate ArtifactValid(a: Artifact, sha: Bytes -> string) {
    && HeaderValid(a, sha)
    && Sorted(a.fields.scores)
    && forall i :: 0 <= i < |a.fields.scores| ==> a.fields.scores[i] <= SCALE
  }

  /** The ceiling of (n + 1)(1 - alpha). */
  function Rank(n: nat, alpha: nat): nat
    requires alpha < SCALE
  {
    ((n + 1) * (SCALE - alpha) + SCALE - 1) / SCALE
  }

  /** The sample is large enough for the requested error share. */
  predicate RankExists(n: nat, alpha: nat) {
    (n + 1) * alpha >= SCALE
  }

  lemma RankBounds(n: nat, alpha: nat)
    requires 0 < alpha < SCALE
    ensures 1 <= Rank(n, alpha) <= n + 1
    ensures (Rank(n, alpha) - 1) * SCALE < (n + 1) * (SCALE - alpha) <= Rank(n, alpha) * SCALE
    ensures Rank(n, alpha) <= n <==> RankExists(n, alpha)
  {
    assert (n + 1) * (SCALE - alpha) == (n + 1) * SCALE - (n + 1) * alpha;
  }

  /** The controller an artifact yields, or nothing when it is refused. */
  ghost function Calibrate(a: Artifact, sha: Bytes -> string): Option<Controller> {
    if !ArtifactValid(a, sha) then None
    else
      HeaderFacts(a, sha);
      var rank := Rank(a.fields.sampleCount, a.fields.alpha);
      if rank == 0 || rank > a.fields.sampleCount then None
      else Some(Controller(a.fields.policy, a.fields.scores[rank - 1], true))
  }

  lemma HeaderFacts(a: Artifact, sha: Bytes -> string)
    requires HeaderValid(a, sha)
    ensures 0 < a.fields.alpha < SCALE && a.fields.sampleCount <= |a.fields.scores|
    ensures |a.fields.scores| < WORD ==> a.fields.sampleCount == |a.fields.scores|
  {
    hide EncodeFields;
  }

  method NewCalibratedController(a: Artifact, sha: Bytes -> string) returns (r: Option<Controller>)
    ensures r == Calibrate(a, sha)
    ensures r.Some? <==> ArtifactValid(a, sha) && RankExists(a.fields.sampleCount, a.fields.alpha)
  {
    hide HeaderValid;
    hide Rank;
    hide RankExists;
    if !HeaderValid(a, sha) {
      return None;
    }
    var scores, n := a.fields.scores, a.fields.sampleCount;
    HeaderFacts(a, sha);
    RankBounds(n, a.fields.alpha);
    for index := 0 to |scores|
      invariant Sorted(scores[..index])
      invariant forall i :: 0 <= i < index ==> scores[i] <= SCALE
    {
      if scores[index] > SCALE || (index > 0 && scores[index - 1] > scores[index]) {
        return None;
      }
    }
    assert scores[..|scores|] == scores;
    var rank := Rank(n, a.fields.alpha);
    if rank == 0 || rank > n {
      return None;
    }
    r := Some(Controller(a.fields.policy, scores[rank - 1], true));
  }

  // ---------------------------------------------------------------- the threshold

  ghost function Covered(scores: seq<nat>, t: nat): set<nat> {
    set j: nat | j < |scores| && scores[j] <= t
  }

  ghost function Upto(k: nat): set<nat> {
    if k == 0 then {} else Upto(k - 1) + {k - 1}
  }

  lemma {:induction false} UptoSize(k: nat)
    ensures |Upto(k)| == k
    ensures forall j: nat :: j in Upto(k) <==> j < k
    decreases k
  {
    if k != 0 { UptoSize(k - 1); }
  }

  /** The threshold is the smallest calibration score that covers at least `rank` samples. */
  lemma ThresholdIsSmallestCovering(scores: seq<nat>, rank: nat)
    requires Sorted(scores) && 1 <= rank <= |scores|
    ensures |Covered(scores, scores[rank - 1])| >= rank
    ensures forall s :: s in scores && |Covered(scores, s)| >= rank ==> scores[rank - 1] <= s
  {
    var t := scores[rank - 1];
    UptoSize(rank);
    SubsetSize(Upto(rank), Covered(scores, t));
    forall s | s in scores && |Covered(scores, s)| >= rank ensures t <= s {
      if s < t {
        UptoSize(rank - 1);
        SubsetSize(Covered(scores, s), Upto(rank - 1));
      }
    }
  }

  // ---------------------------------------------------------------- the decision

  datatype Confidence = NaN | Infinite | Finite(value: real)
  datatype Evidence = Evidence(confidence: Confidence, observed: bool, nativeCommitted: bool)
  datatype Decision = Accept | Reobserve | Reject
  datatype Reason = WithinBoundary | OutsideBoundary | CoverageUnavailable | InvalidEvidence | NativeCommit

  /** Half away from zero. */
  function Round(x: real): int {
    if x >= 0.0 then (x + 0.5).Floor else -((0.5 - x).Floor)
  }

  function ConfidenceToScore(confidence: real): nat {
    var score := Round((1.0 - confidence) * SCALE as real);
    if score < 0 then 0 else if score > SCALE then SCALE else score
  }

  function Decide(c: Controller, e: Evidence): (Decision, Reason) {
    if e.nativeCommitted then
      if e.observed || e.confidence != Finite(0.0) then (Reject, InvalidEvidence) else (Accept, NativeCommit)
    else if !e.confidence.Finite? || e.confidence.value < 0.0 || e.confidence.value > 1.0
         || (!e.observed && e.confidence.value != 0.0) || (e.observed && e.confidence.value == 0.0) then
      (Reject, InvalidEvidence)
    else if !e.observed then
      (if c.calibrated then Reobserve else Accept, CoverageUnavailable)
    else if ConfidenceToScore(e.confidence.value) <= c.threshold then (Accept, WithinBoundary)
    else (Reobserve, OutsideBoundary)
  }

  /** Exactly what is accepted: a clean native commit, a score within the boundary, or, uncalibrated only, silence. */
  lemma AcceptedIff(c: Controller, e: Evidence)
    ensures Decide(c, e).0 == Accept
       <==> || (e.nativeCommitted && !e.observed && e.confidence == Finite(0.0))
            || (!e.nativeCommitted && e.observed && e.confidence.Finite? && Observable(e.confidence.value)
                && ConfidenceToScore(e.confidence.value) <= c.threshold)
            || (!e.nativeCommitted && !c.calibrated && !e.observed && e.confidence == Finite(0.0))
  {
  }

  /** A confidence that was observed and is one, or none at all. */
  predicate Coherent(e: Evidence) {
    e.confidence.Finite? && if e.observed then Observable(e.confidence.value) else e.confidence.value == 0.0
  }

  /** Exactly what is rejected: evidence that contradicts itself, committed or not. */
  lemma RejectedIff(c: Controller, e: Evidence)
    ensures Decide(c, e).0 == Reject <==> !Coherent(e) || (e.nativeCommitted && e.observed)
    ensures Decide(c, e).0 == Reject <==> Decide(c, e).1 == InvalidEvidence
  {
  }

  /** Exactly what is heard again: a score beyond the boundary, or, once calibrated, silence. */
  lemma ReobservedIff(c: Controller, e: Evidence)
    ensures Decide(c, e).0 == Reobserve
       <==> && !e.nativeCommitted && Coherent(e)
            && if e.observed then ConfidenceToScore(e.confidence.value) > c.threshold else c.calibrated
    ensures Decide(c, e).1 == OutsideBoundary <==> Decide(c, e).0 == Reobserve && e.observed
    ensures Decide(c, e).1 == CoverageUnavailable <==> !e.nativeCommitted && Coherent(e) && !e.observed
  {
  }

  /**
   The threshold of a calibrated controller: the smallest of its scores that covers a share of the
   sample, one more observation included, of at least one minus alpha.
   */
  lemma CalibratedThreshold(a: Artifact, sha: Bytes -> string)
    requires Calibrate(a, sha).Some? && |a.fields.scores| < WORD
    ensures var c, scores := Calibrate(a, sha).value, a.fields.scores;
      && c.calibrated && c.policy == a.fields.policy && c.threshold in scores
      && (|scores| + 1) * (SCALE - a.fields.alpha) <= |Covered(scores, c.threshold)| * SCALE
      && forall s :: s in scores && (|scores| + 1) * (SCALE - a.fields.alpha) <= |Covered(scores, s)| * SCALE ==>
           c.threshold <= s
  {
    HeaderFacts(a, sha);
    hide HeaderValid;
    var scores, n, alpha := a.fields.scores, a.fields.sampleCount, a.fields.alpha;
    var rank := Rank(n, alpha);
    RankBounds(n, alpha);
    ThresholdIsSmallestCovering(scores, rank);
    hide Rank;
    hide Covered;
    ScaleBound(rank, |Covered(scores, scores[rank - 1])|);
    forall s | s in scores && (n + 1) * (SCALE - alpha) <= |Covered(scores, s)| * SCALE
      ensures scores[rank - 1] <= s
    {
      RankReached(rank, |Covered(scores, s)|, (n + 1) * (SCALE - alpha));
    }
  }

  lemma ScaleBound(a: nat, b: nat)
    requires a <= b
    ensures a * SCALE <= b * SCALE
  {
  }

  lemma RankReached(rank: nat, covered: nat, need: int)
    requires rank >= 1 && (rank - 1) * SCALE < need <= covered * SCALE
    ensures rank <= covered
  {
  }

  /** An observed confidence is accepted exactly above a cut, half a score step beyond the threshold. */
  lemma AcceptanceCut(c: Controller, confidence: real)
    requires Observable(confidence)
    ensures Decide(c, Observed(confidence)).0 == Accept
       <==> confidence * SCALE as real > SCALE as real - c.threshold as real - 0.5
  {
    var x := (1.0 - confidence) * SCALE as real;
    assert x == SCALE as real - confidence * SCALE as real;
    assert 0.0 <= x <= SCALE as real;
    hide Decide;
    AcceptedIff(c, Observed(confidence));
  }

  lemma ScoreAntitone(x: real, y: real)
    requires x <= y
    ensures ConfidenceToScore(y) <= ConfidenceToScore(x)
  {
    assert (1.0 - y) * SCALE as real <= (1.0 - x) * SCALE as real;
  }

  predicate Observable(confidence: real) {
    0.0 < confidence <= 1.0
  }

  function Observed(confidence: real): Evidence {
    Evidence(Finite(confidence), true, false)
  }

  /** More confidence never turns an acceptance into anything else. */
  lemma AcceptanceIsUpwardClosed(c: Controller, x: real, y: real)
    requires Observable(x) && Observable(y) && x <= y
    requires Decide(c, Observed(x)).0 == Accept
    ensures Decide(c, Observed(y)).0 == Accept
  {
    ScoreAntitone(x, y);
  }

  // ---------------------------------------------------------------- coverage as counting

  /** How many entries lie strictly below `v`. */
  ghost function Below(s: seq<nat>, v: nat): nat {
    if s == [] then 0 else (if s[0] < v then 1 else 0) + Below(s[1..], v)
  }

  ghost function BelowSet(s: seq<nat>, v: nat): set<nat> {
    set j: nat | j < |s| && s[j] < v
  }

  lemma {:induction false} BelowConcat(a: seq<nat>, b: seq<nat>, v: nat)
    ensures Below(a + b, v) == Below(a, v) + Below(b, v)
    decreases |a|
  {
    if a == [] {
      assert a + b == b;
    } else {
      assert (a + b)[1..] == a[1..] + b;
      BelowConcat(a[1..], b, v);
    }
  }

  lemma BelowWithout(s: seq<nat>, k: nat, v: nat)
    requires k < |s|
    ensures Below(s, v) == Below(Without(s, k), v) + if s[k] < v then 1 else 0
  {
    assert s == s[..k] + ([s[k]] + s[k + 1..]);
    BelowConcat(s[..k], [s[k]] + s[k + 1..], v);
    BelowConcat([s[k]], s[k + 1..], v);
    BelowConcat(s[..k], s[k + 1..], v);
  }

  /** Sorting or reordering a sample does not change how many entries lie below a value. */
  lemma {:induction false} BelowOfPermutation(s: seq<nat>, t: seq<nat>, v: nat)
    requires multiset(s) == multiset(t)
    ensures Below(s, v) == Below(t, v)
    decreases |s|
  {
    if s == [] {
      assert |multiset(t)| == 0;
    } else {
      hide Below;
      var k := Matched(s, t);
      BelowOfPermutation(Without(s, 0), Without(t, k), v);
      BelowWithout(s, 0, v);
      BelowWithout(t, k, v);
    }
  }

  lemma {:induction false} BelowSetSize(s: seq<nat>, v: nat)
    ensures |BelowSet(s, v)| == Below(s, v)
    decreases |s|
  {
    if s == [] {
      assert BelowSet(s, v) == {};
    } else {
      var n := |s| - 1;
      BelowSetSize(s[..n], v);
      BelowConcat(s[..n], [s[n]], v);
      assert s == s[..n] + [s[n]];
      assert BelowSet(s, v) == if s[n] < v then BelowSet(s[..n], v) + {n} else BelowSet(s[..n], v);
    }
  }

  /** The calibration sample for `i`: the other scores, sorted. */
  ghost predicate LeavesOut(scores: seq<nat>, z: seq<nat>, i: nat)
    requires i < |z|
  {
    Sorted(scores) && multiset(scores) == multiset(Without(z, i))
  }

  /** A score above its own leave-one-out threshold has at least `rank` scores below it. */
  lemma MissHasManyBelow(scores: seq<nat>, z: seq<nat>, i: nat, rank: nat)
    requires i < |z| && LeavesOut(scores, z, i) && 1 <= rank <= |scores|
    requires z[i] > scores[rank - 1]
    ensures |BelowSet(z, z[i])| >= rank
  {
    var v := z[i];
    UptoSize(rank);
    SubsetSize(Upto(rank), BelowSet(scores, v));
    BelowSetSize(scores, v);
    BelowSetSize(z, v);
    BelowOfPermutation(scores, Without(z, i), v);
    BelowWithout(z, i, v);
  }

  lemma {:induction false} LowestOf(m: set<nat>, z: seq<nat>) returns (low: nat)
    requires m != {} && forall i :: i in m ==> i < |z|
    ensures low in m && forall i :: i in m ==> z[low] <= z[i]
    decreases |m|
  {
    low :| low in m;
    if m != {low} {
      var other := LowestOf(m - {low}, z);
      if z[other] < z[low] { low := other; }
    }
  }

  /** If every index in `missed` has at least `rank` scores below it, the rest number at least `rank`. */
  lemma FewMisses(missed: set<nat>, z: seq<nat>, rank: nat)
    requires forall i :: i in missed ==> i < |z| && |BelowSet(z, z[i])| >= rank
    requires rank <= |z|
    ensures |missed| + rank <= |z|
  {
    if missed == {} {
      return;
    }
    var low := LowestOf(missed, z);
    var below := BelowSet(z, z[low]);
    assert missed !! below;
    UptoSize(|z|);
    SubsetSize(missed + below, Upto(|z|));
    assert |missed + below| == |missed| + |below|;
  }

  ghost function ScoresOf(confidences: seq<real>): seq<nat> {
    seq(|confidences|, i requires 0 <= i < |confidences| => ConfidenceToScore(confidences[i]))
  }

  /** Observation `i` is judged by the controller calibrated on all the other observations. */
  ghost predicate JudgedByOthers(
    confidences: seq<real>, a: Artifact, sha: Bytes -> string, alpha: nat, i: nat)
    requires i < |confidences|
  {
    a.fields.alpha == alpha && Calibrate(a, sha).Some? && LeavesOut(a.fields.scores, ScoresOf(confidences), i)
  }

  ghost predicate Refused(confidence: real, a: Artifact, sha: Bytes -> string) {
    Calibrate(a, sha).Some? && Decide(Calibrate(a, sha).value, Observed(confidence)).0 != Accept
  }

  lemma RefusalHasManyBelow(confidences: seq<real>, a: Artifact, sha: Bytes -> string, alpha: nat, i: nat)
    requires i < |confidences| <= WORD && Observable(confidences[i])
    requires JudgedByOthers(confidences, a, sha, alpha, i)
    requires Refused(confidences[i], a, sha)
    ensures 0 < alpha < SCALE
    ensures |BelowSet(ScoresOf(confidences), ScoresOf(confidences)[i])| >= Rank(|confidences| - 1, alpha)
  {
    hide ConfidenceToScore;
    hide Rank;
    hide HeaderValid;
    var z, scores := ScoresOf(confidences), a.fields.scores;
    assert |scores| == |z| - 1 by {
      assert |multiset(scores)| == |multiset(Without(z, i))|;
    }
    HeaderFacts(a, sha);
    MissHasManyBelow(scores, z, i, Rank(|scores|, alpha));
  }

  ghost function RefusedSet(confidences: seq<real>, artifacts: seq<Artifact>, sha: Bytes -> string): set<nat>
    requires |confidences| == |artifacts|
  {
    set i: nat | i < |confidences| && Refused(confidences[i], artifacts[i], sha)
  }

  lemma FewRefusals(confidences: seq<real>, artifacts: seq<Artifact>, sha: Bytes -> string, alpha: nat)
    requires 0 < |confidences| == |artifacts| <= WORD && 0 < alpha < SCALE
    requires Rank(|confidences| - 1, alpha) <= |confidences|
    requires forall i :: 0 <= i < |confidences| ==> Observable(confidences[i])
    requires forall i :: 0 <= i < |confidences| ==> JudgedByOthers(confidences, artifacts[i], sha, alpha, i)
    ensures |RefusedSet(confidences, artifacts, sha)| + Rank(|confidences| - 1, alpha) <= |confidences|
  {
    hide Rank;
    hide JudgedByOthers;
    hide Refused;
    hide BelowSet;
    var refused, z := RefusedSet(confidences, artifacts, sha), ScoresOf(confidences);
    var rank := Rank(|confidences| - 1, alpha);
    forall i | i in refused ensures i < |z| && |BelowSet(z, z[i])| >= rank {
      RefusalHasManyBelow(confidences, artifacts[i], sha, alpha, i);
    }
    FewMisses(refused, z, rank);
  }

  /**
   The coverage guarantee.  Take any n + 1 observed confidences, and decide each one with the
   controller calibrated on the other n.  At most alpha (n + 1) of them are not accepted.
   */
  lemma {:induction false} LeaveOneOutCoverage(
    confidences: seq<real>, artifacts: seq<Artifact>, sha: Bytes -> string, alpha: nat)
    requires |confidences| == |artifacts| <= WORD
    requires forall i :: 0 <= i < |confidences| ==> Observable(confidences[i])
    requires forall i :: 0 <= i < |confidences| ==> JudgedByOthers(confidences, artifacts[i], sha, alpha, i)
    ensures |RefusedSet(confidences, artifacts, sha)| * SCALE <= alpha * |confidences|
  {
    var total := |confidences|;
    if total == 0 {
      assert RefusedSet(confidences, artifacts, sha) == {};
    } else {
      assert 0 < alpha < SCALE by {
        assert JudgedByOthers(confidences, artifacts[0], sha, alpha, 0);
        HeaderFacts(artifacts[0], sha);
      }
      hide JudgedByOthers;
      hide RefusedSet;
      hide Rank;
      RankBounds(total - 1, alpha);
      FewRefusals(confidences, artifacts, sha, alpha);
      Share(|RefusedSet(confidences, artifacts, sha)|, total, Rank(total - 1, alpha), alpha);
    }
  }

  lemma Share(missed: nat, total: nat, rank: nat, alpha: nat)
    requires missed + rank <= total && alpha < SCALE && total * (SCALE - alpha) <= rank * SCALE
    ensures missed * SCALE <= alpha * total
  {
    assert total * (SCALE - alpha) == total * SCALE - alpha * total;
  }
}
