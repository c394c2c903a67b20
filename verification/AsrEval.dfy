/**
 The recognition release gate: per-sample judgement, the totals behind the four reported rates,
 and the decision that lets a challenger replace the baseline.
 */
module AsrEval {
  import EditDistance

  const PPM := 1_000_000

  datatype Bucket = QuietSpeech | Mutter | NormalSpeech | Cough | Hvac | PlaybackLeak
  datatype ErrorBucket = Exact | Minor | Major | Miss
  datatype Sample = Sample(bucket: Bucket, reference: string)

  predicate IsSpeech(b: Bucket) {
    b.QuietSpeech? || b.Mutter? || b.NormalSpeech?
  }

  /** What one sample contributes, once its texts are normalized. */
  datatype Verdict =
    | Quiet(errors: nat, characters: nat)
    | Normal(errors: nat, characters: nat)
    | NoSpeech(activated: bool)

  function Judge(sample: Sample, hypothesis: string, normalize: string -> string): Verdict {
    var heard := normalize(hypothesis);
    if !IsSpeech(sample.bucket) then NoSpeech(heard != "")
    else
      var reference := normalize(sample.reference);
      var errors := EditDistance.Lev(reference, heard);
      if sample.bucket.NormalSpeech? then Normal(errors, |reference|) else Quiet(errors, |reference|)
  }

  function ErrorBucketOf(errors: nat, characters: nat): ErrorBucket {
    if errors == 0 then Exact
    else if errors * 5 <= characters then Minor
    else if errors * 2 <= characters then Major
    else Miss
  }

  /** Parts per million, truncated and capped; an empty denominator counts as the worst rate. */
  function FractionPPM(numerator: nat, denominator: int): (r: nat)
    ensures r <= PPM
  {
    if denominator <= 0 then PPM
    else
      var value := numerator * PPM / denominator;
      assert value >= 0 by { DivisionBounds(numerator * PPM, denominator); }
      if value > PPM then PPM else value
  }

  /** The rate is the true ratio rounded down, and saturates exactly from one upwards or on no data. */
  lemma FractionIsRatio(numerator: nat, denominator: int)
    ensures var r := FractionPPM(numerator, denominator);
      if numerator >= denominator then r == PPM
      else r < PPM && r * denominator <= numerator * PPM < (r + 1) * denominator
  {
    if denominator > 0 {
      var value := numerator * PPM / denominator;
      DivisionBounds(numerator * PPM, denominator);
      CapBounds(numerator, denominator, value);
    }
  }

  lemma DivisionBounds(n: nat, d: nat)
    requires d > 0
    ensures n / d >= 0 && n / d * d <= n < (n / d + 1) * d
  {
    assert n == n / d * d + n % d;
  }

  lemma ScaleUp(a: nat, b: nat, c: nat)
    requires a <= b
    ensures a * c <= b * c
  {
  }

  lemma CapBounds(n: nat, d: nat, v: nat)
    requires d > 0 && v * d <= n * PPM < (v + 1) * d
    ensures n < d <==> v < PPM
  {
    if v >= PPM { ScaleUp(PPM, v, d); } else { ScaleUp(v + 1, PPM, d); }
  }

  // ---------------------------------------------------------------- totals over a corpus

  type Id = string
  type Verdicts = map<Id, Verdict>

  function VerdictsOf(samples: map<Id, Sample>, results: map<Id, string>, normalize: string -> string): Verdicts {
    map id | id in samples :: Judge(samples[id], if id in results then results[id] else "", normalize)
  }

  /** The total of `f` over every judged sample, in whatever order they are taken. */
  ghost function Sum(vs: Verdicts, f: Verdict -> nat): nat
    decreases |vs|
  {
    if vs == map[] then 0
    else
      var id :| id in vs;
      f(vs[id]) + Sum(vs - {id}, f)
  }

  lemma {:induction false} SumWithout(vs: Verdicts, id: Id, f: Verdict -> nat)
    requires id in vs
    ensures Sum(vs, f) == f(vs[id]) + Sum(vs - {id}, f)
    decreases |vs|
  {
    var first :| first in vs && Sum(vs, f) == f(vs[first]) + Sum(vs - {first}, f);
    if first != id {
      SumWithout(vs - {first}, id, f);
      SumWithout(vs - {id}, first, f);
      assert vs - {first} - {id} == vs - {id} - {first};
    }
  }

  lemma SumAdd(vs: Verdicts, id: Id, v: Verdict, f: Verdict -> nat)
    requires id !in vs
    ensures Sum(vs[id := v], f) == Sum(vs, f) + f(v)
  {
    SumWithout(vs[id := v], id, f);
    assert vs[id := v] - {id} == vs;
  }

  function One(b: bool): nat { if b then 1 else 0 }

  predicate Speech(v: Verdict) { !v.NoSpeech? }
  predicate Recognized(v: Verdict) { v.Quiet? && v.errors * 2 <= v.characters }
  predicate Lands(v: Verdict, b: ErrorBucket) { Speech(v) && ErrorBucketOf(v.errors, v.characters) == b }

  function QuietCount(v: Verdict): nat { One(v.Quiet?) }
  function RecognizedCount(v: Verdict): nat { One(Recognized(v)) }
  function QuietErrors(v: Verdict): nat { if v.Quiet? then v.errors else 0 }
  function QuietCharacters(v: Verdict): nat { if v.Quiet? then v.characters else 0 }
  function NormalErrors(v: Verdict): nat { if v.Normal? then v.errors else 0 }
  function NormalCharacters(v: Verdict): nat { if v.Normal? then v.characters else 0 }
  function NoSpeechCount(v: Verdict): nat { One(v.NoSpeech?) }
  function ActivationCount(v: Verdict): nat { One(v.NoSpeech? && v.activated) }
  function ExactCount(v: Verdict): nat { One(Lands(v, Exact)) }
  function MinorCount(v: Verdict): nat { One(Lands(v, Minor)) }
  function MajorCount(v: Verdict): nat { One(Lands(v, Major)) }
  function MissCount(v: Verdict): nat { One(Lands(v, Miss)) }

  datatype Totals = Totals(
    quiet: nat, recognized: nat, quietErrors: nat, quietCharacters: nat,
    normalErrors: nat, normalCharacters: nat, noSpeech: nat, activations: nat,
    buckets: map<ErrorBucket, nat>)

  ghost function TotalsOf(vs: Verdicts): Totals {
    Totals(Sum(vs, QuietCount), Sum(vs, RecognizedCount), Sum(vs, QuietErrors), Sum(vs, QuietCharacters),
           Sum(vs, NormalErrors), Sum(vs, NormalCharacters), Sum(vs, NoSpeechCount), Sum(vs, ActivationCount),
           BucketTotals(vs))
  }

  ghost function BucketTotals(vs: Verdicts): map<ErrorBucket, nat> {
    map[Exact := Sum(vs, ExactCount), Minor := Sum(vs, MinorCount),
        Major := Sum(vs, MajorCount), Miss := Sum(vs, MissCount)]
  }

  /** The running totals after one more sample. */
  function Plus(t: Totals, v: Verdict): Totals
    requires t.buckets.Keys == {Exact, Minor, Major, Miss}
  {
    var bucket := if v.NoSpeech? then Exact else ErrorBucketOf(v.errors, v.characters);
    match v
    case Quiet(e, c) => t.(quiet := t.quiet + 1, recognized := t.recognized + One(e * 2 <= c),
      quietErrors := t.quietErrors + e, quietCharacters := t.quietCharacters + c,
      buckets := t.buckets[bucket := t.buckets[bucket] + 1])
    case Normal(e, c) => t.(normalErrors := t.normalErrors + e, normalCharacters := t.normalCharacters + c,
      buckets := t.buckets[bucket := t.buckets[bucket] + 1])
    case NoSpeech(a) => t.(noSpeech := t.noSpeech + 1, activations := t.activations + One(a))
  }

  lemma TotalsAdd(vs: Verdicts, id: Id, v: Verdict)
    requires id !in vs
    ensures TotalsOf(vs[id := v]) == Plus(TotalsOf(vs), v)
  {
    hide Sum;
    BucketsAdd(vs, id, v);
    hide ErrorBucketOf;
    SumAdd(vs, id, v, QuietCount);
    SumAdd(vs, id, v, RecognizedCount);
    SumAdd(vs, id, v, QuietErrors);
    SumAdd(vs, id, v, QuietCharacters);
    SumAdd(vs, id, v, NormalErrors);
    SumAdd(vs, id, v, NormalCharacters);
    SumAdd(vs, id, v, NoSpeechCount);
    SumAdd(vs, id, v, ActivationCount);
  }

  /** A speech sample lands in one bucket and leaves the other three alone. */
  lemma BucketsAdd(vs: Verdicts, id: Id, v: Verdict)
    requires id !in vs
    ensures BucketTotals(vs[id := v]) ==
      if v.NoSpeech? then BucketTotals(vs)
      else
        var b := ErrorBucketOf(v.errors, v.characters);
        BucketTotals(vs)[b := BucketTotals(vs)[b] + 1]
  {
    hide Sum;
    hide ErrorBucketOf;
    SumAdd(vs, id, v, ExactCount);
    SumAdd(vs, id, v, MinorCount);
    SumAdd(vs, id, v, MajorCount);
    SumAdd(vs, id, v, MissCount);
  }

  datatype Metrics = Metrics(
    quietRecall: nat, quietCER: nat, normalCER: nat, falseActivation: nat,
    buckets: map<ErrorBucket, nat>)

  /** The reported rates are the exact fractions of the corpus totals. */
  ghost predicate Reports(m: Metrics, vs: Verdicts) {
    var t := TotalsOf(vs);
    && m.quietRecall == FractionPPM(t.recognized, t.quiet)
    && m.quietCER == FractionPPM(t.quietErrors, t.quietCharacters)
    && m.normalCER == FractionPPM(t.normalErrors, t.normalCharacters)
    && m.falseActivation == FractionPPM(t.activations, t.noSpeech)
    && m.buckets == t.buckets
  }

  method JudgeSample(sample: Sample, result: string, normalize: string -> string) returns (v: Verdict)
    ensures v == Judge(sample, result, normalize)
    ensures sample.bucket == NormalSpeech ==>
      && v.Normal? && v.characters == |normalize(sample.reference)|
      && EditDistance.IsDistance(normalize(sample.reference), normalize(result), v.errors)
    ensures sample.bucket == QuietSpeech || sample.bucket == Mutter ==>
      && v.Quiet? && v.characters == |normalize(sample.reference)|
      && EditDistance.IsDistance(normalize(sample.reference), normalize(result), v.errors)
    ensures sample.bucket == Cough || sample.bucket == Hvac || sample.bucket == PlaybackLeak ==>
      v == NoSpeech(normalize(result) != "")
  {
    hide EditDistance.Lev;
    hide EditDistance.IsDistance;
    var hypothesis := normalize(result);
    if !IsSpeech(sample.bucket) {
      return NoSpeech(hypothesis != "");
    }
    var reference := normalize(sample.reference);
    var errors := EditDistance.Compute(reference, hypothesis);
    v := if sample.bucket.NormalSpeech? then Normal(errors, |reference|) else Quiet(errors, |reference|);
  }

  // ---------------------------------------------------------------- the report on the samples

  /** The total of `f` over some samples. */
  ghost function Total(ids: set<Id>, f: Id -> nat): nat
    decreases |ids|
  {
    if ids == {} then 0
    else
      var id :| id in ids;
      f(id) + Total(ids - {id}, f)
  }

  lemma {:induction false} TotalWithout(ids: set<Id>, id: Id, f: Id -> nat)
    requires id in ids
    ensures Total(ids, f) == f(id) + Total(ids - {id}, f)
    decreases |ids|
  {
    var first :| first in ids && Total(ids, f) == f(first) + Total(ids - {first}, f);
    if first != id {
      TotalWithout(ids - {first}, id, f);
      TotalWithout(ids - {id}, first, f);
      assert ids - {first} - {id} == ids - {id} - {first};
    }
  }

  /** A total over verdicts that only some samples contribute to. */
  lemma {:induction false} SumIsTotal(vs: Verdicts, f: Verdict -> nat, ids: set<Id>, h: Id -> nat)
    requires ids <= vs.Keys && forall id :: id in vs ==> f(vs[id]) == if id in ids then h(id) else 0
    ensures Sum(vs, f) == Total(ids, h)
    decreases |vs|
  {
    if vs != map[] {
      var id :| id in vs;
      SumWithout(vs, id, f);
      SumIsTotal(vs - {id}, f, ids - {id}, h);
      if id in ids { TotalWithout(ids, id, h); } else { assert ids - {id} == ids; }
    }
  }

  type Samples = map<Id, Sample>

  function QuietIds(samples: Samples): set<Id> {
    set id | id in samples && (samples[id].bucket == QuietSpeech || samples[id].bucket == Mutter)
  }

  function NormalIds(samples: Samples): set<Id> {
    set id | id in samples && samples[id].bucket == NormalSpeech
  }

  function SilentIds(samples: Samples): set<Id> {
    set id | id in samples
      && (samples[id].bucket == Cough || samples[id].bucket == Hvac || samples[id].bucket == PlaybackLeak)
  }

  /** What the recognizer heard, normalized; nothing for a sample without a result. */
  function Heard(results: map<Id, string>, normalize: string -> string): Id -> string {
    id => normalize(if id in results then results[id] else "")
  }

  function Size(samples: Samples, normalize: string -> string): Id -> nat {
    id => if id in samples then |normalize(samples[id].reference)| else 0
  }

  /** `errors` is the shortest edit distance of every speech sample. */
  ghost predicate Distances(
    samples: Samples, results: map<Id, string>, normalize: string -> string, errors: Id -> nat)
  {
    forall id :: id in QuietIds(samples) + NormalIds(samples) ==>
      EditDistance.IsDistance(normalize(samples[id].reference), Heard(results, normalize)(id), errors(id))
  }

  /** What a report says about the samples themselves. */
  ghost predicate Describes(
    m: Metrics, samples: Samples, results: map<Id, string>, normalize: string -> string, errors: Id -> nat)
  {
    var quiet, normal, silent := QuietIds(samples), NormalIds(samples), SilentIds(samples);
    var speech, size, heard := quiet + normal, Size(samples, normalize), Heard(results, normalize);
    && m.quietRecall == FractionPPM(|set id | id in quiet && 2 * errors(id) <= size(id)|, |quiet|)
    && m.quietCER == FractionPPM(Total(quiet, errors), Total(quiet, size))
    && m.normalCER == FractionPPM(Total(normal, errors), Total(normal, size))
    && m.falseActivation == FractionPPM(|set id | id in silent && heard(id) != ""|, |silent|)
    && m.buckets == map[
         Exact := |set id | id in speech && errors(id) == 0|,
         Minor := |set id | id in speech && errors(id) > 0 && 5 * errors(id) <= size(id)|,
         Major := |set id | id in speech && 5 * errors(id) > size(id) && 2 * errors(id) <= size(id)|,
         Miss := |set id | id in speech && errors(id) > 0 && 2 * errors(id) > size(id)|]
  }

  /** The verdict on a sample, by its bucket. */
  lemma VerdictIs(
    samples: Samples, results: map<Id, string>, normalize: string -> string, errors: Id -> nat, id: Id)
    requires id in samples && Distances(samples, results, normalize, errors)
    ensures var v := VerdictsOf(samples, results, normalize)[id];
      && (id in QuietIds(samples) ==> v == Quiet(errors(id), Size(samples, normalize)(id)))
      && (id in NormalIds(samples) ==> v == Normal(errors(id), Size(samples, normalize)(id)))
      && (id in SilentIds(samples) ==> v == NoSpeech(Heard(results, normalize)(id) != ""))
      && (id in QuietIds(samples) || id in NormalIds(samples) || id in SilentIds(samples))
  {
    EditDistance.LevIsDistance(normalize(samples[id].reference), Heard(results, normalize)(id));
    hide EditDistance.Lev;
    hide EditDistance.Reaches;
  }

  ghost predicate Judged(vs: Verdicts, samples: Samples, results: map<Id, string>, normalize: string -> string,
                         errors: Id -> nat)
  {
    && vs.Keys == samples.Keys
    && forall id :: id in vs ==>
         && (id in QuietIds(samples) <==> vs[id].Quiet?) && (id in NormalIds(samples) <==> vs[id].Normal?)
         && (id in SilentIds(samples) <==> vs[id].NoSpeech?)
         && (!vs[id].NoSpeech? ==> vs[id].errors == errors(id) && vs[id].characters == Size(samples, normalize)(id))
         && (vs[id].NoSpeech? ==> (vs[id].activated <==> Heard(results, normalize)(id) != ""))
  }

  lemma IdsApart(samples: Samples)
    ensures QuietIds(samples) !! NormalIds(samples) && QuietIds(samples) !! SilentIds(samples)
    ensures NormalIds(samples) !! SilentIds(samples)
  {
  }

  lemma AllJudged(samples: Samples, results: map<Id, string>, normalize: string -> string, errors: Id -> nat)
    requires Distances(samples, results, normalize, errors)
    ensures Judged(VerdictsOf(samples, results, normalize), samples, results, normalize, errors)
  {
    var vs := VerdictsOf(samples, results, normalize);
    IdsApart(samples);
    hide Judge;
    forall id | id in samples
      ensures id in vs
      ensures id in QuietIds(samples) ==> vs[id] == Quiet(errors(id), Size(samples, normalize)(id))
      ensures id in NormalIds(samples) ==> vs[id] == Normal(errors(id), Size(samples, normalize)(id))
      ensures id in SilentIds(samples) ==> vs[id] == NoSpeech(Heard(results, normalize)(id) != "")
      ensures id in QuietIds(samples) || id in NormalIds(samples) || id in SilentIds(samples)
    {
      VerdictIs(samples, results, normalize, errors, id);
    }
    hide QuietIds;
    hide NormalIds;
    hide SilentIds;
    hide Size;
    hide Heard;
  }

  lemma DescribesRates(m: Metrics, vs: Verdicts, samples: Samples, results: map<Id, string>,
                       normalize: string -> string, errors: Id -> nat)
    requires Judged(vs, samples, results, normalize, errors)
    ensures var quiet, normal, size := QuietIds(samples), NormalIds(samples), Size(samples, normalize);
      && Sum(vs, QuietErrors) == Total(quiet, errors) && Sum(vs, QuietCharacters) == Total(quiet, size)
      && Sum(vs, NormalErrors) == Total(normal, errors) && Sum(vs, NormalCharacters) == Total(normal, size)
  {
    var quiet, normal, size := QuietIds(samples), NormalIds(samples), Size(samples, normalize);
    SubsetIds(samples);
    hide QuietIds;
    hide NormalIds;
    hide SilentIds;
    hide Size;
    hide Heard;
    SumIsTotal(vs, QuietErrors, quiet, errors);
    SumIsTotal(vs, QuietCharacters, quiet, size);
    SumIsTotal(vs, NormalErrors, normal, errors);
    SumIsTotal(vs, NormalCharacters, normal, size);
  }

  lemma SubsetIds(samples: Samples)
    ensures QuietIds(samples) <= samples.Keys && NormalIds(samples) <= samples.Keys
    ensures SilentIds(samples) <= samples.Keys
  {
  }

  lemma DescribesCounts(vs: Verdicts, samples: Samples, results: map<Id, string>,
                        normalize: string -> string, errors: Id -> nat)
    requires Judged(vs, samples, results, normalize, errors)
    ensures var quiet, silent := QuietIds(samples), SilentIds(samples);
      var size, heard := Size(samples, normalize), Heard(results, normalize);
      && Sum(vs, RecognizedCount) == |set id | id in quiet && 2 * errors(id) <= size(id)|
      && Sum(vs, QuietCount) == |quiet| && Sum(vs, NoSpeechCount) == |silent|
      && Sum(vs, ActivationCount) == |set id | id in silent && heard(id) != ""|
  {
    SubsetIds(samples);
    var quiet, silent := QuietIds(samples), SilentIds(samples);
    var size, heard := Size(samples, normalize), Heard(results, normalize);
    hide QuietIds;
    hide NormalIds;
    hide SilentIds;
    hide Size;
    hide Heard;
    SumCounts(vs, Recognized, RecognizedCount);
    SumCounts(vs, IsQuiet, QuietCount);
    SumCounts(vs, IsNoSpeech, NoSpeechCount);
    SumCounts(vs, FalselyActivated, ActivationCount);
    assert Those(vs, Recognized) == set id | id in quiet && 2 * errors(id) <= size(id);
    assert Those(vs, IsQuiet) == quiet && Those(vs, IsNoSpeech) == silent;
    assert Those(vs, FalselyActivated) == set id | id in silent && heard(id) != "";
  }

  lemma DescribesBuckets(vs: Verdicts, samples: Samples, results: map<Id, string>,
                         normalize: string -> string, errors: Id -> nat)
    requires Judged(vs, samples, results, normalize, errors)
    ensures var speech, size := QuietIds(samples) + NormalIds(samples), Size(samples, normalize);
      && Sum(vs, ExactCount) == |set id | id in speech && errors(id) == 0|
      && Sum(vs, MinorCount) == |set id | id in speech && errors(id) > 0 && 5 * errors(id) <= size(id)|
      && Sum(vs, MajorCount) == |set id | id in speech && 5 * errors(id) > size(id) && 2 * errors(id) <= size(id)|
      && Sum(vs, MissCount) == |set id | id in speech && errors(id) > 0 && 2 * errors(id) > size(id)|
  {
    SubsetIds(samples);
    var speech, size := QuietIds(samples) + NormalIds(samples), Size(samples, normalize);
    hide QuietIds;
    hide NormalIds;
    hide SilentIds;
    hide Size;
    hide Heard;
    InBucket(vs, samples, results, normalize, errors, Exact, ExactCount);
    InBucket(vs, samples, results, normalize, errors, Minor, MinorCount);
    InBucket(vs, samples, results, normalize, errors, Major, MajorCount);
    InBucket(vs, samples, results, normalize, errors, Miss, MissCount);
    hide Judged;
    BucketsOf(speech, errors, size);
  }

  lemma BucketsOf(speech: set<Id>, errors: Id -> nat, size: Id -> nat)
    ensures (set id | id in speech && ErrorBucketOf(errors(id), size(id)) == Exact)
         == (set id | id in speech && errors(id) == 0)
    ensures (set id | id in speech && ErrorBucketOf(errors(id), size(id)) == Minor)
         == (set id | id in speech && errors(id) > 0 && 5 * errors(id) <= size(id))
    ensures (set id | id in speech && ErrorBucketOf(errors(id), size(id)) == Major)
         == (set id | id in speech && 5 * errors(id) > size(id) && 2 * errors(id) <= size(id))
    ensures (set id | id in speech && ErrorBucketOf(errors(id), size(id)) == Miss)
         == (set id | id in speech && errors(id) > 0 && 2 * errors(id) > size(id))
  {
  }

  lemma InBucket(vs: Verdicts, samples: Samples, results: map<Id, string>, normalize: string -> string,
                 errors: Id -> nat, b: ErrorBucket, f: Verdict -> nat)
    requires Judged(vs, samples, results, normalize, errors) && forall v :: f(v) == One(Lands(v, b))
    ensures var speech, size := QuietIds(samples) + NormalIds(samples), Size(samples, normalize);
      Sum(vs, f) == |set id | id in speech && ErrorBucketOf(errors(id), size(id)) == b|
  {
    SubsetIds(samples);
    var speech, size := QuietIds(samples) + NormalIds(samples), Size(samples, normalize);
    hide QuietIds;
    hide NormalIds;
    hide SilentIds;
    hide Size;
    hide Heard;
    hide ErrorBucketOf;
    SumCounts(vs, v => Lands(v, b), f);
    assert Those(vs, v => Lands(v, b)) == set id | id in speech && ErrorBucketOf(errors(id), size(id)) == b;
  }

  /** A report on the verdicts describes the samples behind them. */
  lemma {:induction false} ReportDescribes(
    m: Metrics, samples: Samples, results: map<Id, string>, normalize: string -> string, errors: Id -> nat)
    requires Reports(m, VerdictsOf(samples, results, normalize)) && Distances(samples, results, normalize, errors)
    ensures Describes(m, samples, results, normalize, errors)
  {
    var vs := VerdictsOf(samples, results, normalize);
    AllJudged(samples, results, normalize, errors);
    hide VerdictsOf;
    hide Judged;
    hide Distances;
    DescribesRates(m, vs, samples, results, normalize, errors);
    DescribesCounts(vs, samples, results, normalize, errors);
    DescribesBuckets(vs, samples, results, normalize, errors);
    hide QuietIds;
    hide NormalIds;
    hide SilentIds;
    hide Size;
    hide Heard;
    hide FractionPPM;
  }

  /** One pass over the samples; the pass order cannot be observed in the result. */
  method CountSamples(samples: Samples, results: map<Id, string>, normalize: string -> string) returns (totals: Totals)
    ensures totals == TotalsOf(VerdictsOf(samples, results, normalize))
  {
    var buckets := map[Exact := 0, Minor := 0, Major := 0, Miss := 0];
    totals := Totals(0, 0, 0, 0, 0, 0, 0, 0, buckets);
    var todo := samples.Keys;
    ghost var all := VerdictsOf(samples, results, normalize);
    ghost var seen: Verdicts := map[];
    assert totals == TotalsOf(seen);
    hide Judge;
    while todo != {}
      invariant todo <= samples.Keys && seen.Keys == samples.Keys - todo
      invariant forall id :: id in seen ==> seen[id] == all[id]
      invariant totals == TotalsOf(seen)
    {
      var id :| id in todo;
      todo := todo - {id};
      var v := JudgeSample(samples[id], if id in results then results[id] else "", normalize);
      TotalsAdd(seen, id, v);
      totals := Plus(totals, v);
      seen := seen[id := v];
    }
    assert seen == all;
  }

  method Measure(samples: Samples, results: map<Id, string>, normalize: string -> string) returns (metrics: Metrics)
    ensures Reports(metrics, VerdictsOf(samples, results, normalize))
    ensures forall errors: Id -> nat :: Distances(samples, results, normalize, errors) ==>
      Describes(metrics, samples, results, normalize, errors)
  {
    hide VerdictsOf;
    hide Describes;
    hide Distances;
    var totals := CountSamples(samples, results, normalize);
    metrics := Metrics(
      FractionPPM(totals.recognized, totals.quiet),
      FractionPPM(totals.quietErrors, totals.quietCharacters),
      FractionPPM(totals.normalErrors, totals.normalCharacters),
      FractionPPM(totals.activations, totals.noSpeech),
      totals.buckets);
    forall errors: Id -> nat | Distances(samples, results, normalize, errors)
      ensures Describes(metrics, samples, results, normalize, errors)
    {
      ReportDescribes(metrics, samples, results, normalize, errors);
    }
  }

  // ---------------------------------------------------------------- what the totals count

  ghost function Those(vs: Verdicts, p: Verdict -> bool): set<Id> {
    set id | id in vs && p(vs[id])
  }

  lemma ThoseWithout(vs: Verdicts, id: Id, p: Verdict -> bool)
    requires id in vs
    ensures |Those(vs, p)| == |Those(vs - {id}, p)| + One(p(vs[id]))
  {
    var rest := Those(vs - {id}, p);
    assert Those(vs, p) == if p(vs[id]) then rest + {id} else rest;
  }

  /** A total of zeros and ones is the number of samples that satisfy the predicate. */
  lemma {:induction false} SumCounts(vs: Verdicts, p: Verdict -> bool, f: Verdict -> nat)
    requires forall v :: f(v) == One(p(v))
    ensures Sum(vs, f) == |Those(vs, p)|
    decreases |vs|
  {
    if vs == map[] {
      assert Those(vs, p) == {};
    } else {
      var id :| id in vs;
      SumWithout(vs, id, f);
      SumCounts(vs - {id}, p, f);
      ThoseWithout(vs, id, p);
    }
  }

  /** The four buckets partition the speech samples. */
  lemma {:induction false} BucketsPartitionSpeech(vs: Verdicts)
    ensures Sum(vs, ExactCount) + Sum(vs, MinorCount) + Sum(vs, MajorCount) + Sum(vs, MissCount)
         == |Those(vs, Speech)|
    decreases |vs|
  {
    if vs == map[] {
      assert Those(vs, Speech) == {};
    } else {
      var id :| id in vs;
      SumWithout(vs, id, ExactCount);
      SumWithout(vs, id, MinorCount);
      SumWithout(vs, id, MajorCount);
      SumWithout(vs, id, MissCount);
      BucketsPartitionSpeech(vs - {id});
      ThoseWithout(vs, id, Speech);
    }
  }

  predicate IsQuiet(v: Verdict) { v.Quiet? }
  predicate IsNoSpeech(v: Verdict) { v.NoSpeech? }
  predicate FalselyActivated(v: Verdict) { v.NoSpeech? && v.activated }
  predicate QuietNotMissed(v: Verdict) { v.Quiet? && !Lands(v, Miss) }

  /**
   Whatever the corpus, the buckets of a measured report add up to its speech samples, and quiet
   recall is the share of quiet samples that are not in the miss bucket.
   */
  lemma ReportIsConsistent(m: Metrics, vs: Verdicts)
    requires Reports(m, vs)
    ensures m.buckets[Exact] + m.buckets[Minor] + m.buckets[Major] + m.buckets[Miss] == |Those(vs, Speech)|
    ensures m.quietRecall == FractionPPM(|Those(vs, QuietNotMissed)|, |Those(vs, IsQuiet)|)
    ensures m.quietRecall <= PPM && m.quietCER <= PPM && m.normalCER <= PPM && m.falseActivation <= PPM
  {
    BucketsPartitionSpeech(vs);
    SumCounts(vs, QuietNotMissed, RecognizedCount);
    SumCounts(vs, IsQuiet, QuietCount);
  }

  // ---------------------------------------------------------------- the release decision

  datatype Thresholds = Thresholds(
    quietRecall: nat, maxFalseActivation: nat, maxQuietCER: nat,
    normalMargin: nat, minQuietImprovement: nat)

  datatype Failure =
    | QuietRecallBelowFloor | FalseActivationAboveCeiling | QuietCERAboveCeiling
    | NormalSpeechRegressed | QuietImprovementInsufficient

  function FailIf(condition: bool, failure: Failure): seq<Failure> {
    if condition then [failure] else []
  }

  function Decide(baseline: Metrics, challenger: Metrics, t: Thresholds): seq<Failure> {
    FailIf(challenger.quietRecall < t.quietRecall, QuietRecallBelowFloor)
    + FailIf(challenger.falseActivation > t.maxFalseActivation, FalseActivationAboveCeiling)
    + FailIf(challenger.quietCER > t.maxQuietCER, QuietCERAboveCeiling)
    + FailIf(challenger.normalCER > baseline.normalCER + t.normalMargin, NormalSpeechRegressed)
    + FailIf(baseline.quietCER - challenger.quietCER < t.minQuietImprovement, QuietImprovementInsufficient)
  }

  lemma CodesOf(b: Metrics, c: Metrics, t: Thresholds)
    ensures QuietRecallBelowFloor in Decide(b, c, t) <==> c.quietRecall < t.quietRecall
    ensures FalseActivationAboveCeiling in Decide(b, c, t) <==> c.falseActivation > t.maxFalseActivation
    ensures QuietCERAboveCeiling in Decide(b, c, t) <==> c.quietCER > t.maxQuietCER
    ensures NormalSpeechRegressed in Decide(b, c, t) <==> c.normalCER - b.normalCER > t.normalMargin
    ensures QuietImprovementInsufficient in Decide(b, c, t) <==> b.quietCER < c.quietCER + t.minQuietImprovement
  {
  }

  /** The share `part / whole` is at least `ceiling + 1` parts per million; no data is the worst share. */
  predicate Exceeds(part: nat, whole: nat, ceiling: int) {
    ceiling < 0 || (ceiling < PPM && part * PPM >= (ceiling + 1) * whole)
  }

  /**
   What a failure code says about the corpus: rounding, capping and empty corpora included, each
   code is reported exactly when a count of judged samples or characters breaks its bound.
   */
  lemma {:induction false} FailureCodesAreExact(b: Metrics, c: Metrics, vs: Verdicts, t: Thresholds)
    requires Reports(c, vs)
    ensures QuietRecallBelowFloor in Decide(b, c, t)
       <==> t.quietRecall > PPM || |Those(vs, QuietNotMissed)| * PPM < t.quietRecall * |Those(vs, IsQuiet)|
    ensures FalseActivationAboveCeiling in Decide(b, c, t)
       <==> Exceeds(|Those(vs, FalselyActivated)|, |Those(vs, IsNoSpeech)|, t.maxFalseActivation)
    ensures QuietCERAboveCeiling in Decide(b, c, t)
       <==> Exceeds(Sum(vs, QuietErrors), Sum(vs, QuietCharacters), t.maxQuietCER)
    ensures NormalSpeechRegressed in Decide(b, c, t)
       <==> Exceeds(Sum(vs, NormalErrors), Sum(vs, NormalCharacters), b.normalCER + t.normalMargin)
    ensures QuietImprovementInsufficient in Decide(b, c, t)
       <==> Exceeds(Sum(vs, QuietErrors), Sum(vs, QuietCharacters), b.quietCER - t.minQuietImprovement)
  {
    hide *;
    CodesOf(b, c, t);
    ReportIsConsistent(c, vs);
    ReportParts(c, vs);
    CountsAre();
    SumCounts(vs, FalselyActivated, ActivationCount);
    SumCounts(vs, IsNoSpeech, NoSpeechCount);
    BelowFloor(|Those(vs, QuietNotMissed)|, |Those(vs, IsQuiet)|, t.quietRecall);
    AboveCeiling(Sum(vs, ActivationCount), Sum(vs, NoSpeechCount), t.maxFalseActivation);
    AboveCeiling(Sum(vs, QuietErrors), Sum(vs, QuietCharacters), t.maxQuietCER);
    AboveCeiling(Sum(vs, NormalErrors), Sum(vs, NormalCharacters), b.normalCER + t.normalMargin);
    AboveCeiling(Sum(vs, QuietErrors), Sum(vs, QuietCharacters), b.quietCER - t.minQuietImprovement);
  }

  lemma ReportParts(c: Metrics, vs: Verdicts)
    requires Reports(c, vs)
    ensures c.quietCER == FractionPPM(Sum(vs, QuietErrors), Sum(vs, QuietCharacters))
    ensures c.normalCER == FractionPPM(Sum(vs, NormalErrors), Sum(vs, NormalCharacters))
    ensures c.falseActivation == FractionPPM(Sum(vs, ActivationCount), Sum(vs, NoSpeechCount))
  {
  }

  lemma CountsAre()
    ensures forall v :: ActivationCount(v) == One(FalselyActivated(v))
    ensures forall v :: NoSpeechCount(v) == One(IsNoSpeech(v))
  {
  }

  /** A reported rate is below a floor exactly when the true ratio is. */
  lemma BelowFloor(n: nat, d: nat, floor: nat)
    ensures FractionPPM(n, d) < floor <==> floor > PPM || n * PPM < floor * d
  {
    var r := FractionPPM(n, d);
    FractionIsRatio(n, d);
    if r < floor { ScaleUp(r + 1, floor, d); } else { ScaleUp(floor, r, d); }
    if n >= d {
      ScaleUp(d, n, PPM);
      if floor <= PPM { ScaleUp(floor, PPM, d); }
    }
  }

  lemma AboveCeiling(n: nat, d: nat, ceiling: int)
    ensures FractionPPM(n, d) > ceiling <==> Exceeds(n, d, ceiling)
  {
    if 0 <= ceiling < PPM { BelowFloor(n, d, ceiling + 1); }
  }

  /** Every release in the chain was accepted against the one before it. */
  ghost predicate AcceptedChain(ms: seq<Metrics>, t: Thresholds) {
    forall i :: 0 <= i < |ms| - 1 ==> Decide(ms[i], ms[i + 1], t) == []
  }

  /** Quiet errors fall by the minimum at every release; normal errors drift by at most the margin. */
  lemma {:induction false} ChainDrift(ms: seq<Metrics>, t: Thresholds)
    requires ms != [] && AcceptedChain(ms, t)
    ensures ms[|ms| - 1].quietCER + (|ms| - 1) * t.minQuietImprovement <= ms[0].quietCER
    ensures ms[|ms| - 1].normalCER <= ms[0].normalCER + (|ms| - 1) * t.normalMargin
    decreases |ms|
  {
    var n := |ms|;
    if n > 1 {
      ChainDrift(ms[..n - 1], t);
      assert Decide(ms[n - 2], ms[n - 2 + 1], t) == [];
      assert (n - 1) * t.minQuietImprovement == (n - 2) * t.minQuietImprovement + t.minQuietImprovement;
      assert (n - 1) * t.normalMargin == (n - 2) * t.normalMargin + t.normalMargin;
    }
  }

  /** With a positive minimum, only so many releases can follow one another. */
  lemma ChainLengthBounded(ms: seq<Metrics>, corpora: seq<Verdicts>, t: Thresholds)
    requires ms != [] && AcceptedChain(ms, t) && t.minQuietImprovement > 0
    requires |corpora| == |ms| && forall i :: 0 <= i < |ms| ==> Reports(ms[i], corpora[i])
    ensures |ms| - 1 <= PPM / t.minQuietImprovement
  {
    ChainDrift(ms, t);
    ReportIsConsistent(ms[0], corpora[0]);
    FitsDivision(|ms| - 1, t.minQuietImprovement, PPM);
  }

  lemma FitsDivision(steps: nat, least: nat, total: nat)
    requires least > 0 && steps * least <= total
    ensures steps <= total / least
  {
    DivisionBounds(total, least);
    if steps > total / least { ScaleUp(total / least + 1, steps, least); }
  }

  /** An accepted challenger's true error ratios, not only their rounded reports, obey the ceilings. */
  lemma AcceptedRatios(baseline: Metrics, challenger: Metrics, vs: Verdicts, t: Thresholds)
    requires Decide(baseline, challenger, t) == [] && Reports(challenger, vs)
    requires t.maxQuietCER < PPM && t.maxFalseActivation < PPM
    ensures Sum(vs, QuietErrors) * PPM < (t.maxQuietCER + 1) * Sum(vs, QuietCharacters)
    ensures Sum(vs, ActivationCount) * PPM < (t.maxFalseActivation + 1) * Sum(vs, NoSpeechCount)
  {
    CodesOf(baseline, challenger, t);
    hide Decide;
    AboveCeiling(Sum(vs, QuietErrors), Sum(vs, QuietCharacters), t.maxQuietCER);
    AboveCeiling(Sum(vs, ActivationCount), Sum(vs, NoSpeechCount), t.maxFalseActivation);
  }
}
