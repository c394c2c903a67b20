/**
 Reading consent from an utterance: what is left of it after normalizing, removing quotations and
 restoring boundaries is heard clause by clause, in speech order.
 */
module Consent {
  import opened Common
  import opened Text
  import opened QuotedSpeech
  import opened CoachPhrase

  /** The finite clause tables, lower-casing, and the boundary marker that runs after stripping. */
  datatype Grammar = Grammar(
    request: string -> bool, optOut: string -> bool, ellipticalIn: string -> bool, ellipticalOut: string -> bool,
    thirdParty: string -> bool, currentSpeaker: string -> bool,
    firstPerson: string -> bool, assistantOptOut: string -> bool,
    coachRequest: string -> bool, withdrawal: string -> bool,
    lower: char -> char, mark: string -> string)

  /** No table lists the empty clause. */
  ghost predicate EmptySaysNothing(g: Grammar) {
    !g.request("") && !g.optOut("") && !g.ellipticalIn("") && !g.ellipticalOut("") && !g.thirdParty("")
  }

  datatype Intent = Intent(observed: bool, granted: bool, reported: bool)

  /** One clause, in speech order: the latest relevant intent wins. */
  function Hear(i: Intent, clause: string, g: Grammar): Intent {
    var directIn := g.request(clause) && (!i.reported || g.currentSpeaker(clause));
    var directOut := g.optOut(clause) && (!i.reported || g.firstPerson(clause) || g.assistantOptOut(clause));
    var heard :=
      if directIn then i.(observed := true, granted := true)
      else if directOut then i.(observed := true, granted := false)
      else if i.observed && g.ellipticalIn(clause) then i.(granted := true)
      else if i.observed && g.ellipticalOut(clause) then i.(granted := false)
      else i;
    heard.(reported := i.reported || g.thirdParty(clause))
  }

  function HearAll(clauses: seq<string>, i: Intent, g: Grammar): Intent {
    if clauses == [] then i else HearAll(clauses[1..], Hear(i, Trim(clauses[0]), g), g)
  }

  /** The refusal automaton keeps `refused` and passes over empty clauses. */
  function HearAllRefusal(
    clauses: seq<string>, observed: bool, refused: bool, reported: bool, g: Grammar): (bool, bool) {
    if clauses == [] then (observed, refused)
    else
      var clause := Trim(clauses[0]);
      if clause == "" then HearAllRefusal(clauses[1..], observed, refused, reported, g)
      else
        var directIn := g.request(clause) && (!reported || g.currentSpeaker(clause));
        var directOut := g.optOut(clause) && (!reported || g.firstPerson(clause) || g.assistantOptOut(clause));
        var observed' := observed || directIn || directOut;
        var refused' :=
          if directIn then false else if directOut then true
          else if observed && g.ellipticalIn(clause) then false
          else if observed && g.ellipticalOut(clause) then true
          else refused;
        HearAllRefusal(clauses[1..], observed', refused', reported || g.thirdParty(clause), g)
  }

  /** The clauses of an utterance: normalized, quotations removed, boundaries restored. */
  function SpokenClauses(utterance: string, g: Grammar): Option<seq<string>> {
    match Scan([], Normalized(utterance, g.lower))
    case None => None
    case Some(left) => Some(Split(IsClauseSeparator, [], g.mark(left)))
  }

  predicate ProxyOptIn(utterance: string, g: Grammar) {
    match SpokenClauses(utterance, g)
    case None => false
    case Some(clauses) =>
      var i := HearAll(clauses, Intent(false, false, false), g);
      i.observed && i.granted
  }

  /** The coach's own consent: a withdrawal in the same clause wins over the request. */
  function HearCoach(clauses: seq<string>, reported: bool, granted: bool, g: Grammar): bool {
    if clauses == [] then granted
    else
      var clause := Trim(clauses[0]);
      var asked := granted || (g.coachRequest(clause) && (!reported || g.currentSpeaker(clause)));
      HearCoach(clauses[1..], reported || g.thirdParty(clause), asked && !g.withdrawal(clause), g)
  }

  predicate CoachOptIn(utterance: string, g: Grammar) {
    match SpokenClauses(utterance, g)
    case None => false
    case Some(clauses) => HearCoach(clauses, false, false, g) || ProxyOptIn(utterance, g)
  }

  predicate ProxyOptOut(utterance: string, g: Grammar) {
    match SpokenClauses(utterance, g)
    case None => false
    case Some(clauses) =>
      var (observed, refused) := HearAllRefusal(clauses, false, false, false, g);
      observed && refused
  }

  lemma {:induction false} AutomataAgree(clauses: seq<string>, i: Intent, refused: bool, g: Grammar)
    requires EmptySaysNothing(g) && (i.observed ==> refused == !i.granted)
    ensures var (observed, refused') := HearAllRefusal(clauses, i.observed, refused, i.reported, g);
      observed == HearAll(clauses, i, g).observed && (observed ==> refused' == !HearAll(clauses, i, g).granted)
    decreases |clauses|
  {
    if clauses != [] {
      var clause := Trim(clauses[0]);
      var i' := Hear(i, clause, g);
      if clause == "" {
        AutomataAgree(clauses[1..], i', refused, g);
      } else {
        var directIn := g.request(clause) && (!i.reported || g.currentSpeaker(clause));
        var directOut := g.optOut(clause) && (!i.reported || g.firstPerson(clause) || g.assistantOptOut(clause));
        var refused' :=
          if directIn then false else if directOut then true
          else if i.observed && g.ellipticalIn(clause) then false
          else if i.observed && g.ellipticalOut(clause) then true
          else refused;
        AutomataAgree(clauses[1..], i', refused', g);
      }
    }
  }

  /** One utterance can never both grant and refuse: the two separately written automata agree. */
  lemma {:induction false} NeverBothGrantAndRefuse(utterance: string, g: Grammar)
    requires EmptySaysNothing(g)
    ensures !(ProxyOptIn(utterance, g) && ProxyOptOut(utterance, g))
  {
    var clauses := SpokenClauses(utterance, g);
    if clauses.Some? { AutomataAgree(clauses.value, Intent(false, false, false), false, g); }
  }

  /** Nothing said inside a quotation can grant or withdraw consent. */
  lemma {:induction false} QuotationCannotConsent(
    before: Phrase, open: char, inside: Phrase, inside': Phrase, after: string, g: Grammar)
    requires KeepsMarks(g.lower) && WellQuoted(before, None) && Closer(open).Some?
    requires WellQuoted(inside, Closer(open)) && WellQuoted(inside', Closer(open))
    ensures var s, s' := Render(before) + Region(open, inside, after), Render(before) + Region(open, inside', after);
      && (ProxyOptIn(s, g) <==> ProxyOptIn(s', g))
      && (ProxyOptOut(s, g) <==> ProxyOptOut(s', g))
      && (CoachOptIn(s, g) <==> CoachOptIn(s', g))
  {
    InsideIsUnheardInUtterance(before, open, inside, inside', after, g.lower);
    hide Scan;
    hide Normalized;
    hide HearAll;
    hide HearAllRefusal;
    hide HearCoach;
  }

  // ---------------------------------------------------------------- consent by clause

  /** Clause `k` as it is heard. */
  function Said(clauses: seq<string>, k: nat): string
    requires k < |clauses|
  {
    Trim(clauses[k])
  }

  /** Some clause before `k` reports what somebody else said or wants. */
  ghost predicate ReportedBefore(clauses: seq<string>, k: nat, g: Grammar)
    requires k <= |clauses|
  {
    exists j :: 0 <= j < k && g.thirdParty(Said(clauses, j))
  }

  /** Clause `k` asks for the coach, in the speaker's own name. */
  ghost predicate AsksCoach(clauses: seq<string>, k: nat, g: Grammar)
    requires k < |clauses|
  {
    && g.coachRequest(Said(clauses, k))
    && (ReportedBefore(clauses, k, g) ==> g.currentSpeaker(Said(clauses, k)))
  }

  ghost predicate CoachAskedLast(clauses: seq<string>, k: nat, g: Grammar)
    requires k < |clauses|
  {
    && AsksCoach(clauses, k, g)
    && forall j :: k <= j < |clauses| ==> !g.withdrawal(Said(clauses, j))
  }

  ghost predicate CoachStands(clauses: seq<string>, g: Grammar) {
    exists k :: 0 <= k < |clauses| && CoachAskedLast(clauses, k, g)
  }

  ghost predicate Reported(clauses: seq<string>, g: Grammar) {
    ReportedBefore(clauses, |clauses|, g)
  }

  /** The coach automaton over the clauses heard so far. */
  lemma {:induction false} CoachSoFar(heard: seq<string>, rest: seq<string>, g: Grammar)
    ensures HearCoach(rest, Reported(heard, g), CoachStands(heard, g), g) == CoachStands(heard + rest, g)
    decreases |rest|
  {
    if rest == [] {
      assert heard + rest == heard;
    } else {
      var more := heard + [rest[0]];
      OneMoreReport(heard, rest[0], g);
      OneMoreCoach(heard, rest[0], g);
      CoachSoFar(more, rest[1..], g);
      assert more + rest[1..] == heard + rest;
      hide CoachStands;
      hide Reported;
    }
  }

  lemma OneMoreReport(heard: seq<string>, clause: string, g: Grammar)
    ensures Reported(heard + [clause], g) <==> Reported(heard, g) || g.thirdParty(Trim(clause))
    ensures forall k :: 0 <= k <= |heard| ==>
      (ReportedBefore(heard + [clause], k, g) <==> ReportedBefore(heard, k, g))
  {
    hide Trim;
    var more := heard + [clause];
    assert forall j :: 0 <= j < |heard| ==> Said(more, j) == Said(heard, j);
    assert Said(more, |heard|) == Trim(clause);
    if Reported(heard, g) {
      var j :| 0 <= j < |heard| && g.thirdParty(Said(heard, j));
      assert g.thirdParty(Said(more, j));
    }
  }

  lemma OneMoreCoach(heard: seq<string>, clause: string, g: Grammar)
    ensures var asked := CoachStands(heard, g)
        || (g.coachRequest(Trim(clause)) && (!Reported(heard, g) || g.currentSpeaker(Trim(clause))));
      CoachStands(heard + [clause], g) <==> asked && !g.withdrawal(Trim(clause))
  {
    var more, n := heard + [clause], |heard|;
    OneMoreReport(heard, clause, g);
    hide Trim;
    hide ReportedBefore;
    assert forall j :: 0 <= j < n ==> Said(more, j) == Said(heard, j);
    assert Said(more, n) == Trim(clause);
    if k :| 0 <= k < n && CoachAskedLast(heard, k, g) {
      assert g.withdrawal(Trim(clause)) || CoachAskedLast(more, k, g);
    }
    if k :| 0 <= k < |more| && CoachAskedLast(more, k, g) {
      assert !g.withdrawal(Said(more, n));
      assert k < n ==> CoachAskedLast(heard, k, g);
    }
    assert AsksCoach(more, n, g) && !g.withdrawal(Trim(clause)) ==> CoachAskedLast(more, n, g);
  }

  // ---------------------------------------------------------------- the latest intent

  /** Clause `k` asks for answers, in the speaker's own name. */
  ghost predicate AsksProxy(clauses: seq<string>, k: nat, g: Grammar)
    requires k < |clauses|
  {
    && g.request(Said(clauses, k))
    && (ReportedBefore(clauses, k, g) ==> g.currentSpeaker(Said(clauses, k)))
  }

  /** Clause `k` refuses them outright. */
  ghost predicate RefusesProxy(clauses: seq<string>, k: nat, g: Grammar)
    requires k < |clauses|
  {
    && !AsksProxy(clauses, k, g) && g.optOut(Said(clauses, k))
    && (ReportedBefore(clauses, k, g) ==>
          g.firstPerson(Said(clauses, k)) || g.assistantOptOut(Said(clauses, k)))
  }

  /** The topic has come up in an earlier clause, so a short form is understood. */
  ghost predicate TopicBefore(clauses: seq<string>, k: nat, g: Grammar)
    requires k <= |clauses|
  {
    exists j :: 0 <= j < k && (AsksProxy(clauses, j, g) || RefusesProxy(clauses, j, g))
  }

  ghost predicate Grants(clauses: seq<string>, k: nat, g: Grammar)
    requires k < |clauses|
  {
    || AsksProxy(clauses, k, g)
    || (!RefusesProxy(clauses, k, g) && TopicBefore(clauses, k, g) && g.ellipticalIn(Said(clauses, k)))
  }

  ghost predicate Refuses(clauses: seq<string>, k: nat, g: Grammar)
    requires k < |clauses|
  {
    && !Grants(clauses, k, g)
    && (RefusesProxy(clauses, k, g) || (TopicBefore(clauses, k, g) && g.ellipticalOut(Said(clauses, k))))
  }

  /** The latest clause with an intent grants. */
  ghost predicate GrantedLast(clauses: seq<string>, k: nat, g: Grammar)
    requires k < |clauses|
  {
    Grants(clauses, k, g) && forall j :: k < j < |clauses| ==> !Refuses(clauses, j, g)
  }

  ghost predicate GrantStands(clauses: seq<string>, g: Grammar) {
    exists k :: 0 <= k < |clauses| && GrantedLast(clauses, k, g)
  }

  ghost predicate Topic(clauses: seq<string>, g: Grammar) {
    TopicBefore(clauses, |clauses|, g)
  }

  /** The automaton's state after the clauses heard so far. */
  ghost function IntentAfter(clauses: seq<string>, g: Grammar): Intent {
    Intent(Topic(clauses, g), GrantStands(clauses, g), Reported(clauses, g))
  }

  /** What the clauses heard so far say is not changed by another one. */
  lemma OneMoreClause(heard: seq<string>, clause: string, g: Grammar)
    ensures var more := heard + [clause];
      && (forall k :: 0 <= k < |heard| ==>
            && Said(more, k) == Said(heard, k)
            && (AsksProxy(more, k, g) <==> AsksProxy(heard, k, g))
            && (RefusesProxy(more, k, g) <==> RefusesProxy(heard, k, g)))
      && Said(more, |heard|) == Trim(clause)
      && (ReportedBefore(more, |heard|, g) <==> Reported(heard, g))
  {
    OneMoreReport(heard, clause, g);
    hide ReportedBefore;
    hide Trim;
  }

  lemma OneMoreTopic(heard: seq<string>, clause: string, g: Grammar)
    ensures forall k :: 0 <= k <= |heard| ==> (TopicBefore(heard + [clause], k, g) <==> TopicBefore(heard, k, g))
    ensures var more := heard + [clause];
      Topic(more, g) <==> Topic(heard, g) || AsksProxy(more, |heard|, g) || RefusesProxy(more, |heard|, g)
  {
    OneMoreClause(heard, clause, g);
    hide AsksProxy;
    hide RefusesProxy;
    hide Said;
  }

  lemma OneMoreVerdict(heard: seq<string>, clause: string, g: Grammar)
    ensures var more := heard + [clause];
      && (forall k :: 0 <= k < |heard| ==>
            (Grants(more, k, g) <==> Grants(heard, k, g)) && (Refuses(more, k, g) <==> Refuses(heard, k, g)))
      && (TopicBefore(more, |heard|, g) <==> Topic(heard, g))
  {
    OneMoreClause(heard, clause, g);
    OneMoreTopic(heard, clause, g);
    hide AsksProxy;
    hide RefusesProxy;
    hide TopicBefore;
    hide Said;
  }

  lemma OneMoreGrant(heard: seq<string>, clause: string, g: Grammar)
    ensures var more, n := heard + [clause], |heard|;
      GrantStands(more, g) <==> Grants(more, n, g) || (GrantStands(heard, g) && !Refuses(more, n, g))
  {
    var more, n := heard + [clause], |heard|;
    OneMoreVerdict(heard, clause, g);
    RefusesIsNoGrant(more, n, g);
    hide Grants;
    hide Refuses;
    hide TopicBefore;
    if k :| 0 <= k < n && GrantedLast(heard, k, g) {
      assert Refuses(more, n, g) || GrantedLast(more, k, g);
    }
    if k :| 0 <= k < |more| && GrantedLast(more, k, g) {
      if k < n {
        assert GrantedLast(heard, k, g);
        assert !Refuses(more, n, g);
      }
    }
    assert Grants(more, n, g) ==> GrantedLast(more, n, g);
  }

  lemma RefusesIsNoGrant(clauses: seq<string>, k: nat, g: Grammar)
    requires k < |clauses|
    ensures !(Grants(clauses, k, g) && Refuses(clauses, k, g))
  {
  }

  lemma HearOne(heard: seq<string>, clause: string, g: Grammar)
    ensures var more, n := heard + [clause], |heard|;
      var i := IntentAfter(heard, g);
      && Hear(i, Trim(clause), g).observed == (i.observed || AsksProxy(more, n, g) || RefusesProxy(more, n, g))
      && Hear(i, Trim(clause), g).granted == (Grants(more, n, g) || (i.granted && !Refuses(more, n, g)))
      && Hear(i, Trim(clause), g).reported == (i.reported || g.thirdParty(Trim(clause)))
  {
    var more, n := heard + [clause], |heard|;
    OneMoreClause(heard, clause, g);
    OneMoreVerdict(heard, clause, g);
    hide ReportedBefore;
    hide TopicBefore;
    hide GrantStands;
    hide Trim;
  }

  lemma IntentGrows(heard: seq<string>, clause: string, g: Grammar)
    ensures Hear(IntentAfter(heard, g), Trim(clause), g) == IntentAfter(heard + [clause], g)
  {
    HearOne(heard, clause, g);
    OneMoreTopic(heard, clause, g);
    OneMoreGrant(heard, clause, g);
    OneMoreReport(heard, clause, g);
    hide Hear;
    hide Trim;
    hide Topic;
    hide GrantStands;
    hide Reported;
    hide TopicBefore;
    hide ReportedBefore;
    hide AsksProxy;
    hide RefusesProxy;
    hide Grants;
    hide Refuses;
  }

  lemma {:induction false} IntentSoFar(heard: seq<string>, rest: seq<string>, g: Grammar)
    ensures HearAll(rest, IntentAfter(heard, g), g) == IntentAfter(heard + rest, g)
    decreases |rest|
  {
    hide IntentAfter;
    hide Hear;
    if rest == [] {
      assert heard + rest == heard;
    } else {
      IntentGrows(heard, rest[0], g);
      IntentSoFar(heard + [rest[0]], rest[1..], g);
      assert heard + [rest[0]] + rest[1..] == heard + rest;
    }
  }

  lemma NothingHeard(g: Grammar)
    ensures IntentAfter([], g) == Intent(false, false, false) && !CoachStands([], g) && !Reported([], g)
  {
  }

  lemma GrantHasTopic(clauses: seq<string>, g: Grammar)
    requires GrantStands(clauses, g)
    ensures Topic(clauses, g)
  {
    hide AsksProxy;
    hide RefusesProxy;
  }

  /** The latest clause with an intent refuses. */
  ghost predicate RefusalStands(clauses: seq<string>, g: Grammar) {
    Topic(clauses, g) && !GrantStands(clauses, g)
  }

  /** A refusal that stands is the latest intent of some clause. */
  lemma {:induction false} RefusalStandsIff(clauses: seq<string>, g: Grammar)
    ensures RefusalStands(clauses, g)
       <==> exists k :: 0 <= k < |clauses| && RefusedLast(clauses, k, g)
    decreases |clauses|
  {
    if clauses != [] {
      var n := |clauses| - 1;
      var heard := clauses[..n];
      assert clauses == heard + [clauses[n]];
      RefusalStandsIff(heard, g);
      OneMoreVerdict(heard, clauses[n], g);
      OneMoreTopic(heard, clauses[n], g);
      OneMoreGrant(heard, clauses[n], g);
      RefusesOutright(clauses, n, g);
      hide Grants;
      hide Refuses;
      hide Topic;
      hide TopicBefore;
      hide AsksProxy;
      hide RefusesProxy;
      hide GrantStands;
      if k :| 0 <= k < n && RefusedLast(heard, k, g) {
        assert Grants(clauses, n, g) || RefusedLast(clauses, k, g);
      }
      if k :| 0 <= k < |clauses| && RefusedLast(clauses, k, g) {
        if k < n {
          assert RefusedLast(heard, k, g);
          assert !Grants(clauses, n, g);
        }
      }
      assert Refuses(clauses, n, g) ==> RefusedLast(clauses, n, g);
    }
  }

  ghost predicate RefusedLast(clauses: seq<string>, k: nat, g: Grammar)
    requires k < |clauses|
  {
    Refuses(clauses, k, g) && forall j :: k < j < |clauses| ==> !Grants(clauses, j, g)
  }

  lemma RefusesOutright(clauses: seq<string>, k: nat, g: Grammar)
    requires k < |clauses|
    ensures AsksProxy(clauses, k, g) ==> Grants(clauses, k, g)
    ensures RefusesProxy(clauses, k, g) ==> Refuses(clauses, k, g)
    ensures Refuses(clauses, k, g) ==> !Grants(clauses, k, g)
    ensures Grants(clauses, k, g) || Refuses(clauses, k, g) ==>
      TopicBefore(clauses, k, g) || AsksProxy(clauses, k, g) || RefusesProxy(clauses, k, g)
  {
    hide TopicBefore;
    hide ReportedBefore;
  }

  // ---------------------------------------------------------------- consent of an utterance

  /** The clauses that are heard of an utterance whose quotations are in order. */
  ghost predicate HeardAs(utterance: string, clauses: seq<string>, g: Grammar) {
    var left := Scan([], Normalized(utterance, g.lower));
    left.Some? && clauses == Split(IsClauseSeparator, [], g.mark(left.value))
  }

  lemma HeardIsSpoken(utterance: string, g: Grammar)
    ensures SpokenClauses(utterance, g).None? <==> Scan([], Normalized(utterance, g.lower)).None?
    ensures forall clauses :: HeardAs(utterance, clauses, g) <==> SpokenClauses(utterance, g) == Some(clauses)
  {
  }

  /**
   Consent to the coach, by clause: some clause asks for it in the speaker's own name and no clause from
   there on withdraws; or the speaker wants answers.
   */
  lemma {:induction false} CoachOptInIff(utterance: string, g: Grammar)
    ensures CoachOptIn(utterance, g)
       <==> || ProxyOptIn(utterance, g)
            || exists clauses, k ::
                 HeardAs(utterance, clauses, g) && 0 <= k < |clauses| && CoachAskedLast(clauses, k, g)
  {
    HeardIsSpoken(utterance, g);
    hide SpokenClauses;
    hide HeardAs;
    hide HearCoach;
    hide HearAll;
    if SpokenClauses(utterance, g).Some? {
      var clauses := SpokenClauses(utterance, g).value;
      NothingHeard(g);
      CoachSoFar([], clauses, g);
      assert [] + clauses == clauses;
      hide CoachAskedLast;
    }
  }

  /** Wanting answers, by clause: the latest clause with an intent grants. */
  lemma {:induction false} ProxyOptInIff(utterance: string, g: Grammar)
    ensures ProxyOptIn(utterance, g)
       <==> exists clauses, k :: HeardAs(utterance, clauses, g) && 0 <= k < |clauses| && GrantedLast(clauses, k, g)
  {
    HeardIsSpoken(utterance, g);
    hide SpokenClauses;
    hide HeardAs;
    hide HearAll;
    if SpokenClauses(utterance, g).Some? {
      var clauses := SpokenClauses(utterance, g).value;
      NothingHeard(g);
      IntentSoFar([], clauses, g);
      assert [] + clauses == clauses;
      if GrantStands(clauses, g) { GrantHasTopic(clauses, g); }
      hide GrantedLast;
      hide Topic;
    }
  }

  /** Not wanting them, by clause: the latest clause with an intent refuses. */
  lemma {:induction false} ProxyOptOutIff(utterance: string, g: Grammar)
    requires EmptySaysNothing(g)
    ensures ProxyOptOut(utterance, g)
       <==> exists clauses, k :: HeardAs(utterance, clauses, g) && 0 <= k < |clauses| && RefusedLast(clauses, k, g)
  {
    HeardIsSpoken(utterance, g);
    hide SpokenClauses;
    hide HeardAs;
    hide HearAll;
    hide HearAllRefusal;
    if SpokenClauses(utterance, g).Some? {
      var clauses := SpokenClauses(utterance, g).value;
      NothingHeard(g);
      IntentSoFar([], clauses, g);
      assert [] + clauses == clauses;
      AutomataAgree(clauses, Intent(false, false, false), false, g);
      RefusalStandsIff(clauses, g);
      hide RefusedLast;
      hide Topic;
      hide GrantStands;
    }
  }

  // ---------------------------------------------------------------- the source's loops

  method ExplicitProxyAnswerOptIn(utterance: string, g: Grammar) returns (granted: bool)
    ensures granted <==> ProxyOptIn(utterance, g)
  {
    var phrase := NormalizeExplicitCoachPhrase(utterance, g.lower);
    var left := Strip(phrase);
    if left.None? {
      return false;
    }
    var clauses := Split(IsClauseSeparator, [], g.mark(left.value));
    hide Scan;
    hide Normalized;
    hide Split;
    hide Trim;
    var reported, observed, consented := false, false, false;
    ghost var start := Intent(false, false, false);
    for i := 0 to |clauses|
      invariant HearAll(clauses[i..], Intent(observed, consented, reported), g) == HearAll(clauses, start, g)
    {
      var clause := Trim(clauses[i]);
      var directIn := g.request(clause) && (!reported || g.currentSpeaker(clause));
      var directOut := g.optOut(clause) && (!reported || g.firstPerson(clause) || g.assistantOptOut(clause));
      assert clauses[i..][1..] == clauses[i + 1..];
      if directIn {
        observed, consented := true, true;
      } else if directOut {
        observed, consented := true, false;
      } else if observed && g.ellipticalIn(clause) {
        consented := true;
      } else if observed && g.ellipticalOut(clause) {
        consented := false;
      }
      if g.thirdParty(clause) {
        reported := true;
      }
    }
    granted := observed && consented;
  }

  method ExplicitCoachOptIn(utterance: string, g: Grammar) returns (granted: bool)
    ensures granted <==> CoachOptIn(utterance, g)
  {
    var phrase := NormalizeExplicitCoachPhrase(utterance, g.lower);
    var left := Strip(phrase);
    if left.None? {
      return false;
    }
    var clauses := Split(IsClauseSeparator, [], g.mark(left.value));
    hide Scan;
    hide Normalized;
    hide Split;
    hide Trim;
    var reported, consented := false, false;
    for i := 0 to |clauses|
      invariant HearCoach(clauses[i..], reported, consented, g) == HearCoach(clauses, false, false, g)
    {
      var clause := Trim(clauses[i]);
      assert clauses[i..][1..] == clauses[i + 1..];
      if g.coachRequest(clause) && (!reported || g.currentSpeaker(clause)) {
        consented := true;
      }
      if g.withdrawal(clause) {
        consented := false;
      }
      if g.thirdParty(clause) {
        reported := true;
      }
    }
    var proxy := ExplicitProxyAnswerOptIn(utterance, g);
    granted := consented || proxy;
  }

  method ExplicitProxyAnswerOptOut(utterance: string, g: Grammar) returns (withdrawn: bool)
    ensures withdrawn <==> ProxyOptOut(utterance, g)
  {
    var phrase := NormalizeExplicitCoachPhrase(utterance, g.lower);
    var left := Strip(phrase);
    if left.None? {
      return false;
    }
    var clauses := Split(IsClauseSeparator, [], g.mark(left.value));
    hide Scan;
    hide Normalized;
    hide Split;
    hide Trim;
    var reported, observed, refused := false, false, false;
    for i := 0 to |clauses|
      invariant HearAllRefusal(clauses[i..], observed, refused, reported, g)
        == HearAllRefusal(clauses, false, false, false, g)
    {
      var clause := Trim(clauses[i]);
      assert clauses[i..][1..] == clauses[i + 1..];
      if clause == "" {
        continue;
      }
      var directIn := g.request(clause) && (!reported || g.currentSpeaker(clause));
      var directOut := g.optOut(clause) && (!reported || g.firstPerson(clause) || g.assistantOptOut(clause));
      if directIn {
        observed, refused := true, false;
      } else if directOut {
        observed, refused := true, true;
      } else if observed && g.ellipticalIn(clause) {
        refused := false;
      } else if observed && g.ellipticalOut(clause) {
        refused := true;
      }
      if g.thirdParty(clause) {
        reported := true;
      }
    }
    withdrawn := observed && refused;
  }
}
