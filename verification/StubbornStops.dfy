/**
 Which phrases the boundary loop can leave a boundary in, read off the phrase before the loop runs: a
 stop request said again straight after itself, unless the second one goes on to its polite form.
 An audit that lists both stop requests leaves one in every phrase where a stop said three times ends
 its clause.
 */
module StubbornStops {
  import opened Sequences
  import opened Text
  import opened Clauses
  import opened QuotedSpeech
  import opened IntentBoundaries

  const POLITELY := "ください"

  /** The plain stop, whose marker may be the beginning of the polite one. */
  predicate MayExtend(r: Rule) {
    r.ending == STOP_WORD && r.marker == STOP_WORD
  }

  /** A doubled stop at `j` whose last word is not the beginning of a longer marker. */
  predicate StubbornAt(s: string, r: Rule, j: int) {
    && InTables(r) && IsStopRule(r) && OccursAt(s, Doubled(r), j)
    && (MayExtend(r) ==> !OccursAt(s, POLITELY, j + |Doubled(r)|))
  }

  ghost predicate Stubborn(s: string) {
    exists r, j :: StubbornAt(s, r, j)
  }

  // ---------------------------------------------------------------- texts and occurrences

  lemma OccursJoined(s: string, x: string, y: string, k: int)
    ensures OccursAt(s, x, k) && OccursAt(s, y, k + |x|) <==> OccursAt(s, x + y, k)
  {
    if 0 <= k && k + |x| + |y| <= |s| {
      var cut := s[k..k + |x + y|];
      assert cut == s[k..k + |x|] + s[k + |x|..k + |x| + |y|];
      assert cut[..|x|] == s[k..k + |x|] && cut[|x|..] == s[k + |x|..k + |x| + |y|];
      assert (x + y)[..|x|] == x && (x + y)[|x|..] == y;
    }
  }

  lemma {:induction false} TailSpan(s: string, at: nat)
    requires at <= |s|
    ensures var end := at + |Tail(s, at)|;
      && end <= |s| && Tail(s, at) == s[at..end] && (end == |s| || IsClauseSeparator(s[end]))
      && forall i :: at <= i < end ==> !IsClauseSeparator(s[i])
    decreases |s| - at
  {
    hide IsClauseSeparator;
    if at < |s| && !IsClauseSeparator(s[at]) { TailSpan(s, at + 1); }
  }

  lemma {:induction false} TailIs(s: string, at: nat, end: nat)
    requires at <= end <= |s| && (end == |s| || IsClauseSeparator(s[end]))
    requires forall i :: at <= i < end ==> !IsClauseSeparator(s[i])
    ensures Tail(s, at) == s[at..end]
    decreases end - at
  {
    hide IsClauseSeparator;
    if at < end { TailIs(s, at + 1, end); }
  }

  lemma TailRight(x: string, c: string, i: nat)
    requires i <= |c|
    ensures Tail(x + c, |x| + i) == Tail(c, i)
  {
    hide IsClauseSeparator;
    TailSpan(c, i);
    hide Tail;
    var end := i + |Tail(c, i)|;
    var s := x + c;
    assert forall k :: |x| <= k < |s| ==> s[k] == c[k - |x|];
    TailIs(s, |x| + i, |x| + end);
    assert s[|x| + i..|x| + end] == c[i..end];
  }

  // ---------------------------------------------------------------- the doubled text

  lemma DoubledFacts(r: Rule)
    requires InTables(r) && IsStopRule(r)
    ensures var n, d := r.Needle(), |Lead(r)|;
      && 0 < d == Shift(r) < |n| && |Doubled(r)| == d + |n| && n[..d] == Lead(r)
      && Doubled(r) == n[..d] + n && n[d..] == n[..|n| - d] && Free(IsClauseSeparator, n) && STOP !in n
      && Free(IsClauseSeparator, Doubled(r)) && STOP !in Doubled(r)
  {
    LeadIsShift(r);
    StopOverlaps(r);
    RuleIsClean(r);
    hide InTables;
    hide IsStopRule;
    hide Shift;
    hide Lead;
    FreePrefix(r.Needle(), |Lead(r)|);
    FreeJoin(Lead(r), r.Needle());
    FreeHasNoStop(Doubled(r));
    hide IsClauseSeparator;
  }

  lemma FreePrefix(s: string, d: nat)
    requires d <= |s| && Free(IsClauseSeparator, s)
    ensures Free(IsClauseSeparator, s[..d])
  {
    hide IsClauseSeparator;
  }

  lemma FreeHasNoStop(s: string)
    requires Free(IsClauseSeparator, s)
    ensures STOP !in s
  {
    assert IsClauseSeparator(STOP);
    hide IsClauseSeparator;
  }

  /** A doubled stop is two overlapping copies of the needle. */
  lemma TwoCopiesInside(s: string, r: Rule, j: int)
    requires InTables(r) && IsStopRule(r) && OccursAt(s, Doubled(r), j)
    ensures OccursAt(s, r.Needle(), j) && OccursAt(s, r.Needle(), j + |Lead(r)|)
  {
    hide *;
    DoubledFacts(r);
    TwoCopiesOf(s, r.Needle(), |Lead(r)|, j);
  }

  lemma TwoCopiesOf(s: string, n: string, d: nat, j: int)
    requires d < |n| && n[d..] == n[..|n| - d] && OccursAt(s, n[..d] + n, j)
    ensures OccursAt(s, n, j) && OccursAt(s, n, j + d)
  {
    hide OccursAt;
    OccursJoined(s, n[..d], n, j);
    Overlapped(n, d);
    OccursJoined(s, n, n[|n| - d..], j);
  }

  lemma Overlapped(n: string, d: nat)
    requires d < |n| && n[d..] == n[..|n| - d]
    ensures n[..d] + n == n + n[|n| - d..]
  {
    assert n == n[..d] + n[d..];
    assert n == n[..|n| - d] + n[|n| - d..];
    Assemble(n[..d], n[..|n| - d], n[|n| - d..]);
  }

  // ---------------------------------------------------------------- a leftover was stubborn from the start

  /** Where every search has failed, an audited plain stop does not go on to its polite form. */
  lemma NotExtended(t: string, r: Rule, k: int, audited: string -> bool)
    requires Exhausted(t, PRIOR_ENDINGS, MARKERS, BRIDGES, audited)
    requires InTables(r) && MayExtend(r) && Applies(t, r, k, audited)
    ensures !OccursAt(t, POLITELY, k + |r.Needle()|)
  {
    hide *;
    if OccursAt(t, POLITELY, k + |r.Needle()|) {
      var polite := Rule(r.ending, r.bridge, STOP_POLITE);
      PoliteApplies(t, r, k, audited);
      LeftoverIsDoubled(t, polite, k, audited);
      PoliteIsNoStop(r);
    }
  }

  lemma PoliteApplies(t: string, r: Rule, k: int, audited: string -> bool)
    requires InTables(r) && MayExtend(r) && Applies(t, r, k, audited) && OccursAt(t, POLITELY, k + |r.Needle()|)
    ensures var polite := Rule(r.ending, r.bridge, STOP_POLITE);
      InTables(polite) && Applies(t, polite, k, audited)
  {
    hide *;
    Extends(r);
    PoliteRule(r);
    AppliesOpened(t, r, k, audited);
    OccursJoined(t, r.Needle(), POLITELY, k);
    AppliesClosed(t, Rule(r.ending, r.bridge, STOP_POLITE), k, audited);
  }

  lemma Extends(r: Rule)
    requires MayExtend(r)
    ensures r.marker == STOP_WORD
  {
  }

  lemma AppliesOpened(s: string, q: Rule, k: int, audited: string -> bool)
    requires Applies(s, q, k, audited)
    ensures OccursAt(s, q.Needle(), k) && 0 <= k + |q.ending| + |q.bridge| <= |s|
    ensures audited(Tail(s, k + |q.ending| + |q.bridge|))
  {
    hide Tail;
  }

  lemma AppliesClosed(s: string, q: Rule, k: int, audited: string -> bool)
    requires OccursAt(s, q.Needle(), k) && 0 <= k + |q.ending| + |q.bridge| <= |s|
    requires audited(Tail(s, k + |q.ending| + |q.bridge|))
    ensures Applies(s, q, k, audited)
  {
    hide Tail;
  }

  lemma PoliteIsNoStop(r: Rule)
    requires MayExtend(r)
    ensures !IsStopRule(Rule(r.ending, r.bridge, STOP_POLITE))
  {
    assert STOP_WORD != STOP_POLITE && STOP_POLITE != NO by {
      assert |STOP_WORD| == 3 && |STOP_POLITE| == 7 && |NO| == 2;
    }
  }

  lemma PoliteRule(r: Rule)
    requires InTables(r) && r.marker == STOP_WORD
    ensures InTables(Rule(r.ending, r.bridge, STOP_POLITE))
    ensures Rule(r.ending, r.bridge, STOP_POLITE).Needle() == r.Needle() + POLITELY
  {
    assert MARKERS[7] == STOP_POLITE;
    assert STOP_POLITE == STOP_WORD + POLITELY;
    Assemble(r.ending + r.bridge, STOP_WORD, POLITELY);
  }

  lemma LeftoverIsStubborn(t: string, audited: string -> bool) returns (r: Rule, j: int)
    requires Exhausted(t, PRIOR_ENDINGS, MARKERS, BRIDGES, audited) && Leftover(t, audited)
    ensures StubbornAt(t, r, j)
  {
    hide *;
    LeftoverIff(t, audited);
    r, j := DoubledWhere(t, audited);
    DoubleIsStubborn(t, r, j, audited);
  }

  lemma DoubledWhere(t: string, audited: string -> bool) returns (r: Rule, j: int)
    requires DoubledStop(t, audited)
    ensures InTables(r) && IsStopRule(r) && OccursAt(t, r.Needle(), j) && Applies(t, r, j + Shift(r), audited)
  {
    hide InTables;
    hide IsStopRule;
    hide OccursAt;
    hide Applies;
    hide Shift;
    r, j :| InTables(r) && IsStopRule(r) && OccursAt(t, r.Needle(), j) && Applies(t, r, j + Shift(r), audited);
  }

  lemma DoubleIsStubborn(t: string, r: Rule, j: int, audited: string -> bool)
    requires Exhausted(t, PRIOR_ENDINGS, MARKERS, BRIDGES, audited)
    requires InTables(r) && IsStopRule(r) && OccursAt(t, r.Needle(), j) && Applies(t, r, j + Shift(r), audited)
    ensures StubbornAt(t, r, j)
  {
    hide Exhausted;
    hide InTables;
    hide IsStopRule;
    hide OccursAt;
    hide Tail;
    hide Shift;
    hide Lead;
    hide PRIOR_ENDINGS;
    hide MARKERS;
    hide BRIDGES;
    hide POLITELY;
    hide MayExtend;
    CopiesMakeDouble(t, r, j);
    DoubledFacts(r);
    hide Doubled;
    hide Applies;
    hide IsClauseSeparator;
    if MayExtend(r) { NotExtended(t, r, j + Shift(r), audited); }
  }

  /** "ください" does not run into a rewritten bridge: no ending stops inside it, and no marker continues it. */
  lemma PolitelyFits(a: string, c: string, r: Rule, q: int)
    requires InTables(r) && |a| >= |r.ending| && a[|a| - |r.ending|..] == r.ending && r.marker <= c && q <= |a|
    requires OccursAt(a + r.bridge + c, POLITELY, q)
    ensures q + |POLITELY| <= |a|
  {
    hide *;
    RuleParts(r);
    LastOfEnding(a, r.ending);
    FirstBehind(c, r);
    Seam(a, r.bridge, c);
    NotInside(a + r.bridge + c, q, |a|);
  }

  lemma LastOfEnding(a: string, e: string)
    requires e in PRIOR_ENDINGS && |a| >= |e| && a[|a| - |e|..] == e
    ensures a != [] && a[|a| - 1] != 'く' && a[|a| - 1] != 'だ' && a[|a| - 1] != 'さ'
  {
    EndingEndsPlainly(e);
    hide PRIOR_ENDINGS;
    assert a[|a| - 1] == a[|a| - |e|..][|e| - 1];
  }

  lemma FirstBehind(c: string, r: Rule)
    requires r.bridge in BRIDGES && r.marker in MARKERS && r.marker <= c
    ensures c != [] && (if r.bridge == "" then c[0] else r.bridge[0]) != 'く'
  {
    MarkerFacts(r.marker);
    BridgeFacts(r.bridge);
    hide BRIDGES;
    hide MARKERS;
    assert c[0] == r.marker[0];
  }

  lemma NotInside(s: string, q: int, seam: nat)
    requires OccursAt(s, POLITELY, q) && q <= seam < |s| && s[seam] != 'く'
    requires seam > 0 && s[seam - 1] != 'く' && s[seam - 1] != 'だ' && s[seam - 1] != 'さ'
    ensures q + |POLITELY| <= seam
  {
    OccursPointwise(s, POLITELY, q);
    hide OccursAt;
    assert POLITELY[0] == 'く' && POLITELY[1] == 'だ' && POLITELY[2] == 'さ' && |POLITELY| == 4;
  }

  /** The characters on both sides of the end of `a`. */
  lemma Seam(a: string, b: string, c: string)
    requires a != [] && c != []
    ensures var s := a + b + c;
      |s| > |a| && s[|a| - 1] == a[|a| - 1] && s[|a|] == if b == "" then c[0] else b[0]
  {
  }

  lemma PolitelyStays(a: string, c: string, r: Rule, q: int)
    requires InTables(r) && |a| >= |r.ending| && a[|a| - |r.ending|..] == r.ending && r.marker <= c && q <= |a|
    requires OccursAt(a + r.bridge + c, POLITELY, q)
    ensures OccursAt(a + [STOP] + c, POLITELY, q)
  {
    PolitelyFits(a, c, r, q);
    hide InTables;
    hide OccursAt;
    OccursLeft(a, r.bridge + c, POLITELY, q);
    OccursLeft(a, [STOP] + c, POLITELY, q);
    Assemble(a, r.bridge, c);
    Assemble(a, [STOP], c);
  }

  lemma StubbornWasThere(s: string, t: string, audited: string -> bool, r: Rule, j: int) returns (l: int)
    requires Rewrites(s, t, audited) && StubbornAt(t, r, j)
    ensures StubbornAt(s, r, l)
  {
    hide *;
    var q, a, c := RewriteWhere(s, t, audited);
    l := StubbornBefore(a, c, q, r, j);
  }

  /** The text around the rewritten bridge. */
  lemma RewriteWhere(s: string, t: string, audited: string -> bool) returns (q: Rule, a: string, c: string)
    requires Rewrites(s, t, audited)
    ensures InTables(q) && s == a + q.bridge + c && t == a + [STOP] + c
    ensures |a| >= |q.ending| && a[|a| - |q.ending|..] == q.ending && q.marker <= c
  {
    hide InTables;
    hide Tail;
    hide Rewritten;
    var k;
    q, k :| InTables(q) && Applies(s, q, k, audited) && t == Rewritten(s, q, k);
    OccursWithin(s, q.Needle(), k);
    a, c := Around(s, q, k);
  }

  lemma StubbornBefore(a: string, c: string, q: Rule, r: Rule, j: int) returns (l: int)
    requires InTables(q) && |a| >= |q.ending| && a[|a| - |q.ending|..] == q.ending && q.marker <= c
    requires StubbornAt(a + [STOP] + c, r, j)
    ensures StubbornAt(a + q.bridge + c, r, l)
  {
    hide *;
    var s, t, b, text := a + q.bridge + c, a + [STOP] + c, q.bridge, Doubled(r);
    StubbornParts(t, r, j);
    DoubledFacts(r);
    OccurrenceSurvives(a, b, c, text, j);
    if j + |text| <= |a| {
      l := j;
      if OccursAt(s, POLITELY, j + |text|) { PolitelyStays(a, c, q, j + |text|); }
    } else {
      l := j - 1 + |b|;
      OccursRight(a + [STOP], c, POLITELY, j + |text|);
      OccursRight(a + b, c, POLITELY, l + |text|);
    }
    StubbornWhole(s, r, l);
  }

  lemma {:induction false} StubbornStays(s: string, t: string, n: nat, audited: string -> bool, r: Rule, j: int)
    requires RewritesIn(s, t, n, audited) && StubbornAt(t, r, j)
    ensures Stubborn(s)
    decreases n
  {
    hide Rewrites;
    hide StubbornAt;
    if n != 0 {
      var m :| RewritesIn(s, m, n - 1, audited) && Rewrites(m, t, audited);
      var l := StubbornWasThere(m, t, audited, r, j);
      StubbornStays(s, m, n - 1, audited, r, l);
    }
  }

  // ---------------------------------------------------------------- where the search stops

  /** The search stops at every occurrence that no earlier one overlaps. */
  lemma {:induction false} LonelyIsVisited(s: string, r: Rule, from: nat, k: int)
    requires r.Needle() != [] && OccursAt(s, r.Needle(), k) && from <= k
    requires forall i :: k - |r.Needle()| < i < k ==> !OccursAt(s, r.Needle(), i)
    ensures Visits(s, r, from, k)
    decreases |s| - from
  {
    hide IndexFrom;
    OccursWithin(s, r.Needle(), k);
    hide OccursAt;
    IndexIsFirst(s, r.Needle(), from, k);
    var at := IndexFrom(s, r.Needle(), from);
    if at < k {
      assert OccursAt(s, r.Needle(), at);
      LonelyIsVisited(s, r, at + |r.Needle()|, k);
    }
  }

  lemma {:induction false} VisitsBehind(s: string, r: Rule, from: nat, k: int)
    requires Visits(s, r, from, k)
    ensures from <= k
    decreases |s| - from
  {
    hide IndexFrom;
    hide OccursAt;
    var at := IndexFrom(s, r.Needle(), from);
    if at != k { VisitsBehind(s, r, at + |r.Needle()|, k); }
  }

  /** It never stops at two overlapping ones. */
  lemma {:induction false} VisitedApart(s: string, r: Rule, from: nat, x: int, y: int)
    requires Visits(s, r, from, x) && Visits(s, r, from, y) && x < y
    ensures x + |r.Needle()| <= y
    decreases |s| - from
  {
    hide IndexFrom;
    hide OccursAt;
    var at := IndexFrom(s, r.Needle(), from);
    if at == x {
      VisitsBehind(s, r, at + |r.Needle()|, y);
    } else {
      VisitsBehind(s, r, at + |r.Needle()|, x);
      if at != y { VisitedApart(s, r, at + |r.Needle()|, x, y); }
    }
  }

  /** Two overlapping copies, the first overlapped by none before it: the search passes over the second. */
  lemma SecondCopyIsPassed(s: string, r: Rule, j: int)
    requires InTables(r) && IsStopRule(r)
    requires OccursAt(s, r.Needle(), j) && !OccursAt(s, r.Needle(), j - |Lead(r)|)
    ensures !Visits(s, r, 0, j + |Lead(r)|)
  {
    hide *;
    DoubledFacts(r);
    forall i | j - |r.Needle()| < i < j ensures !OccursAt(s, r.Needle(), i) { NoneBefore(s, r, j, i); }
    OccursWithin(s, r.Needle(), j);
    LonelyIsVisited(s, r, 0, j);
    if Visits(s, r, 0, j + |Lead(r)|) { VisitedApart(s, r, 0, j, j + |Lead(r)|); }
  }

  lemma NoneBefore(s: string, r: Rule, j: int, i: int)
    requires InTables(r) && OccursAt(s, r.Needle(), j) && !OccursAt(s, r.Needle(), j - |Lead(r)|)
    requires j - |r.Needle()| < i < j
    ensures !OccursAt(s, r.Needle(), i)
  {
    hide *;
    if OccursAt(s, r.Needle(), i) { OverlapDistance(s, r, i, j); }
  }

  lemma OverlapDistance(s: string, r: Rule, i: int, j: int)
    requires InTables(r) && OccursAt(s, r.Needle(), i) && OccursAt(s, r.Needle(), j) && j - |r.Needle()| < i < j
    ensures IsStopRule(r) && i == j - |Lead(r)|
  {
    hide InTables;
    OverlapBorder(s, r.Needle(), i, j);
    hide OccursAt;
    OverlapShift(r, j - i);
    LeadIsShift(r);
  }

  // ---------------------------------------------------------------- an anchored doubled stop

  /** Plain or polite, a doubled stop can be read with the plain marker. */
  predicate IsPlain(r: Rule) {
    InTables(r) && IsStopRule(r) && r.marker != STOP_POLITE
  }

  lemma PlainReading(s: string, r: Rule, j: int) returns (q: Rule)
    requires StubbornAt(s, r, j)
    ensures IsPlain(q) && StubbornAt(s, q, j)
  {
    q := r;
    if r.marker == STOP_POLITE {
      q := Rule(r.ending, r.bridge, STOP_WORD);
      PlainInTables(r);
      assert Doubled(r) == Doubled(q) + POLITELY by { PlainDoubled(r); }
      hide InTables;
      OccursJoined(s, Doubled(q), POLITELY, j);
    }
  }

  lemma PlainInTables(r: Rule)
    requires InTables(r)
    ensures InTables(Rule(r.ending, r.bridge, STOP_WORD))
  {
    assert MARKERS[6] == STOP_WORD;
  }

  lemma PlainDoubled(r: Rule)
    requires r.marker == STOP_POLITE
    ensures Doubled(r) == Doubled(Rule(r.ending, r.bridge, STOP_WORD)) + POLITELY
  {
    var q := Rule(r.ending, r.bridge, STOP_WORD);
    assert STOP_POLITE == STOP_WORD + POLITELY;
    Assemble(r.ending + r.bridge, STOP_WORD, POLITELY);
    assert r.Needle() == q.Needle() + POLITELY;
    Assemble(Lead(q), q.Needle(), POLITELY);
  }

  /** Where the intent behind the doubled stop begins. */
  function IntentAt(r: Rule, j: int): int {
    j + |Lead(r)| + |r.ending| + |r.bridge|
  }

  /** A doubled stop that no earlier copy overlaps, with `intent` for the clause behind it. */
  ghost predicate Anchored(t: string, r: Rule, j: int, intent: string) {
    && StubbornAt(t, r, j) && !OccursAt(t, r.Needle(), j - |Lead(r)|)
    && 0 <= IntentAt(r, j) <= |t| && Tail(t, IntentAt(r, j)) == intent
  }

  /** A doubled plain stop has its own first word again where a polite form would go on. */
  lemma NotPoliteInside(r: Rule)
    requires IsPlain(r) && MayExtend(r)
    ensures |r.Needle()| < |Doubled(r)| && Doubled(r)[|r.Needle()|] != POLITELY[0]
  {
    BridgeFacts(r.bridge);
    hide InTables;
    var b := r.bridge;
    var text := Doubled(r);
    assert r.Needle() == STOP_WORD + b + STOP_WORD && Lead(r) == STOP_WORD + b;
    assert text[|r.Needle()|] == if b == "" then STOP_WORD[0] else b[0];
    assert POLITELY[0] == 'く' && STOP_WORD[0] == 'や';
  }

  /** The first of a chain of overlapping copies is anchored. */
  lemma {:induction false} FirstOfChain(s: string, r: Rule, j: int) returns (l: int)
    requires IsPlain(r) && StubbornAt(s, r, j)
    ensures StubbornAt(s, r, l) && !OccursAt(s, r.Needle(), l - |Lead(r)|)
    decreases j
  {
    hide *;
    if OccursAt(s, r.Needle(), j - |Lead(r)|) {
      OccursWithin(s, r.Needle(), j - |Lead(r)|);
      ChainBack(s, r, j);
      l := FirstOfChain(s, r, j - |Lead(r)|);
    } else {
      l := j;
    }
  }

  lemma ChainBack(s: string, r: Rule, j: int)
    requires IsPlain(r) && StubbornAt(s, r, j) && OccursAt(s, r.Needle(), j - |Lead(r)|)
    ensures StubbornAt(s, r, j - |Lead(r)|) && 0 < |Lead(r)|
  {
    hide *;
    StubbornParts(s, r, j);
    TwoCopiesInside(s, r, j);
    DoubledFacts(r);
    var n, d := r.Needle(), |Lead(r)|;
    assert j == j - d + d;
    TwoCopies(s, n, d, j - d);
    assert j - d + |Doubled(r)| == j + |n|;
    if MayExtend(r) { NotPoliteThere(s, r, j); }
    StubbornWhole(s, r, j - d);
  }

  lemma StubbornParts(s: string, r: Rule, j: int)
    requires StubbornAt(s, r, j)
    ensures InTables(r) && IsStopRule(r) && OccursAt(s, Doubled(r), j)
    ensures MayExtend(r) ==> !OccursAt(s, POLITELY, j + |Doubled(r)|)
  {
  }

  lemma StubbornWhole(s: string, r: Rule, j: int)
    requires InTables(r) && IsStopRule(r) && OccursAt(s, Doubled(r), j)
    requires MayExtend(r) ==> !OccursAt(s, POLITELY, j + |Doubled(r)|)
    ensures StubbornAt(s, r, j)
  {
  }

  lemma NotPoliteThere(s: string, r: Rule, j: int)
    requires IsPlain(r) && MayExtend(r) && OccursAt(s, Doubled(r), j)
    ensures !OccursAt(s, POLITELY, j + |r.Needle()|)
  {
    NotPoliteInside(r);
    hide InTables;
    hide IsStopRule;
    hide MayExtend;
    hide Doubled;
    assert |POLITELY| > 0;
    hide POLITELY;
    OccursPointwise(s, Doubled(r), j);
    if OccursAt(s, POLITELY, j + |r.Needle()|) { OccursPointwise(s, POLITELY, j + |r.Needle()|); }
  }

  // ---------------------------------------------------------------- no rule reaches the anchored boundary

  lemma AnchorParts(t: string, r: Rule, j: int, intent: string)
    requires Anchored(t, r, j, intent)
    ensures InTables(r) && IsStopRule(r) && OccursAt(t, Doubled(r), j) && !OccursAt(t, r.Needle(), j - |Lead(r)|)
    ensures MayExtend(r) ==> !OccursAt(t, POLITELY, j + |Doubled(r)|)
    ensures 0 <= j && 0 <= IntentAt(r, j) <= |t| && Tail(t, IntentAt(r, j)) == intent
  {
    hide *;
    AnchorOpened(t, r, j, intent);
    StubbornParts(t, r, j);
    OccursWithin(t, Doubled(r), j);
  }

  lemma AnchorOpened(t: string, r: Rule, j: int, intent: string)
    requires Anchored(t, r, j, intent)
    ensures StubbornAt(t, r, j) && !OccursAt(t, r.Needle(), j - |Lead(r)|)
    ensures 0 <= IntentAt(r, j) <= |t| && Tail(t, IntentAt(r, j)) == intent
  {
    hide StubbornAt;
    hide OccursAt;
    hide IntentAt;
    hide Lead;
    hide Tail;
  }

  /** From the doubled stop to the end of its intent there is no separator, and the marker begins the intent. */
  lemma AnchorRegion(t: string, r: Rule, j: int, intent: string)
    requires Anchored(t, r, j, intent)
    ensures var at := IntentAt(r, j);
      var end := at + |intent|;
      && 0 <= j <= at && j + |Doubled(r)| == at + |r.marker| <= end <= |t|
      && (end == |t| || IsClauseSeparator(t[end])) && (forall i :: j <= i < end ==> !IsClauseSeparator(t[i]))
      && OccursAt(t, r.marker, at) && OccursAt(t, r.ending + r.bridge, j + |Lead(r)|)
  {
    hide *;
    AnchorParts(t, r, j, intent);
    TwoCopiesInside(t, r, j);
    DoubledFacts(r);
    IntentPlace(r, j);
    OccursWithin(t, Doubled(r), j);
    Region(t, Doubled(r), j, IntentAt(r, j), intent);
    OccursJoined(t, r.ending + r.bridge, r.marker, j + |Lead(r)|);
  }

  lemma IntentPlace(r: Rule, j: int)
    ensures IntentAt(r, j) == j + |Lead(r)| + |r.ending + r.bridge|
    ensures IntentAt(r, j) == j + |Lead(r)| + |r.ending| + |r.bridge|
    ensures j + |Doubled(r)| == IntentAt(r, j) + |r.marker|
    ensures r.Needle() == r.ending + r.bridge + r.marker
  {
  }

  /** The region between a separator-free text and the end of the clause that starts inside it. */
  lemma Region(t: string, text: string, j: int, at: int, intent: string)
    requires OccursAt(t, text, j) && Free(IsClauseSeparator, text)
    requires 0 <= j <= at <= j + |text| && at <= |t| && Tail(t, at) == intent
    ensures var end := at + |intent|;
      && j + |text| <= end <= |t|
      && (end == |t| || IsClauseSeparator(t[end])) && (forall i :: j <= i < end ==> !IsClauseSeparator(t[i]))
  {
    OccursPointwise(t, text, j);
    TailSpan(t, at);
    hide OccursAt;
    hide Tail;
    hide IsClauseSeparator;
    forall i | j <= i < j + |text| ensures !IsClauseSeparator(t[i]) {
      assert text[i - j] == t[i];
    }
  }

  /** No other place in that region has the same intent behind it. */
  lemma IntentElsewhere(t: string, r: Rule, j: int, intent: string, p: nat)
    requires Anchored(t, r, j, intent) && p <= |t| && Tail(t, p) == intent
    ensures p == IntentAt(r, j) || p < j || p > IntentAt(r, j) + |intent|
  {
    hide *;
    AnchorRegion(t, r, j, intent);
    var end := IntentAt(r, j) + |intent|;
    if j <= p <= end { TailIs(t, p, end); }
  }

  /** The ending and bridge in front of a boundary can be read in one way only. */
  lemma SameEnding(t: string, r: Rule, q: Rule, at: int)
    requires InTables(r) && IsStopRule(r) && InTables(q)
    requires OccursAt(t, r.ending + r.bridge, at - |r.ending| - |r.bridge|)
    requires OccursAt(t, q.ending + q.bridge, at - |q.ending| - |q.bridge|)
    ensures q.ending == r.ending && q.bridge == r.bridge
  {
    hide *;
    SameBridge(t, r, q, at);
    var m := at - |r.bridge|;
    OccursJoined(t, r.ending, r.bridge, m - |r.ending|);
    OccursJoined(t, q.ending, q.bridge, m - |q.ending|);
    OccursPointwise(t, r.ending, m - |r.ending|);
    OccursPointwise(t, q.ending, m - |q.ending|);
    StopEnding(r);
    RuleParts(q);
    SameWord(t, r.ending, q.ending, m);
  }

  lemma StopEnding(r: Rule)
    requires IsStopRule(r)
    ensures r.ending == STOP_WORD || r.ending == STOP_POLITE
  {
  }

  lemma SameBridge(t: string, r: Rule, q: Rule, at: int)
    requires InTables(r) && InTables(q)
    requires OccursAt(t, r.ending + r.bridge, at - |r.ending| - |r.bridge|)
    requires OccursAt(t, q.ending + q.bridge, at - |q.ending| - |q.bridge|)
    ensures q.bridge == r.bridge
  {
    hide *;
    BridgePlace(t, r, at);
    BridgePlace(t, q, at);
    assert |q.bridge| == |r.bridge|;
    assert q.bridge == t[at - |q.bridge|..at] == r.bridge;
  }

  lemma BridgePlace(t: string, r: Rule, at: int)
    requires InTables(r) && OccursAt(t, r.ending + r.bridge, at - |r.ending| - |r.bridge|)
    ensures 0 < at - |r.bridge| && at <= |t| && t[at - |r.bridge|..at] == r.bridge
    ensures IsWordCharacter(t[at - |r.bridge| - 1])
    ensures forall i :: at - |r.bridge| <= i < at ==> !IsWordCharacter(t[i])
  {
    hide *;
    RuleParts(r);
    EndingEndsPlainly(r.ending);
    BridgeFacts(r.bridge);
    OccursJoined(t, r.ending, r.bridge, at - |r.ending| - |r.bridge|);
    BridgeSpan(t, r.bridge, at);
    WordEnd(t, r.ending, at - |r.bridge|);
  }

  lemma RuleParts(r: Rule)
    requires InTables(r)
    ensures r.ending in PRIOR_ENDINGS && r.bridge in BRIDGES && r.marker in MARKERS
  {
    hide PRIOR_ENDINGS;
    hide BRIDGES;
    hide MARKERS;
  }

  lemma WordEnd(t: string, e: string, m: int)
    requires OccursAt(t, e, m - |e|) && EndsPlainly(e)
    ensures 0 < m <= |t| && IsWordCharacter(t[m - 1])
  {
    OccursPointwise(t, e, m - |e|);
    hide OccursAt;
    assert t[m - 1] == e[|e| - 1];
  }

  lemma BridgeSpan(t: string, b: string, at: int)
    requires OccursAt(t, b, at - |b|) && forall i :: 0 <= i < |b| ==> !IsWordCharacter(b[i])
    ensures 0 <= at - |b| && at <= |t| && t[at - |b|..at] == b
    ensures forall i :: at - |b| <= i < at ==> !IsWordCharacter(t[i])
  {
    OccursPointwise(t, b, at - |b|);
    forall i | at - |b| <= i < at ensures !IsWordCharacter(t[i]) { assert t[i] == b[i - at + |b|]; }
  }

  /** Two endings that end at the same place, one of them a stop. */
  lemma SameWord(t: string, e: string, f: string, m: int)
    requires (e == STOP_WORD || e == STOP_POLITE) && f in PRIOR_ENDINGS
    requires |e| <= m <= |t| && |f| <= m
    requires forall i :: 0 <= i < |e| ==> e[i] == t[m - |e| + i]
    requires forall i :: 0 <= i < |f| ==> f[i] == t[m - |f| + i]
    ensures e == f
  {
    EndingFacts(f);
    StopPlaces(t, e, m);
    if VerbWord(f) { VerbPlaces(t, f, m); }
    hide PRIOR_ENDINGS;
    hide VerbWord;
    assert t[m - 1] == e[|e| - 1] == f[|f| - 1];
    assert STOP_WORD[|STOP_WORD| - 1] != STOP_POLITE[|STOP_POLITE| - 1];
  }

  lemma StopPlaces(t: string, e: string, m: int)
    requires (e == STOP_WORD || e == STOP_POLITE) && |e| <= m <= |t|
    requires forall i :: 0 <= i < |e| ==> e[i] == t[m - |e| + i]
    ensures t[m - |e|] == 'や' && forall i :: m - |e| <= i < m ==> !IsVerb(t[i])
  {
    StopsHaveNoVerb();
    assert t[m - |e|] == e[0];
    forall i | m - |e| <= i < m ensures !IsVerb(t[i]) { assert t[i] == e[i - m + |e|]; }
  }

  lemma VerbPlaces(t: string, f: string, m: int)
    requires VerbWord(f) && |f| <= m <= |t|
    requires forall i :: 0 <= i < |f| ==> f[i] == t[m - |f| + i]
    ensures IsVerb(t[m - |f|]) && forall i :: m - |f| <= i < m ==> t[i] != 'や'
  {
    assert t[m - |f|] == f[0];
    forall i | m - |f| <= i < m ensures t[i] != 'や' { assert t[i] == f[i - m + |f|]; }
  }

  lemma StopsHaveNoVerb()
    ensures forall i :: 0 <= i < |STOP_WORD| ==> !IsVerb(STOP_WORD[i])
    ensures forall i :: 0 <= i < |STOP_POLITE| ==> !IsVerb(STOP_POLITE[i])
  {
  }

  /** Only the polite stop can stand where a plain one does. */
  lemma SameMarker(t: string, r: Rule, q: Rule, at: int)
    requires IsPlain(r) && InTables(q) && OccursAt(t, r.marker, at) && OccursAt(t, q.marker, at)
    ensures q.marker == r.marker || (r.marker == STOP_WORD && q.marker == STOP_POLITE)
  {
    hide *;
    RuleParts(q);
    PlainParts(r);
    RuleParts(r);
    MarkerLengths(q.marker);
    MarkerLengths(r.marker);
    OccursPointwise(t, r.marker, at);
    OccursPointwise(t, q.marker, at);
    assert q.marker[0] == t[at] == r.marker[0] && q.marker[1] == t[at + 1] == r.marker[1];
    MarkerByStart(r, q);
  }

  lemma MarkerByStart(r: Rule, q: Rule)
    requires IsPlain(r) && q.marker in MARKERS && |q.marker| >= 2 && |r.marker| >= 2
    requires q.marker[0] == r.marker[0] && q.marker[1] == r.marker[1]
    ensures q.marker == r.marker || (r.marker == STOP_WORD && q.marker == STOP_POLITE)
  {
    MarkerFacts(q.marker);
    hide InTables;
    hide MARKERS;
  }

  lemma MarkerLengths(m: string)
    requires m in MARKERS
    ensures |m| >= 2
  {
  }

  /** A rule whose boundary is the anchored one is searched past it. */
  lemma PassedThere(t: string, r: Rule, j: int, intent: string, q: Rule, k: int)
    requires IsPlain(r) && Anchored(t, r, j, intent) && InTables(q) && OccursAt(t, q.Needle(), k)
    requires k + |q.ending| + |q.bridge| == IntentAt(r, j)
    ensures !Visits(t, q, 0, k)
  {
    hide *;
    PlainParts(r);
    AnchorRegion(t, r, j, intent);
    AnchorParts(t, r, j, intent);
    IntentPlace(r, j);
    IntentPlace(q, k);
    OccursJoined(t, q.ending + q.bridge, q.marker, k);
    SameEnding(t, r, q, IntentAt(r, j));
    SameMarker(t, r, q, IntentAt(r, j));
    assert k == j + |Lead(r)|;
    if q.marker == r.marker {
      assert q == r;
      TwoCopiesInside(t, r, j);
      SecondCopyIsPassed(t, r, j);
    } else {
      PolitePassed(t, r, j, q);
    }
  }

  lemma PlainParts(r: Rule)
    requires IsPlain(r)
    ensures InTables(r) && IsStopRule(r) && r.marker != STOP_POLITE
  {
  }

  /** The polite reading of a polite stop said again is passed over just as the plain one is. */
  lemma PolitePassed(t: string, r: Rule, j: int, q: Rule)
    requires InTables(r) && IsStopRule(r) && r.marker == STOP_WORD && InTables(q)
    requires q == Rule(r.ending, r.bridge, STOP_POLITE)
    requires OccursAt(t, Doubled(r), j) && !OccursAt(t, r.Needle(), j - |Lead(r)|)
    requires OccursAt(t, q.Needle(), j + |Lead(r)|) && (MayExtend(r) ==> !OccursAt(t, POLITELY, j + |Doubled(r)|))
    ensures !Visits(t, q, 0, j + |Lead(r)|)
  {
    hide *;
    PoliteRule(r);
    OccursJoined(t, r.Needle(), POLITELY, j + |Lead(r)|);
    IntentPlace(r, j);
    NotPolite(t, r, j);
    PoliteStop(r);
    OccursJoined(t, r.Needle(), POLITELY, j - |Lead(r)|);
    OccursJoined(t, q.Needle(), r.bridge + STOP_WORD, j);
    SecondCopyIsPassed(t, q, j);
  }

  lemma NotPolite(t: string, r: Rule, j: int)
    requires OccursAt(t, POLITELY, j + |Lead(r)| + |r.Needle()|)
    requires MayExtend(r) ==> !OccursAt(t, POLITELY, j + |Doubled(r)|)
    ensures !MayExtend(r)
  {
    hide OccursAt;
    hide MayExtend;
    hide POLITELY;
  }

  lemma PoliteStop(r: Rule)
    requires IsStopRule(r) && r.marker == STOP_WORD && !MayExtend(r)
    ensures var q := Rule(r.ending, r.bridge, STOP_POLITE);
      IsStopRule(q) && Lead(q) == Lead(r) && Doubled(r) == q.Needle() + (r.bridge + STOP_WORD)
  {
    assert r.ending == STOP_POLITE;
    Assemble(r.ending + r.bridge, STOP_POLITE, r.bridge + STOP_WORD);
    Assemble(STOP_POLITE, r.bridge, STOP_WORD);
    assert Lead(r) == r.ending + r.bridge;
  }

  // ---------------------------------------------------------------- the loop keeps the anchor

  /** A rewrite behind the region changes nothing up to its end. */
  lemma AnchorFixed(a: string, b: string, c: string, r: Rule, j: int, intent: string)
    requires Anchored(a + b + c, r, j, intent) && IntentAt(r, j) + |intent| < |a|
    ensures Anchored(a + [STOP] + c, r, j, intent)
  {
    hide *;
    var t, t', at := a + b + c, a + [STOP] + c, IntentAt(r, j);
    var end := at + |intent|;
    AnchorParts(t, r, j, intent);
    AnchorRegion(t, r, j, intent);
    DoubledFacts(r);
    IntentPlace(r, j);
    Assemble(a, b, c);
    Assemble(a, [STOP], c);
    OccursLeft(a, b + c, Doubled(r), j);
    OccursLeft(a, [STOP] + c, Doubled(r), j);
    OccursLeft(a, b + c, r.Needle(), j - |Lead(r)|);
    OccursLeft(a, [STOP] + c, r.Needle(), j - |Lead(r)|);
    PolitelyBefore(a, b + c, [STOP] + c, j + |Doubled(r)|, end);
    TailBefore(a, b + c, [STOP] + c, at, end);
    StubbornWhole(t', r, j);
    AnchorWhole(t', r, j, intent);
  }

  lemma AnchorWhole(t: string, r: Rule, j: int, intent: string)
    requires StubbornAt(t, r, j) && !OccursAt(t, r.Needle(), j - |Lead(r)|)
    requires 0 <= IntentAt(r, j) <= |t| && Tail(t, IntentAt(r, j)) == intent
    ensures Anchored(t, r, j, intent)
  {
    hide StubbornAt;
    hide OccursAt;
    hide Tail;
    hide Lead;
    hide IntentAt;
  }

  /** "ください" does not reach across a separator. */
  lemma PolitelyBefore(a: string, y: string, z: string, q: int, end: nat)
    requires q <= end < |a| && IsClauseSeparator(a[end])
    ensures OccursAt(a + z, POLITELY, q) ==> OccursAt(a + y, POLITELY, q)
  {
    if OccursAt(a + z, POLITELY, q) {
      PolitelyIsFree();
      OccursWithin(a + z, POLITELY, q);
      FreeSpan(a + z, POLITELY, q);
      hide OccursAt;
      hide POLITELY;
      hide IsClauseSeparator;
      assert a[end] == (a + z)[end];
      OccursLeft(a, z, POLITELY, q);
      OccursLeft(a, y, POLITELY, q);
    }
  }

  lemma PolitelyIsFree()
    ensures Free(IsClauseSeparator, POLITELY)
  {
  }

  lemma FreeSpan(s: string, n: string, k: int)
    requires OccursAt(s, n, k) && Free(IsClauseSeparator, n)
    ensures forall i :: k <= i < k + |n| ==> !IsClauseSeparator(s[i])
  {
    OccursPointwise(s, n, k);
    hide OccursAt;
    hide IsClauseSeparator;
    forall i | k <= i < k + |n| ensures !IsClauseSeparator(s[i]) { assert s[i] == n[i - k]; }
  }

  lemma TailBefore(a: string, y: string, z: string, at: nat, end: nat)
    requires at <= end < |a| && IsClauseSeparator(a[end])
    requires forall i :: at <= i < end ==> !IsClauseSeparator((a + y)[i])
    ensures Tail(a + z, at) == Tail(a + y, at)
  {
    hide IsClauseSeparator;
    hide Tail;
    assert forall i :: 0 <= i < |a| ==> (a + y)[i] == a[i] == (a + z)[i];
    TailIs(a + y, at, end);
    TailIs(a + z, at, end);
    assert (a + y)[at..end] == (a + z)[at..end];
  }

  /** A rewrite before the doubled stop only moves it. */
  lemma AnchorMoves(a: string, b: string, c: string, r: Rule, j: int, intent: string) returns (l: int)
    requires Anchored(a + b + c, r, j, intent) && |a| + |b| <= j
    ensures Anchored(a + [STOP] + c, r, l, intent)
  {
    hide *;
    var x, y := a + b, a + [STOP];
    l := j - |x| + |y|;
    AnchorParts(x + c, r, j, intent);
    DoubledFacts(r);
    IntentPlace(r, j);
    IntentPlace(r, l);
    OccursRight(x, c, Doubled(r), j);
    OccursRight(y, c, Doubled(r), l);
    OccursRight(x, c, POLITELY, j + |Doubled(r)|);
    OccursRight(y, c, POLITELY, l + |Doubled(r)|);
    TailRight(x, c, IntentAt(r, j) - |x|);
    TailRight(y, c, IntentAt(r, l) - |y|);
    StillFirst(a, b, c, r.Needle(), j - |Lead(r)|, l - |Lead(r)|);
    StubbornWhole(y + c, r, l);
    AnchorWhole(y + c, r, l, intent);
  }

  /** No copy can come to overlap from the left: it would contain the full stop. */
  lemma StillFirst(a: string, b: string, c: string, n: string, k: int, l: int)
    requires STOP !in n && l - |a| - 1 == k - |a| - |b| && |a| + 1 < l + |n| && !OccursAt(a + b + c, n, k)
    ensures !OccursAt(a + [STOP] + c, n, l)
  {
    if OccursAt(a + [STOP] + c, n, l) {
      StopSplits(a, c, n, l);
      hide OccursAt;
      OccursRight(a + [STOP], c, n, l);
      OccursRight(a + b, c, n, k);
    }
  }

  /** A turn of the loop that audits this intent only leaves the anchor standing. */
  lemma AnchorStays(t: string, t': string, r: Rule, j: int, intent: string) returns (l: int)
    requires IsPlain(r) && Anchored(t, r, j, intent) && LoopRewrites(t, t', clause => clause == intent)
    ensures Anchored(t', r, l, intent)
  {
    hide *;
    var audited := clause => clause == intent;
    var q, k := TurnWhere(t, t', audited);
    AppliesOpened(t, q, k, audited);
    var a, c := Around(t, q, k);
    OccursWithin(t, q.Needle(), k);
    NeedlePlace(q);
    var p := k + |q.ending| + |q.bridge|;
    IntentElsewhere(t, r, j, intent, p);
    AnchorRegion(t, r, j, intent);
    if p == IntentAt(r, j) {
      PassedThere(t, r, j, intent, q, k);
      l := j;
    } else if p < j {
      l := AnchorMoves(a, q.bridge, c, r, j, intent);
    } else {
      NeedleBehind(t, q, k, IntentAt(r, j) + |intent|);
      AnchorFixed(a, q.bridge, c, r, j, intent);
      l := j;
    }
  }

  lemma TurnWhere(s: string, t: string, audited: string -> bool) returns (q: Rule, k: nat)
    requires LoopRewrites(s, t, audited)
    ensures InTables(q) && Applies(s, q, k, audited) && Visits(s, q, 0, k)
    ensures k + |q.Needle()| <= |s| && t == Rewritten(s, q, k)
  {
    hide InTables;
    hide Tail;
    hide Visits;
    hide Rewritten;
    q, k :| InTables(q) && Applies(s, q, k, audited) && Visits(s, q, 0, k) && t == Rewritten(s, q, k);
  }

  lemma NeedlePlace(q: Rule)
    ensures |q.Needle()| == |q.ending| + |q.bridge| + |q.marker|
  {
  }

  /** A needle holds no separator, so one that ends behind a separator begins behind it. */
  lemma NeedleBehind(t: string, q: Rule, k: int, end: int)
    requires InTables(q) && OccursAt(t, q.Needle(), k)
    requires 0 <= end < |t| && IsClauseSeparator(t[end]) && end < k + |q.ending| + |q.bridge|
    ensures end < k
  {
    RuleIsClean(q);
    NeedlePlace(q);
    FreeSpan(t, q.Needle(), k);
    hide InTables;
    hide OccursAt;
    hide IsClauseSeparator;
  }

  // ---------------------------------------------------------------- the exact condition on the phrase

  lemma {:induction false} RunKeepsAnchor(
    s: string, t: string, n: nat, r: Rule, j: int, intent: string)
    returns (l: int)
    requires IsPlain(r) && Anchored(s, r, j, intent) && LoopRun(s, t, n, clause => clause == intent)
    ensures Anchored(t, r, l, intent)
    decreases n
  {
    hide LoopRewrites;
    hide Anchored;
    hide IsPlain;
    if n == 0 {
      l := j;
    } else {
      var m :| LoopRun(s, m, n - 1, clause => clause == intent) && LoopRewrites(m, t, clause => clause == intent);
      l := RunKeepsAnchor(s, m, n - 1, r, j, intent);
      l := AnchorStays(m, t, r, l, intent);
    }
  }

  /** An anchor is a boundary of its rule. */
  lemma AnchorIsLeftover(t: string, r: Rule, j: int, intent: string)
    requires Anchored(t, r, j, intent)
    ensures Leftover(t, clause => clause == intent)
  {
    hide *;
    AnchorParts(t, r, j, intent);
    TwoCopiesInside(t, r, j);
    IntentPlace(r, j);
    IsLeftover(t, r, j + |Lead(r)|, clause => clause == intent);
  }

  lemma IsLeftover(t: string, r: Rule, k: int, audited: string -> bool)
    requires InTables(r) && OccursAt(t, r.Needle(), k) && 0 <= k + |r.ending| + |r.bridge| <= |t|
    requires audited(Tail(t, k + |r.ending| + |r.bridge|))
    ensures Leftover(t, audited)
  {
    hide InTables;
    hide Tail;
    assert Applies(t, r, k, audited);
    hide Applies;
  }

  /** The loop can be run to its end on every phrase. */
  lemma {:induction false} LoopEnds(s: string, audited: string -> bool) returns (t: string, n: nat)
    ensures LoopRun(s, t, n, audited) && Exhausted(t, PRIOR_ENDINGS, MARKERS, BRIDGES, audited)
    decreases |Hits(s)|
  {
    hide *;
    if Exhausted(s, PRIOR_ENDINGS, MARKERS, BRIDGES, audited) {
      NoRewrite(s, audited);
      t, n := s, 0;
    } else {
      var m := OneTurn(s, audited);
      t, n := LoopEnds(m, audited);
      TurnFirst(s, m, t, n, audited);
      n := n + 1;
    }
  }

  lemma OneTurn(s: string, audited: string -> bool) returns (m: string)
    requires !Exhausted(s, PRIOR_ENDINGS, MARKERS, BRIDGES, audited)
    ensures LoopRewrites(s, m, audited) && |Hits(m)| < |Hits(s)|
  {
    hide *;
    var r := UnfinishedRule(s, audited);
    var k := HitVisits(s, r, 0, audited);
    NeedleFits(s, r, k, audited);
    m := Rewritten(s, r, k);
    TurnIs(s, r, k, audited);
  }

  lemma UnfinishedRule(s: string, audited: string -> bool) returns (r: Rule)
    requires !Exhausted(s, PRIOR_ENDINGS, MARKERS, BRIDGES, audited)
    ensures InTables(r) && r.Needle() != [] && ScanHits(s, r, 0, audited)
  {
    hide ScanHits;
    hide PRIOR_ENDINGS;
    hide MARKERS;
    hide BRIDGES;
    r :| InTables(r) && (r.Needle() == [] || ScanHits(s, r, 0, audited));
    RuleIsClean(r);
  }

  lemma {:induction false} HitVisits(s: string, r: Rule, from: nat, audited: string -> bool) returns (k: int)
    requires r.Needle() != [] && ScanHits(s, r, from, audited)
    ensures Applies(s, r, k, audited) && Visits(s, r, from, k)
    decreases |s| - from
  {
    hide Tail;
    hide OccursAt;
    hide IndexFrom;
    ScanStep(s, r, from, audited);
    k := IndexFrom(s, r.Needle(), from);
    if !Applies(s, r, k, audited) {
      k := HitVisits(s, r, k + |r.Needle()|, audited);
    }
  }

  lemma TurnIs(s: string, r: Rule, k: nat, audited: string -> bool)
    requires InTables(r) && Applies(s, r, k, audited) && Visits(s, r, 0, k) && k + |r.Needle()| <= |s|
    ensures LoopRewrites(s, Rewritten(s, r, k), audited) && |Hits(Rewritten(s, r, k))| < |Hits(s)|
  {
    hide Hits;
    hide InTables;
    hide Tail;
    hide Visits;
    hide Rewritten;
    RewriteLowersHits(s, r, k);
  }

  lemma {:induction false} TurnFirst(s: string, m: string, t: string, n: nat, audited: string -> bool)
    requires LoopRewrites(s, m, audited) && LoopRun(m, t, n, audited)
    ensures LoopRun(s, t, n + 1, audited)
    decreases n
  {
    hide LoopRewrites;
    if n == 0 {
      assert LoopRun(s, s, 0, audited);
    } else {
      var u :| LoopRun(m, u, n - 1, audited) && LoopRewrites(u, t, audited);
      TurnFirst(s, m, u, n - 1, audited);
    }
  }

  /** Some run of the loop under this audit ends with an audited boundary in the phrase. */
  ghost predicate LoopLeaves(s: string, audited: string -> bool) {
    exists t, n :: LoopRun(s, t, n, audited) && Exhausted(t, PRIOR_ENDINGS, MARKERS, BRIDGES, audited)
      && Leftover(t, audited)
  }

  /** Every run of the loop under this audit does. */
  ghost predicate LoopAlwaysLeaves(s: string, audited: string -> bool) {
    forall t, n ::
      LoopRun(s, t, n, audited) && Exhausted(t, PRIOR_ENDINGS, MARKERS, BRIDGES, audited) ==> Leftover(t, audited)
  }

  lemma LeavesIsStubborn(s: string, audited: string -> bool)
    requires LoopLeaves(s, audited)
    ensures Stubborn(s)
  {
    hide LoopRun;
    hide Exhausted;
    hide Leftover;
    var t, n :| LoopRun(s, t, n, audited) && Exhausted(t, PRIOR_ENDINGS, MARKERS, BRIDGES, audited)
      && Leftover(t, audited);
    hide *;
    LoopRunRewrites(s, t, n, audited);
    var r, j := LeftoverIsStubborn(t, audited);
    StubbornStays(s, t, n, audited, r, j);
  }

  lemma StubbornLeaves(s: string) returns (intent: string)
    requires Stubborn(s)
    ensures LoopAlwaysLeaves(s, clause => clause == intent) && LoopLeaves(s, clause => clause == intent)
  {
    hide StubbornAt;
    var r, j :| StubbornAt(s, r, j);
    hide *;
    var q := PlainReading(s, r, j);
    var l := FirstOfChain(s, q, j);
    intent := IntentOf(s, q, l);
    var audited := clause => clause == intent;
    forall t, n | LoopRun(s, t, n, audited) ensures Leftover(t, audited) {
      var m := RunKeepsAnchor(s, t, n, q, l, intent);
      AnchorIsLeftover(t, q, m, intent);
    }
    var t, n := LoopEnds(s, audited);
    AlwaysLeaves(s, audited, t, n);
  }

  lemma IntentOf(s: string, r: Rule, j: int) returns (intent: string)
    requires StubbornAt(s, r, j) && !OccursAt(s, r.Needle(), j - |Lead(r)|)
    ensures Anchored(s, r, j, intent)
  {
    hide *;
    StubbornParts(s, r, j);
    OccursWithin(s, Doubled(r), j);
    IntentPlace(r, j);
    intent := Tail(s, IntentAt(r, j));
    AnchorWhole(s, r, j, intent);
  }

  lemma AlwaysLeaves(s: string, audited: string -> bool, t: string, n: nat)
    requires forall u, m :: LoopRun(s, u, m, audited) ==> Leftover(u, audited)
    requires LoopRun(s, t, n, audited) && Exhausted(t, PRIOR_ENDINGS, MARKERS, BRIDGES, audited)
    ensures LoopAlwaysLeaves(s, audited) && LoopLeaves(s, audited)
  {
    hide LoopRun;
    hide Exhausted;
    hide Leftover;
  }

  /**
   Read off the phrase before the loop runs: some audit makes the loop leave an audited boundary, in
   one of its runs or in all of them alike, if and only if the phrase holds a stubborn doubled stop.
   */
  lemma {:induction false} StubbornIff(s: string)
    ensures (exists audited :: LoopLeaves(s, audited)) <==> Stubborn(s)
    ensures (exists audited :: LoopAlwaysLeaves(s, audited)) <==> Stubborn(s)
  {
    hide *;
    if Stubborn(s) {
      var intent := StubbornLeaves(s);
    }
    forall audited | LoopLeaves(s, audited) ensures Stubborn(s) { LeavesIsStubborn(s, audited); }
    forall audited | LoopAlwaysLeaves(s, audited) ensures Stubborn(s) {
      AlwaysIsSometimes(s, audited);
      LeavesIsStubborn(s, audited);
    }
  }

  lemma AlwaysIsSometimes(s: string, audited: string -> bool)
    requires LoopAlwaysLeaves(s, audited)
    ensures LoopLeaves(s, audited)
  {
    var t, n := LoopEnds(s, audited);
    hide LoopRun;
    hide Exhausted;
    hide Leftover;
  }

  // ---------------------------------------------------------------- one given audit

  predicate IsStop(w: string) {
    w == STOP_WORD || w == STOP_POLITE
  }

  function TripleText(x: string, b: string, m: string): string {
    x + b + x + b + m
  }

  /** A stop three times with the same pause, the last one, plain or polite, ending its clause. */
  predicate TripleAt(s: string, x: string, b: string, m: string, j: int) {
    && IsStop(x) && IsStop(m) && b in BRIDGES && (m == STOP_POLITE ==> x == STOP_POLITE)
    && 0 <= j <= |s| && Tail(s, j) == TripleText(x, b, m)
  }

  ghost predicate HoldsTriple(s: string) {
    exists x, b, m, j :: TripleAt(s, x, b, m, j)
  }

  predicate EndsWith(s: string, n: string) {
    |n| <= |s| && s[|s| - |n|..] == n
  }

  /** An audit that lists both stops, and no clause that ends with one stop behind another. */
  ghost predicate ListsStops(audited: string -> bool) {
    && audited(STOP_WORD) && audited(STOP_POLITE)
    && forall r, c :: InTables(r) && IsStopRule(r) && r.marker != NO && audited(c) ==> !EndsWith(c, r.Needle())
  }

  predicate StartsMarker(c: char) {
    c == 'や' || c == 'い' || c == 'で' || c == '今' || c == 'も'
  }

  lemma MarkerStarts(m: string)
    requires m in MARKERS
    ensures m != [] && StartsMarker(m[0])
  {
  }

  lemma StopInside(w: string)
    requires IsStop(w)
    ensures |w| >= 3 && forall i :: 0 < i < |w| ==> !StartsMarker(w[i]) || w[i - 1] == 'さ'
  {
  }

  lemma BridgeStartsNone(b: string)
    requires b in BRIDGES
    ensures forall i :: 0 <= i < |b| ==> !StartsMarker(b[i])
  {
    BridgeFacts(b);
    hide BRIDGES;
  }

  /** In a triple stop markers begin at the three words only, except inside "ください". */
  lemma TripleStarts(x: string, b: string, m: string, i: nat)
    requires IsStop(x) && IsStop(m) && b in BRIDGES && i < |TripleText(x, b, m)|
    requires StartsMarker(TripleText(x, b, m)[i]) && (i > 0 ==> TripleText(x, b, m)[i - 1] != 'さ')
    ensures i == 0 || i == |x + b| || i == 2 * |x + b|
  {
    StopInside(x);
    StopInside(m);
    BridgeStartsNone(b);
    hide IsStop;
    hide BRIDGES;
    hide StartsMarker;
    TripleParts(x, b, m);
    hide TripleText;
  }

  lemma TripleParts(x: string, b: string, m: string)
    ensures var u, d := TripleText(x, b, m), |x + b|;
      && |u| == 2 * d + |m|
      && (forall i :: 0 <= i < |x| ==> u[i] == x[i])
      && (forall i :: |x| <= i < d ==> u[i] == b[i - |x|])
      && (forall i :: d <= i < d + |x| ==> u[i] == x[i - d])
      && (forall i :: d + |x| <= i < 2 * d ==> u[i] == b[i - d - |x|])
      && (forall i :: 2 * d <= i < |u| ==> u[i] == m[i - 2 * d])
  {
  }

  /** The clause that starts later in the same clause. */
  lemma TailInside(s: string, j: nat, i: nat)
    requires j <= |s| && i <= |Tail(s, j)|
    ensures j + i <= |s| && Tail(s, j + i) == Tail(s, j)[i..]
  {
    hide *;
    TailSpan(s, j);
    TailIs(s, j + i, j + |Tail(s, j)|);
  }

  lemma TailOccurs(s: string, j: nat, i: nat, n: string)
    requires j <= |s| && i + |n| <= |Tail(s, j)| && Tail(s, j)[i..i + |n|] == n
    ensures OccursAt(s, n, j + i)
  {
    TailSpan(s, j);
    hide Tail;
    hide IsClauseSeparator;
    SliceOfSlice(s, j, j + |Tail(s, j)|, i, |n|);
  }

  /** In front of a boundary no ending stops inside "ください". */
  lemma BeforeMarker(s: string, q: Rule, k: int)
    requires InTables(q) && OccursAt(s, q.Needle(), k)
    ensures var p := k + |q.ending| + |q.bridge|;
      && 0 < p && p + |q.marker| <= |s| && q.marker != []
      && StartsMarker(s[p]) && s[p - 1] != 'さ' && !IsClauseSeparator(s[p])
  {
    hide *;
    RuleParts(q);
    RuleIsClean(q);
    MarkerStarts(q.marker);
    NeedlePlace(q);
    FreeSpan(s, q.Needle(), k);
    OccursWithin(s, q.Needle(), k);
    IntentPlace(q, k);
    OccursJoined(s, q.ending + q.bridge, q.marker, k);
    OccursPointwise(s, q.marker, k + |q.ending + q.bridge|);
    NotSaBefore(s, q, k);
  }

  lemma NotSaBefore(s: string, q: Rule, k: int)
    requires InTables(q) && OccursAt(s, q.ending + q.bridge, k)
    ensures var p := k + |q.ending| + |q.bridge|;
      0 < p <= |s| && s[p - 1] != 'さ'
  {
    hide *;
    RuleParts(q);
    EndingEndsPlainly(q.ending);
    BridgeFacts(q.bridge);
    OccursPointwise(s, q.ending + q.bridge, k);
    LastNotSa(q.ending, q.bridge);
    var text := q.ending + q.bridge;
    assert s[k + |text| - 1] == text[|text| - 1];
  }

  lemma LastNotSa(e: string, b: string)
    requires EndsPlainly(e) && forall i :: 0 <= i < |b| ==> !IsWordCharacter(b[i])
    ensures |e| + |b| > 0 && (e + b)[|e| + |b| - 1] != 'さ'
  {
    if b == "" {
      assert e + b == e;
    } else {
      assert (e + b)[|e| + |b| - 1] == b[|b| - 1];
    }
  }

  /** In a triple stop that ends its clause only the last word begins an audited clause. */
  lemma TripleIntent(s: string, x: string, b: string, m: string, j: int, q: Rule, k: int, audited: string -> bool)
    requires TripleAt(s, x, b, m, j) && ListsStops(audited) && InTables(q) && Applies(s, q, k, audited)
    ensures var p := k + |q.ending| + |q.bridge|;
      p < j || p == j + 2 * |x + b| || p > j + |TripleText(x, b, m)|
  {
    hide *;
    var u, p := TripleText(x, b, m), k + |q.ending| + |q.bridge|;
    AppliesOpened(s, q, k, audited);
    TripleOpened(s, x, b, m, j);
    BeforeMarker(s, q, k);
    TailSpan(s, j);
    if j <= p <= j + |u| {
      TripleStarts(x, b, m, p - j);
      TripleWhole(x, b, m, s, j, p, audited);
    }
  }

  lemma TripleWhole(x: string, b: string, m: string, s: string, j: int, p: nat, audited: string -> bool)
    requires TripleAt(s, x, b, m, j) && ListsStops(audited) && p <= |s| && audited(Tail(s, p))
    ensures p != j && p != j + |x + b|
  {
    hide *;
    var u, d := TripleText(x, b, m), |x + b|;
    TripleOpened(s, x, b, m, j);
    TripleEnds(x, b, m);
    if p == j { NotAudited(x, b, m, u, audited); }
    if p == j + d {
      TailInside(s, j, d);
      NotAudited(x, b, m, u[d..], audited);
    }
  }

  lemma TripleOpened(s: string, x: string, b: string, m: string, j: int)
    requires TripleAt(s, x, b, m, j)
    ensures IsStop(x) && IsStop(m) && b in BRIDGES && (m == STOP_POLITE ==> x == STOP_POLITE)
    ensures 0 <= j <= |s| && Tail(s, j) == TripleText(x, b, m)
  {
    hide Tail;
    hide IsStop;
    hide BRIDGES;
    hide TripleText;
  }

  lemma TripleClosed(s: string, x: string, b: string, m: string, j: int)
    requires IsStop(x) && IsStop(m) && b in BRIDGES && (m == STOP_POLITE ==> x == STOP_POLITE)
    requires 0 <= j <= |s| && Tail(s, j) == TripleText(x, b, m)
    ensures TripleAt(s, x, b, m, j)
  {
    hide Tail;
    hide IsStop;
    hide BRIDGES;
    hide TripleText;
  }

  lemma TripleEnds(x: string, b: string, m: string)
    ensures var u, d := TripleText(x, b, m), |x + b|;
      d <= |u| && EndsWith(u, x + b + m) && EndsWith(u[d..], x + b + m)
  {
    var u, d := TripleText(x, b, m), |x + b|;
    assert u == (x + b) + ((x + b) + m);
    assert u[d..] == x + b + m;
  }

  lemma NotAudited(x: string, b: string, m: string, c: string, audited: string -> bool)
    requires IsStop(x) && IsStop(m) && b in BRIDGES && (m == STOP_POLITE ==> x == STOP_POLITE)
    requires ListsStops(audited) && EndsWith(c, x + b + m)
    ensures !audited(c)
  {
    StopRule(x, b, m);
    hide InTables;
    hide IsStopRule;
    hide BRIDGES;
    hide IsStop;
    hide EndsWith;
    assert Rule(x, b, m).Needle() == x + b + m;
  }

  lemma StopRule(x: string, b: string, m: string)
    requires IsStop(x) && IsStop(m) && b in BRIDGES && (m == STOP_POLITE ==> x == STOP_POLITE)
    ensures var r := Rule(x, b, m);
      InTables(r) && IsStopRule(r) && r.marker != NO && |Lead(r)| == |x + b|
  {
    assert PRIOR_ENDINGS[0] == STOP_WORD && PRIOR_ENDINGS[1] == STOP_POLITE;
    assert MARKERS[6] == STOP_WORD && MARKERS[7] == STOP_POLITE;
    hide BRIDGES;
  }

  /** Where the search stops at the last word of a triple stop, the chain of stops began earlier. */
  lemma TripleChain(s: string, x: string, b: string, m: string, j: int, q: Rule, k: int)
    requires TripleAt(s, x, b, m, j) && InTables(q) && OccursAt(s, q.Needle(), k) && Visits(s, q, 0, k)
    requires k + |q.ending| + |q.bridge| == j + 2 * |x + b|
    ensures q.ending == x && q.bridge == b && OccursAt(s, x + b, j - |x + b|)
  {
    hide *;
    var d := |x + b|;
    TripleOpened(s, x, b, m, j);
    TripleRead(s, x, b, m, j, q, k);
    var r := Rule(x, b, q.marker);
    assert q == r && k == j + d;
    StopRule(x, b, q.marker);
    TripleCopy(s, x, b, m, j, q.marker);
    IntentPlace(q, k);
    if !OccursAt(s, q.Needle(), j - d) { SecondCopyIsPassed(s, q, j); }
    OccursJoined(s, x + b, q.marker, j - d);
  }

  /** The only rules whose boundary is the last one of a triple stop. */
  lemma TripleRead(s: string, x: string, b: string, m: string, j: int, q: Rule, k: int)
    requires TripleAt(s, x, b, m, j) && InTables(q) && OccursAt(s, q.Needle(), k)
    requires k + |q.ending| + |q.bridge| == j + 2 * |x + b|
    ensures q.ending == x && q.bridge == b && IsStop(q.marker) && q.marker <= x
    ensures q.marker == STOP_POLITE ==> x == STOP_POLITE
  {
    hide *;
    var r, at := Rule(x, b, STOP_WORD), j + 2 * |x + b|;
    TripleOpened(s, x, b, m, j);
    StopForms(x, m);
    StopRule(x, b, STOP_WORD);
    PlainRule(r);
    TripleOccurs(s, x, b, m, j);
    IntentPlace(q, k);
    OccursJoined(s, q.ending + q.bridge, q.marker, k);
    SameEnding(s, r, q, at);
    SameMarker(s, r, q, at);
    MarkerEnds(s, at, q, k);
    StopForms(q.marker, m);
    StopForms(q.marker, x);
  }

  lemma TripleOccurs(s: string, x: string, b: string, m: string, j: int)
    requires TripleAt(s, x, b, m, j)
    ensures var at := j + 2 * |x + b|;
      OccursAt(s, x + b, j + |x + b|) && OccursAt(s, STOP_WORD, at) && 0 <= at <= |s| && Tail(s, at) == m
  {
    hide *;
    TriplePause(s, x, b, m, j);
    TripleLast(s, x, b, m, j);
    StopOccurs(s, j + 2 * |x + b|);
  }

  lemma TriplePause(s: string, x: string, b: string, m: string, j: int)
    requires TripleAt(s, x, b, m, j)
    ensures OccursAt(s, x + b, j + |x + b|)
  {
    hide *;
    TripleOpened(s, x, b, m, j);
    TripleMiddle(x, b, m);
    TailOccurs(s, j, |x + b|, x + b);
  }

  lemma TripleMiddle(x: string, b: string, m: string)
    ensures var u, d := TripleText(x, b, m), |x + b|;
      d + d <= |u| && u[d..d + d] == x + b
  {
    assert TripleText(x, b, m) == (x + b) + ((x + b) + m);
  }

  lemma TripleLast(s: string, x: string, b: string, m: string, j: int)
    requires TripleAt(s, x, b, m, j)
    ensures var at := j + 2 * |x + b|;
      0 <= at <= |s| && Tail(s, at) == m && IsStop(m)
  {
    hide *;
    TripleOpened(s, x, b, m, j);
    TripleRest(x, b, m);
    TailInside(s, j, 2 * |x + b|);
  }

  lemma TripleRest(x: string, b: string, m: string)
    ensures var u, d := TripleText(x, b, m), |x + b|;
      2 * d <= |u| && u[2 * d..] == m && d + |x + b + m| <= |u| && u[d..d + |x + b + m|] == x + b + m
  {
    assert TripleText(x, b, m) == (x + b) + ((x + b) + m);
  }

  lemma StopOccurs(s: string, at: nat)
    requires at <= |s| && IsStop(Tail(s, at))
    ensures OccursAt(s, STOP_WORD, at)
  {
    hide *;
    StopForms(Tail(s, at), STOP_WORD);
    TailOccurs(s, at, 0, STOP_WORD);
  }

  lemma StopForms(w: string, x: string)
    ensures IsStop(w) <==> w == STOP_WORD || w == STOP_POLITE
    ensures IsStop(w) ==> STOP_WORD <= w
    ensures IsStop(w) && IsStop(x) && |w| <= |x| ==> w <= x && (w == STOP_POLITE ==> x == STOP_POLITE)
    ensures IsStop(STOP_WORD)
  {
  }

  lemma PlainRule(r: Rule)
    requires InTables(r) && IsStopRule(r) && r.marker == STOP_WORD
    ensures IsPlain(r)
  {
    assert |STOP_WORD| != |STOP_POLITE|;
  }

  /** A needle ends in the clause that its boundary starts. */
  lemma MarkerEnds(s: string, at: nat, q: Rule, k: int)
    requires InTables(q) && OccursAt(s, q.Needle(), k) && at <= |s| && k + |q.ending| + |q.bridge| == at
    ensures |q.marker| <= |Tail(s, at)|
  {
    hide *;
    RuleIsClean(q);
    NeedlePlace(q);
    OccursWithin(s, q.Needle(), k);
    FreeSpan(s, q.Needle(), k);
    TailSpan(s, at);
  }

  /** The needle with the first stop behind the first pause. */
  lemma TripleCopy(s: string, x: string, b: string, m: string, j: int, w: string)
    requires TripleAt(s, x, b, m, j) && w <= x
    ensures OccursAt(s, x + b + w, j)
  {
    hide *;
    TripleOpened(s, x, b, m, j);
    TripleBegins(x, b, m, w);
    TailOccurs(s, j, 0, x + b + w);
  }

  lemma TripleBegins(x: string, b: string, m: string, w: string)
    requires w <= x
    ensures x + b + w <= TripleText(x, b, m)
  {
    assert TripleText(x, b, m) == (x + b) + (x + (b + m));
  }

  /** Cut behind its second word, a chain of four stops is a triple stop one word earlier. */
  lemma ChainCut(a: string, y: string, c: string, x: string, b: string, m: string, j: int)
    requires TripleAt(a + y, x, b, m, j) && OccursAt(a + y, x + b, j - |x + b|) && |a| == j + |x + b| + |x|
    ensures TripleAt(a + [STOP] + c, x, b, x, j - |x + b|)
  {
    hide *;
    var from := j - |x + b|;
    TripleOpened(a + y, x, b, m, j);
    ChainSpan(a + y, x, b, m, j);
    CutTail(a, y, c, from);
    ChainText(a, y, x, b, m, from, j);
    TripleClosed(a + [STOP] + c, x, b, x, from);
  }

  lemma ChainSpan(s: string, x: string, b: string, m: string, j: int)
    requires TripleAt(s, x, b, m, j) && OccursAt(s, x + b, j - |x + b|)
    ensures var from, end := j - |x + b|, j + |x + b| + |x|;
      && 0 <= from && end <= |s| && |x + b| + |x| <= |TripleText(x, b, m)|
      && s[j..end] == TripleText(x, b, m)[..|x + b| + |x|]
      && (forall i :: from <= i < end ==> !IsClauseSeparator(s[i]))
  {
    hide *;
    var u := TripleText(x, b, m);
    TripleOpened(s, x, b, m, j);
    TripleJoins(x, b, m);
    TailSpan(s, j);
    SliceOfSlice(s, j, j + |u|, 0, |x + b| + |x|);
    OccursWithin(s, x + b, j - |x + b|);
    PauseIsFree(x, b);
    FreeSpan(s, x + b, j - |x + b|);
  }

  lemma PauseIsFree(x: string, b: string)
    requires IsStop(x) && b in BRIDGES
    ensures Free(IsClauseSeparator, x + b)
  {
    hide *;
    var r := Rule(x, b, STOP_WORD);
    StopForms(STOP_WORD, x);
    StopForms(x, x);
    StopRule(x, b, STOP_WORD);
    RuleIsClean(r);
    IntentPlace(r, 0);
    FreePrefix(r.Needle(), |x + b|);
  }

  lemma CutTail(a: string, y: string, c: string, from: nat)
    requires from <= |a| && forall i :: from <= i < |a| ==> !IsClauseSeparator((a + y)[i])
    ensures Tail(a + [STOP] + c, from) == a[from..]
  {
    assert IsClauseSeparator(STOP);
    hide IsClauseSeparator;
    hide Tail;
    var t := a + [STOP] + c;
    assert forall i :: 0 <= i < |a| ==> (a + y)[i] == a[i] == t[i];
    assert t[|a|] == STOP;
    TailIs(t, from, |a|);
    assert t[from..|a|] == a[from..];
  }

  lemma ChainText(a: string, y: string, x: string, b: string, m: string, from: nat, j: nat)
    requires OccursAt(a + y, x + b, from) && j == from + |x + b| && |a| == j + |x + b| + |x|
    requires |x + b| + |x| <= |TripleText(x, b, m)|
    requires (a + y)[j..|a|] == TripleText(x, b, m)[..|x + b| + |x|]
    ensures a[from..] == TripleText(x, b, x)
  {
    hide TripleText;
    TripleJoins(x, b, m);
    SplitSlice(a, y, from, j);
  }

  lemma TripleJoins(x: string, b: string, m: string)
    ensures |x + b| + |x| <= |TripleText(x, b, m)|
    ensures x + b + TripleText(x, b, m)[..|x + b| + |x|] == TripleText(x, b, x)
  {
    Assemble(x + b + x, b, m);
    Assemble(x + b, x, b);
    Assemble(x + b, x + b, x);
    var front := x + b + x;
    assert TripleText(x, b, m) == front + (b + m);
    assert TripleText(x, b, m)[..|front|] == front;
  }

  /** A turn of the loop leaves a triple stop that ends its clause, here or one word earlier. */
  lemma TripleStays(
    s: string, t: string, audited: string -> bool, x: string, b: string, m: string, j: int)
    returns (w: string, l: int)
    requires TripleAt(s, x, b, m, j) && ListsStops(audited) && LoopRewrites(s, t, audited)
    ensures TripleAt(t, x, b, w, l)
  {
    hide *;
    var q, k := TurnWhere(s, t, audited);
    AppliesOpened(s, q, k, audited);
    var a, c := Around(s, q, k);
    NeedlePlace(q);
    TripleIntent(s, x, b, m, j, q, k, audited);
    TripleOpened(s, x, b, m, j);
    TailSpan(s, j);
    var p := k + |q.ending| + |q.bridge|;
    var end := j + |TripleText(x, b, m)|;
    if p == j + 2 * |x + b| {
      TripleChain(s, x, b, m, j, q, k);
      Assemble(a, q.bridge, c);
      ChainCut(a, q.bridge + c, c, x, b, m, j);
      w, l := x, j - |x + b|;
    } else if p < j {
      w, l := m, j - |q.bridge| + 1;
      TailRight(a + q.bridge, c, j - p);
      TailRight(a + [STOP], c, j - p);
      TripleClosed(t, x, b, m, l);
    } else {
      w, l := m, j;
      OccursWithin(s, q.Needle(), k);
      NeedleBehind(s, q, k, end);
      Assemble(a, q.bridge, c);
      Assemble(a, [STOP], c);
      TailBefore(a, q.bridge + c, [STOP] + c, j, end);
      TripleClosed(t, x, b, m, l);
    }
  }

  lemma {:induction false} RunKeepsTriple(
    s: string, t: string, n: nat, audited: string -> bool, x: string, b: string, m: string, j: int)
    returns (w: string, l: int)
    requires TripleAt(s, x, b, m, j) && ListsStops(audited) && LoopRun(s, t, n, audited)
    ensures TripleAt(t, x, b, w, l)
    decreases n
  {
    hide LoopRewrites;
    hide TripleAt;
    hide ListsStops;
    if n == 0 {
      w, l := m, j;
    } else {
      var u :| LoopRun(s, u, n - 1, audited) && LoopRewrites(u, t, audited);
      w, l := RunKeepsTriple(s, u, n - 1, audited, x, b, m, j);
      w, l := TripleStays(u, t, audited, x, b, w, l);
    }
  }

  /** A triple stop that ends its clause is an audited boundary. */
  lemma TripleIsLeftover(t: string, audited: string -> bool, x: string, b: string, m: string, j: int)
    requires TripleAt(t, x, b, m, j) && ListsStops(audited)
    ensures Leftover(t, audited)
  {
    hide *;
    var r, k := Rule(x, b, m), j + |x + b|;
    TripleOpened(t, x, b, m, j);
    StopRule(x, b, m);
    TripleOccurs(t, x, b, m, j);
    TripleNeedle(t, x, b, m, j);
    StopsAudited(audited, m);
    IntentPlace(r, k);
    IsLeftover(t, r, k, audited);
  }

  lemma TripleNeedle(t: string, x: string, b: string, m: string, j: int)
    requires TripleAt(t, x, b, m, j)
    ensures OccursAt(t, Rule(x, b, m).Needle(), j + |x + b|)
  {
    hide *;
    TripleOpened(t, x, b, m, j);
    TripleRest(x, b, m);
    IntentPlace(Rule(x, b, m), j);
    TailOccurs(t, j, |x + b|, x + b + m);
  }

  lemma StopsAudited(audited: string -> bool, m: string)
    requires ListsStops(audited) && IsStop(m)
    ensures audited(m)
  {
    hide InTables;
    hide IsStopRule;
    hide EndsWith;
  }

  /**
   For a given audit that lists both stops: on a phrase in which a stop is said three times, ending
   its clause, every run of the loop leaves an audited boundary, and such a phrase is stubborn.
   */
  lemma TripleAlwaysLeaves(s: string, audited: string -> bool)
    requires HoldsTriple(s) && ListsStops(audited)
    ensures LoopAlwaysLeaves(s, audited) && LoopLeaves(s, audited) && Stubborn(s)
  {
    hide TripleAt;
    var x, b, m, j :| TripleAt(s, x, b, m, j);
    hide *;
    forall t, n | LoopRun(s, t, n, audited) ensures Leftover(t, audited) {
      var w, l := RunKeepsTriple(s, t, n, audited, x, b, m, j);
      TripleIsLeftover(t, audited, x, b, w, l);
    }
    var t, n := LoopEnds(s, audited);
    AlwaysLeaves(s, audited, t, n);
    LeavesIsStubborn(s, audited);
  }

  /** The audit of the two stop requests alone is such an audit. */
  lemma StopsAreListed()
    ensures ListsStops(IsStop)
  {
    forall r, c | InTables(r) && IsStopRule(r) && r.marker != NO && IsStop(c) ensures !EndsWith(c, r.Needle()) {
      NeedleNoStop(r, c);
    }
    hide EndsWith;
    hide InTables;
    hide IsStopRule;
    assert IsStop(STOP_WORD) && IsStop(STOP_POLITE);
  }

  lemma NeedleNoStop(r: Rule, c: string)
    requires IsStopRule(r) && r.marker != NO && IsStop(c)
    ensures !EndsWith(c, r.Needle())
  {
    NeedleParts(r);
    if EndsWith(c, r.Needle()) { SameEnd(c, r.Needle()); }
  }

  lemma SameEnd(c: string, n: string)
    requires EndsWith(c, n) && n != []
    ensures c[|c| - 1] == n[|n| - 1]
  {
    assert c[|c| - |n|..][|n| - 1] == c[|c| - 1];
  }
}
