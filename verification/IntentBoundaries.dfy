/**
 Restoring clause boundaries between two proxy-answer intents: a rewriting loop whose phrase may
 grow with every step.  Its measure is the number of needle occurrences: a rewrite puts a full
 stop, which no needle contains, into a matched needle.
 */
module IntentBoundaries {
  import opened Common
  import opened Sequences
  import opened Text
  import opened Clauses
  import opened QuotedSpeech

  const STOP := '。'

  const MARKERS: seq<string> := ["やっぱり", "やはり", "いや", "でも", "今は", "もう", "やめて", "やめてください"]

  const BRIDGES: seq<string> := ["", "、", ",", "、 ", ", ", " "]

  const REQUESTS: seq<string> := [
    "やめて", "やめてください", "答えて", "答えてください", "回答して", "回答してください",
    "返事して", "返事してください"]
  const MAKING: seq<string> := ["作って", "作ってください", "読んで", "読んでください", "読み上げて", "読み上げてください"]
  const NOT_ANSWERING: seq<string> := ["答えないで", "答えないでください", "答えなくていい", "答えてほしくない"]
  const NOT_REPLYING: seq<string> := ["回答しないで", "回答しないでください", "回答しなくていい", "回答してほしくない"]
  const NOT_RESPONDING: seq<string> := ["返事しないで", "返事しないでください", "返事しなくていい", "返事してほしくない"]
  const NOT_MAKING: seq<string> := ["作らないで", "作らないでください", "作らなくていい", "作ってほしくない"]
  const NOT_READING: seq<string> := ["読まないで", "読まないでください", "読まなくていい", "読んでほしくない"]
  const NOT_READING_OUT: seq<string> := ["読み上げないで", "読み上げないでください", "読み上げなくていい", "読み上げてほしくない"]

  const PRIOR_ENDINGS: seq<string> :=
    REQUESTS + MAKING + NOT_ANSWERING + NOT_REPLYING + NOT_RESPONDING + NOT_MAKING + NOT_READING + NOT_READING_OUT

  lemma MarkersAreClean()
    ensures AllClean(MARKERS) && AllNonEmpty(MARKERS)
  {
  }

  lemma BridgesAreClean()
    ensures forall b :: b in BRIDGES ==> Free(IsClauseSeparator, b)
  {
  }

  lemma RequestsAreClean()
    ensures AllClean(REQUESTS) && AllNonEmpty(REQUESTS)
  {
  }

  lemma MakingIsClean()
    ensures AllClean(MAKING) && AllNonEmpty(MAKING)
  {
  }

  lemma NotAnsweringIsClean()
    ensures AllClean(NOT_ANSWERING) && AllNonEmpty(NOT_ANSWERING)
  {
  }

  lemma NotReplyingIsClean()
    ensures AllClean(NOT_REPLYING) && AllNonEmpty(NOT_REPLYING)
  {
  }

  lemma NotRespondingIsClean()
    ensures AllClean(NOT_RESPONDING) && AllNonEmpty(NOT_RESPONDING)
  {
  }

  lemma NotMakingIsClean()
    ensures AllClean(NOT_MAKING) && AllNonEmpty(NOT_MAKING)
  {
  }

  lemma NotReadingIsClean()
    ensures AllClean(NOT_READING) && AllNonEmpty(NOT_READING)
  {
  }

  lemma NotReadingOutIsClean()
    ensures AllClean(NOT_READING_OUT) && AllNonEmpty(NOT_READING_OUT)
  {
  }

  lemma CleanJoin(a: seq<string>, b: seq<string>)
    requires AllClean(a) && AllNonEmpty(a) && AllClean(b) && AllNonEmpty(b)
    ensures AllClean(a + b) && AllNonEmpty(a + b)
  {
  }

  lemma EndingsAreClean()
    ensures AllClean(PRIOR_ENDINGS) && AllNonEmpty(PRIOR_ENDINGS)
  {
    RequestsAreClean();
    MakingIsClean();
    NotAnsweringIsClean();
    NotReplyingIsClean();
    NotRespondingIsClean();
    NotMakingIsClean();
    NotReadingIsClean();
    NotReadingOutIsClean();
    hide AllClean;
    hide AllNonEmpty;
    CleanJoin(REQUESTS, MAKING);
    var a := REQUESTS + MAKING + NOT_ANSWERING;
    CleanJoin(REQUESTS + MAKING, NOT_ANSWERING);
    CleanJoin(a, NOT_REPLYING);
    CleanJoin(a + NOT_REPLYING, NOT_RESPONDING);
    CleanJoin(a + NOT_REPLYING + NOT_RESPONDING, NOT_MAKING);
    CleanJoin(a + NOT_REPLYING + NOT_RESPONDING + NOT_MAKING, NOT_READING);
    CleanJoin(a + NOT_REPLYING + NOT_RESPONDING + NOT_MAKING + NOT_READING, NOT_READING_OUT);
  }

  // ---------------------------------------------------------------- rules and rewrites

  datatype Rule = Rule(ending: string, bridge: string, marker: string) {
    function Needle(): string { ending + bridge + marker }
  }

  predicate InTables(r: Rule) {
    r.ending in PRIOR_ENDINGS && r.bridge in BRIDGES && r.marker in MARKERS
  }

  lemma RuleIsClean(r: Rule)
    requires InTables(r)
    ensures r.ending != [] && r.marker != [] && Free(IsClauseSeparator, r.Needle()) && STOP !in r.Needle()
  {
    EndingsAreClean();
    MarkersAreClean();
    BridgesAreClean();
    MemberIsClean(PRIOR_ENDINGS, r.ending);
    MemberIsClean(MARKERS, r.marker);
    hide PRIOR_ENDINGS;
    hide MARKERS;
    hide BRIDGES;
  }

  lemma MemberIsClean(ss: seq<string>, s: string)
    requires AllClean(ss) && AllNonEmpty(ss) && s in ss
    ensures s != [] && Free(IsClauseSeparator, s)
  {
    var i :| 0 <= i < |ss| && ss[i] == s;
    assert forall j :: 0 <= j < |s| ==> IsWordCharacter(ss[i][j]);
  }

  /** The clause that starts at `at`. */
  function Tail(s: string, at: nat): string
    requires at <= |s|
    decreases |s| - at
  {
    if at == |s| || IsClauseSeparator(s[at]) then [] else [s[at]] + Tail(s, at + 1)
  }

  /** The matched bridge gives way to a full stop. */
  function Rewritten(s: string, r: Rule, k: nat): string
    requires k + |r.Needle()| <= |s|
  {
    s[..k + |r.ending|] + [STOP] + s[k + |r.ending| + |r.bridge|..]
  }

  /** A needle at `k` whose second half starts an audited intent. */
  predicate Applies(s: string, r: Rule, k: int, audited: string -> bool) {
    OccursAt(s, r.Needle(), k) && audited(Tail(s, k + |r.ending| + |r.bridge|))
  }

  ghost predicate Rewrites(s: string, t: string, audited: string -> bool) {
    exists r, k :: InTables(r) && Applies(s, r, k, audited) && t == Rewritten(s, r, k)
  }

  ghost predicate RewritesIn(s: string, t: string, n: nat, audited: string -> bool)
    decreases n
  {
    if n == 0 then s == t else exists m :: RewritesIn(s, m, n - 1, audited) && Rewrites(m, t, audited)
  }

  /** Around a matched needle: what is before the bridge, the bridge, what is behind it. */
  lemma Around(s: string, r: Rule, k: int) returns (a: string, c: string)
    requires OccursAt(s, r.Needle(), k)
    ensures |a| == k + |r.ending| && a[k..] == r.ending && r.marker <= c
    ensures s == a + r.bridge + c && Rewritten(s, r, k) == a + [STOP] + c
  {
    a, c := s[..k + |r.ending|], s[k + |r.ending| + |r.bridge|..];
    var needle := s[k..k + |r.Needle()|];
    assert s == s[..k] + needle + s[k + |r.Needle()|..];
    assert s == s[..k] + (r.ending + r.bridge + r.marker) + s[k + |r.Needle()|..];
    assert a == s[..k] + r.ending;
    assert c == r.marker + s[k + |r.Needle()|..];
  }

  // ---------------------------------------------------------------- the measure

  ghost function Rules(): set<Rule> {
    set e, b, m | e in PRIOR_ENDINGS && b in BRIDGES && m in MARKERS :: Rule(e, b, m)
  }

  ghost function Places(n: nat): set<int> {
    if n == 0 then {0} else Places(n - 1) + {n}
  }

  lemma {:induction false} InPlaces(n: nat, k: int)
    ensures k in Places(n) <==> 0 <= k <= n
    decreases n
  {
    if n != 0 { InPlaces(n - 1, k); }
  }

  /** Every occurrence of every needle. */
  ghost function Hits(s: string): set<(Rule, int)> {
    set r, k | r in Rules() && k in Places(|s|) && OccursAt(s, r.Needle(), k) :: (r, k)
  }

  lemma HitIff(s: string, r: Rule, k: int)
    ensures (r, k) in Hits(s) <==> InTables(r) && OccursAt(s, r.Needle(), k)
  {
    assert r in Rules() <==> InTables(r);
    InPlaces(|s|, k);
  }

  lemma {:induction false} ImageSize<A, B>(s: set<A>, image: set<B>, f: A -> B)
    requires forall x, y :: x in s && y in s && f(x) == f(y) ==> x == y
    requires image == set x | x in s :: f(x)
    ensures |image| == |s|
    decreases |s|
  {
    if s == {} {
      assert image == {};
    } else {
      var x :| x in s;
      var rest := set y | y in s - {x} :: f(y);
      ImageSize(s - {x}, rest, f);
      assert image == rest + {f(x)};
      assert f(x) !in rest;
    }
  }

  /** The full stop never lies inside an occurrence, so each one is left of it or right of it. */
  lemma StopSplits(a: string, c: string, n: string, k: int)
    requires STOP !in n && OccursAt(a + [STOP] + c, n, k)
    ensures k + |n| <= |a| || k > |a|
  {
    var t := a + [STOP] + c;
    assert forall i :: 0 <= i < |n| ==> n[i] == t[k + i];
    assert t[|a|] == STOP;
  }

  /** Where an occurrence of the rewritten phrase stood before the rewrite. */
  function Origin(h: (Rule, int), left: nat, bridge: nat): (Rule, int) {
    if h.1 + |h.0.Needle()| <= left then h else (h.0, h.1 - 1 + bridge)
  }

  /** A non-empty occurrence on one side of the full stop at `left`. */
  ghost predicate Beside(h: (Rule, int), left: nat) {
    |h.0.Needle()| > 0 && (h.1 + |h.0.Needle()| <= left || h.1 > left)
  }

  lemma OriginInjective(h: (Rule, int), g: (Rule, int), left: nat, bridge: nat)
    requires Beside(h, left) && Beside(g, left) && Origin(h, left, bridge) == Origin(g, left, bridge)
    ensures h == g
  {
  }

  lemma OriginMisses(h: (Rule, int), r: Rule, k: int, left: nat)
    requires Beside(h, left) && r.ending != [] && r.marker != [] && left == k + |r.ending|
    ensures Origin(h, left, |r.bridge|) != (r, k)
  {
  }

  /** An occurrence wholly inside one of two joined texts. */
  lemma OccursLeft(a: string, y: string, n: string, k: int)
    requires k + |n| <= |a|
    ensures OccursAt(a + y, n, k) <==> OccursAt(a, n, k)
  {
    if 0 <= k { assert (a + y)[k..k + |n|] == a[k..k + |n|]; }
  }

  lemma OccursRight(x: string, c: string, n: string, k: int)
    requires k >= |x|
    ensures OccursAt(x + c, n, k) <==> OccursAt(c, n, k - |x|)
  {
    if k + |n| <= |x + c| { assert (x + c)[k..k + |n|] == c[k - |x|..k - |x| + |n|]; }
  }

  lemma OccurrenceSurvives(a: string, b: string, c: string, n: string, k: int)
    requires n != [] && STOP !in n && OccursAt(a + [STOP] + c, n, k)
    ensures k + |n| <= |a| ==> OccursAt(a + b + c, n, k)
    ensures k + |n| > |a| ==> k > |a| && OccursAt(a + b + c, n, k - 1 + |b|)
  {
    StopSplits(a, c, n, k);
    hide OccursAt;
    Assemble(a, [STOP], c);
    Assemble(a, b, c);
    if k + |n| <= |a| {
      OccursLeft(a, [STOP] + c, n, k);
      OccursLeft(a, b + c, n, k);
    } else {
      OccursRight(a + [STOP], c, n, k);
      OccursRight(a + b, c, n, k - 1 + |b|);
    }
  }

  lemma HitSurvives(s: string, t: string, a: string, b: string, c: string, h: (Rule, int))
    requires s == a + b + c && t == a + [STOP] + c && h in Hits(t)
    ensures Origin(h, |a|, |b|) in Hits(s) && Beside(h, |a|)
  {
    hide InTables;
    hide Hits;
    HitIff(t, h.0, h.1);
    RuleIsClean(h.0);
    OccurrenceSurvives(a, b, c, h.0.Needle(), h.1);
    var o := Origin(h, |a|, |b|);
    HitIff(s, o.0, o.1);
  }

  /** Each rewrite strictly lowers the number of needle occurrences, though the phrase may grow. */
  lemma {:induction false} RewriteLowersHits(s: string, r: Rule, k: int)
    requires InTables(r) && OccursAt(s, r.Needle(), k)
    ensures |Hits(Rewritten(s, r, k))| < |Hits(s)|
  {
    hide InTables;
    hide Hits;
    hide Origin;
    hide Beside;
    var t := Rewritten(s, r, k);
    var a, c := Around(s, r, k);
    var left, bridge := |a|, |r.bridge|;
    RuleIsClean(r);
    HitIff(s, r, k);
    hide OccursAt;
    hide Rewritten;
    var origin := (h: (Rule, int)) => Origin(h, left, bridge);
    var image := set h | h in Hits(t) :: origin(h);
    forall h | h in Hits(t) ensures origin(h) in Hits(s) && origin(h) != (r, k) {
      HitSurvives(s, t, a, r.bridge, c, h);
      OriginMisses(h, r, k, left);
    }
    forall h, g | h in Hits(t) && g in Hits(t) && origin(h) == origin(g) ensures h == g {
      HitSurvives(s, t, a, r.bridge, c, h);
      HitSurvives(s, t, a, r.bridge, c, g);
      OriginInjective(h, g, left, bridge);
    }
    ImageSize(Hits(t), image, origin);
    ProperSubsetSize(image, Hits(s));
  }

  lemma RewritesLower(s: string, t: string, audited: string -> bool)
    requires Rewrites(s, t, audited)
    ensures |Hits(t)| < |Hits(s)|
  {
    hide InTables;
    hide Hits;
    hide Tail;
    hide Rewritten;
    var r, k :| InTables(r) && Applies(s, r, k, audited) && t == Rewritten(s, r, k);
    RewriteLowersHits(s, r, k);
  }

  /** Whatever order the boundaries are restored in, a phrase admits only so many rewrites. */
  lemma {:induction false} RewritingIsBounded(s: string, t: string, n: nat, audited: string -> bool)
    requires RewritesIn(s, t, n, audited)
    ensures n + |Hits(t)| <= |Hits(s)|
    decreases n
  {
    hide Hits;
    hide Rewrites;
    if n != 0 {
      var m :| RewritesIn(s, m, n - 1, audited) && Rewrites(m, t, audited);
      RewritingIsBounded(s, m, n - 1, audited);
      RewritesLower(m, t, audited);
    }
  }

  // ---------------------------------------------------------------- what a rewrite changes

  predicate IsJoint(c: char) {
    c == STOP || c == '、' || c == ',' || c == ' '
  }

  lemma BridgesAreJoints()
    ensures forall b :: b in BRIDGES ==> Drop(IsJoint, b) == []
  {
    assert Drop(IsJoint, "") == [];
    assert Drop(IsJoint, "、") == [] by { assert "、"[1..] == []; }
    assert Drop(IsJoint, ",") == [] by { assert ","[1..] == []; }
    assert Drop(IsJoint, " ") == [] by { assert " "[1..] == []; }
    assert Drop(IsJoint, "、 ") == [] by { assert "、 "[1..] == " "; }
    assert Drop(IsJoint, ", ") == [] by { assert ", "[1..] == " "; }
  }

  /** Rewriting touches nothing but stops, commas and blanks. */
  lemma {:induction false} RewritingKeepsWords(s: string, t: string, n: nat, audited: string -> bool)
    requires RewritesIn(s, t, n, audited)
    ensures Drop(IsJoint, t) == Drop(IsJoint, s)
    decreases n
  {
    hide Rewrites;
    hide Drop;
    if n != 0 {
      var m :| RewritesIn(s, m, n - 1, audited) && Rewrites(m, t, audited);
      RewritingKeepsWords(s, m, n - 1, audited);
      RewritesKeep(m, t, audited);
    }
  }

  lemma RewritesKeep(s: string, t: string, audited: string -> bool)
    requires Rewrites(s, t, audited)
    ensures Drop(IsJoint, t) == Drop(IsJoint, s)
  {
    hide InTables;
    hide Drop;
    hide Tail;
    hide Rewritten;
    var r, k :| InTables(r) && Applies(s, r, k, audited) && t == Rewritten(s, r, k);
    OneRewriteKeepsWords(s, r, k);
  }

  lemma OneRewriteKeepsWords(s: string, r: Rule, k: int)
    requires InTables(r) && OccursAt(s, r.Needle(), k)
    ensures Drop(IsJoint, Rewritten(s, r, k)) == Drop(IsJoint, s)
  {
    BridgeIsJoint(r);
    hide InTables;
    var a, c := Around(s, r, k);
    assert Drop(IsJoint, [STOP]) == [];
    hide Drop;
    DropConcat(IsJoint, a + r.bridge, c);
    DropConcat(IsJoint, a, r.bridge);
    DropConcat(IsJoint, a + [STOP], c);
    DropConcat(IsJoint, a, [STOP]);
  }

  lemma BridgeIsJoint(r: Rule)
    requires InTables(r)
    ensures Drop(IsJoint, r.bridge) == []
  {
    BridgesAreJoints();
    assert r.bridge in BRIDGES;
  }

  // ---------------------------------------------------------------- the loop

  /** The first occurrence at or after `from`, or -1. */
  function IndexFrom(s: string, needle: string, from: nat): (k: int)
    ensures k == -1 || (k >= from && OccursAt(s, needle, k))
    decreases |s| - from
  {
    if from > |s| - |needle| then -1
    else if OccursAt(s, needle, from) then from
    else IndexFrom(s, needle, from + 1)
  }

  /** Whether the non-overlapping scan for one needle meets an audited intent. */
  ghost predicate ScanHits(s: string, r: Rule, from: nat, audited: string -> bool)
    requires r.Needle() != []
    decreases |s| - from
  {
    from < |s| &&
    var k := IndexFrom(s, r.Needle(), from);
    k >= 0 && (Applies(s, r, k, audited) || ScanHits(s, r, k + |r.Needle()|, audited))
  }

  /** Whether the non-overlapping search for one needle stops at `k`. */
  ghost predicate Visits(s: string, r: Rule, from: nat, k: int)
    decreases |s| - from
  {
    r.Needle() != [] && from < |s| &&
    var at := IndexFrom(s, r.Needle(), from);
    at >= 0 && (at == k || Visits(s, r, at + |r.Needle()|, k))
  }

  /** One step of the scan. */
  lemma ScanStep(s: string, r: Rule, from: nat, audited: string -> bool)
    requires r.Needle() != []
    ensures var k := IndexFrom(s, r.Needle(), from);
      ScanHits(s, r, from, audited)
      <==> from < |s| && k >= 0 && (Applies(s, r, k, audited) || ScanHits(s, r, k + |r.Needle()|, audited))
  {
    hide Applies;
    hide IndexFrom;
  }

  lemma {:induction false} IndexIsFirst(s: string, needle: string, from: nat, k: int)
    requires OccursAt(s, needle, k) && from <= k
    ensures from <= IndexFrom(s, needle, from) <= k
    decreases |s| - from
  {
    if !OccursAt(s, needle, from) { IndexIsFirst(s, needle, from + 1, k); }
  }

  /**
   The scan skips over every occurrence it turns down, so it can miss an audited boundary; but only
   one that overlaps an earlier occurrence of its own needle.
   */
  lemma {:induction false} MissedBoundaryOverlaps(s: string, r: Rule, from: nat, k: int, audited: string -> bool)
    requires r.Needle() != [] && Applies(s, r, k, audited) && from <= k && !ScanHits(s, r, from, audited)
    ensures exists j :: OccursAt(s, r.Needle(), j) && k - |r.Needle()| < j < k
    decreases |s| - from
  {
    hide ScanHits;
    hide IndexFrom;
    hide Tail;
    OccursWithin(s, r.Needle(), k);
    hide OccursAt;
    IndexIsFirst(s, r.Needle(), from, k);
    var at := IndexFrom(s, r.Needle(), from);
    ScanStep(s, r, from, audited);
    if at + |r.Needle()| <= k {
      MissedBoundaryOverlaps(s, r, at + |r.Needle()|, k, audited);
    }
  }

  /** Some proper prefix of the needle is also its suffix. */
  ghost predicate SelfOverlaps(needle: string) {
    exists d :: 0 < d < |needle| && needle[d..] == needle[..|needle| - d]
  }

  /** The scan never misses an audited boundary exactly when its needle cannot overlap itself. */
  lemma {:induction false} ScanIsCompleteIff(r: Rule)
    requires InTables(r)
    ensures r.Needle() != []
    ensures (forall s, k, audited :: Applies(s, r, k, audited) ==> ScanHits(s, r, 0, audited))
       <==> !SelfOverlaps(r.Needle())
  {
    hide InTables;
    RuleIsClean(r);
    if SelfOverlaps(r.Needle()) {
      var d :| 0 < d < |r.Needle()| && r.Needle()[d..] == r.Needle()[..|r.Needle()| - d];
      OverlapHidesBoundary(r, d);
    } else {
      forall s, k, audited | Applies(s, r, k, audited) ensures ScanHits(s, r, 0, audited) {
        if !ScanHits(s, r, 0, audited) {
          MissedBoundaryOverlaps(s, r, 0, k, audited);
          var j :| OccursAt(s, r.Needle(), j) && k - |r.Needle()| < j < k;
          OverlapIsSelfOverlap(s, r.Needle(), j, k);
        }
      }
    }
  }

  lemma OverlapIsSelfOverlap(s: string, needle: string, j: int, k: int)
    requires OccursAt(s, needle, j) && OccursAt(s, needle, k) && k - |needle| < j < k
    ensures SelfOverlaps(needle)
  {
    var d := k - j;
    assert needle[d..] == s[k..j + |needle|] == needle[..|needle| - d];
  }

  /** Two copies shifted by `d`: only the second starts an audited intent, and the scan jumps over it. */
  lemma OverlapHidesBoundary(r: Rule, d: nat)
    requires 0 < d < |r.Needle()| && r.Needle()[d..] == r.Needle()[..|r.Needle()| - d]
    requires Free(IsClauseSeparator, r.Needle())
    ensures exists s, k, audited :: Applies(s, r, k, audited) && !ScanHits(s, r, 0, audited)
  {
    var needle, p := r.Needle(), |r.ending| + |r.bridge|;
    var s := needle[..d] + needle;
    hide *;
    Shifted(s, needle, d);
    ShiftedTails(s, needle, d, p);
    ScanJumps(s, r, d, (clause: string) => |clause| == |s| - d - p);
  }

  lemma ShiftedTails(s: string, needle: string, d: nat, p: nat)
    requires d < |needle| && p <= |needle| && s == needle[..d] + needle && Free(IsClauseSeparator, needle)
    ensures |Tail(s, p)| == |s| - p && |Tail(s, d + p)| == |s| - d - p
  {
    hide IsClauseSeparator;
    TailIsRest(s, p);
    TailIsRest(s, d + p);
  }

  lemma ScanJumps(s: string, r: Rule, d: nat, audited: string -> bool)
    requires r.Needle() != [] && OccursAt(s, r.Needle(), d)
    requires IndexFrom(s, r.Needle(), 0) == 0 && IndexFrom(s, r.Needle(), |r.Needle()|) == -1
    requires audited(Tail(s, d + |r.ending| + |r.bridge|)) && !audited(Tail(s, |r.ending| + |r.bridge|))
    ensures Applies(s, r, d, audited) && !ScanHits(s, r, 0, audited)
  {
    hide IndexFrom;
    hide ScanHits;
    hide Tail;
    ScanStep(s, r, 0, audited);
    ScanStep(s, r, |r.Needle()|, audited);
  }

  lemma Shifted(s: string, needle: string, d: nat)
    requires 0 < d < |needle| && needle[d..] == needle[..|needle| - d] && s == needle[..d] + needle
    ensures OccursAt(s, needle, d) && OccursAt(s, needle, 0)
    ensures IndexFrom(s, needle, 0) == 0 && IndexFrom(s, needle, |needle|) == -1
  {
    assert s[..|needle|] == needle[..d] + needle[..|needle| - d] == needle;
  }

  /** Any word said three times hides the boundary before the last one, when twice the word is not audited. */
  lemma RepeatedWordIsMissed(word: string, audited: string -> bool)
    requires word != [] && Free(IsClauseSeparator, word) && audited(word) && !audited(word + word)
    ensures var s, r := word + word + word, Rule(word, "", word);
      r.Needle() != [] && Applies(s, r, |word|, audited) && !ScanHits(s, r, 0, audited)
  {
    hide OccursAt;
    hide IndexFrom;
    hide Tail;
    hide Applies;
    hide ScanHits;
    hide Free;
    ThreeTails(word, word, word);
    RepeatedCopies(word);
    var s, r := word + word + word, Rule(word, "", word);
    assert |r.ending| + |r.bridge| == |word| && r.Needle() == word + "" + word;
    ScanJumps(s, r, |word|, audited);
  }

  lemma FreeJoin(a: string, b: string)
    requires Free(IsClauseSeparator, a) && Free(IsClauseSeparator, b)
    ensures Free(IsClauseSeparator, a + b)
  {
    hide IsClauseSeparator;
  }

  lemma ThreeTails(x: string, y: string, z: string)
    requires Free(IsClauseSeparator, y) && Free(IsClauseSeparator, z)
    ensures Tail(x + y + z, |x|) == y + z
    ensures Tail(x + y + z, |x| + |y|) == z
  {
    hide Tail;
    hide IsClauseSeparator;
    FreeJoin(y, z);
    hide Free;
    TailBehind(x, y + z);
    Assemble(x, y, z);
    TailBehind(x + y, z);
  }

  lemma TailBehind(x: string, y: string)
    requires Free(IsClauseSeparator, y)
    ensures Tail(x + y, |x|) == y
  {
    hide IsClauseSeparator;
    hide Tail;
    var s := x + y;
    assert forall i :: |x| <= i < |s| ==> s[i] == y[i - |x|];
    TailIsRest(s, |x|);
    assert s[|x|..] == y;
  }

  lemma RepeatedCopies(word: string)
    requires word != []
    ensures var s, needle := word + word + word, word + "" + word;
      && OccursAt(s, needle, |word|)
      && IndexFrom(s, needle, 0) == 0 && IndexFrom(s, needle, |needle|) == -1
  {
    ThreeWords(word, word + "" + word);
    Shifted(word + word + word, word + "" + word, |word|);
    hide OccursAt;
    hide IndexFrom;
  }

  lemma ThreeWords(word: string, needle: string)
    requires needle == word + "" + word
    ensures var n, s := |word|, word + word + word;
      && |needle| == 2 * n && needle[n..] == word && needle[..n] == word
      && s == needle[..n] + needle && s[n..] == needle == word + word && s[2 * n..] == word
  {
    assert needle == word + word;
  }

  lemma {:induction false} TailIsRest(s: string, at: nat)
    requires at <= |s| && forall i :: at <= i < |s| ==> !IsClauseSeparator(s[i])
    ensures Tail(s, at) == s[at..]
    decreases |s| - at
  {
    if at < |s| {
      TailIsRest(s, at + 1);
      assert s[at..] == [s[at]] + s[at + 1..];
    }
  }

  method ScanRule(s: string, r: Rule, audited: string -> bool) returns (k: int)
    requires InTables(r)
    ensures r.Needle() != []
    ensures k >= 0 ==> Applies(s, r, k, audited) && ScanHits(s, r, 0, audited) && Visits(s, r, 0, k)
    ensures k < 0 ==> !ScanHits(s, r, 0, audited)
  {
    hide InTables;
    hide Tail;
    hide OccursAt;
    hide IndexFrom;
    hide ScanHits;
    RuleIsClean(r);
    var searchAt := 0;
    while searchAt < |s|
      invariant ScanHits(s, r, searchAt, audited) == ScanHits(s, r, 0, audited)
      invariant forall j :: Visits(s, r, searchAt, j) ==> Visits(s, r, 0, j)
      decreases |s| - searchAt
    {
      ScanStep(s, r, searchAt, audited);
      var at := IndexFrom(s, r.Needle(), searchAt);
      if at < 0 {
        return -1;
      }
      OccursWithin(s, r.Needle(), at);
      if audited(Tail(s, at + |r.ending| + |r.bridge|)) {
        return at;
      }
      searchAt := at + |r.Needle()|;
    }
    ScanStep(s, r, searchAt, audited);
    k := -1;
  }

  lemma OccursWithin(s: string, needle: string, k: int)
    requires OccursAt(s, needle, k)
    ensures 0 <= k && k + |needle| <= |s|
  {
  }

  /** No scan for a rule with this ending and marker and one of these bridges meets an audited intent. */
  ghost predicate Exhausted(
    s: string, endings: seq<string>, markers: seq<string>, bridges: seq<string>, audited: string -> bool) {
    forall r: Rule :: r.ending in endings && r.marker in markers && r.bridge in bridges ==>
      r.Needle() != [] && !ScanHits(s, r, 0, audited)
  }

  lemma ExhaustedSnoc(
    s: string, x: string, endings: seq<string>, markers: seq<string>, bridges: seq<string>, audited: string -> bool)
    ensures Exhausted(s, endings, markers, bridges, audited) && Exhausted(s, [x], markers, bridges, audited) ==>
      Exhausted(s, endings + [x], markers, bridges, audited)
    ensures Exhausted(s, endings, markers, bridges, audited) && Exhausted(s, endings, [x], bridges, audited) ==>
      Exhausted(s, endings, markers + [x], bridges, audited)
    ensures Exhausted(s, endings, markers, bridges, audited) && Exhausted(s, endings, markers, [x], audited) ==>
      Exhausted(s, endings, markers, bridges + [x], audited)
    ensures Exhausted(s, [], markers, bridges, audited) && Exhausted(s, endings, [], bridges, audited)
    ensures Exhausted(s, endings, markers, [], audited)
  {
  }

  method FindBoundary(s: string, audited: string -> bool) returns (hit: Option<(Rule, nat)>)
    ensures hit.Some? ==>
      InTables(hit.value.0) && Applies(s, hit.value.0, hit.value.1, audited) && Visits(s, hit.value.0, 0, hit.value.1)
    ensures hit.None? <==> Exhausted(s, PRIOR_ENDINGS, MARKERS, BRIDGES, audited)
  {
    hit := FindAmong(s, audited, PRIOR_ENDINGS, MARKERS, BRIDGES);
  }

  method FindAmong(s: string, audited: string -> bool, endings: seq<string>, markers: seq<string>, bridges: seq<string>)
    returns (hit: Option<(Rule, nat)>)
    requires forall e, m, b :: e in endings && m in markers && b in bridges ==> InTables(Rule(e, b, m))
    ensures hit.Some? ==>
      InTables(hit.value.0) && Applies(s, hit.value.0, hit.value.1, audited) && Visits(s, hit.value.0, 0, hit.value.1)
    ensures hit.None? <==> Exhausted(s, endings, markers, bridges, audited)
  {
    hide InTables;
    hide Exhausted;
    hide Applies;
    hide ScanHits;
    hide Visits;
    ExhaustedSnoc(s, [], endings, markers, bridges, audited);
    for i := 0 to |endings|
      invariant Exhausted(s, endings[..i], markers, bridges, audited)
    {
      var e := endings[i];
      ExhaustedSnoc(s, [], [e], markers, bridges, audited);
      for j := 0 to |markers|
        invariant Exhausted(s, [e], markers[..j], bridges, audited)
      {
        var m := markers[j];
        ExhaustedSnoc(s, [], [e], [m], bridges, audited);
        for l := 0 to |bridges|
          invariant Exhausted(s, [e], [m], bridges[..l], audited)
        {
          var r := Rule(e, bridges[l], m);
          var k := ScanRule(s, r, audited);
          if k >= 0 {
            NotExhausted(s, r, endings, markers, bridges, audited);
            return Some((r, k));
          }
          SingleExhausted(s, r, audited);
          ExhaustedSnoc(s, bridges[l], [e], [m], bridges[..l], audited);
          assert bridges[..l + 1] == bridges[..l] + [bridges[l]];
        }
        assert bridges[..|bridges|] == bridges;
        ExhaustedSnoc(s, m, [e], markers[..j], bridges, audited);
        assert markers[..j + 1] == markers[..j] + [m];
      }
      assert markers[..|markers|] == markers;
      ExhaustedSnoc(s, e, endings[..i], markers, bridges, audited);
      assert endings[..i + 1] == endings[..i] + [e];
    }
    assert endings[..|endings|] == endings;
    hit := None;
  }

  lemma NotExhausted(
    s: string, r: Rule, endings: seq<string>, markers: seq<string>, bridges: seq<string>, audited: string -> bool)
    requires r.ending in endings && r.marker in markers && r.bridge in bridges
    requires r.Needle() != [] && ScanHits(s, r, 0, audited)
    ensures !Exhausted(s, endings, markers, bridges, audited)
  {
    hide ScanHits;
  }

  lemma SingleExhausted(s: string, r: Rule, audited: string -> bool)
    requires r.Needle() != [] && !ScanHits(s, r, 0, audited)
    ensures Exhausted(s, [r.ending], [r.marker], [r.bridge], audited)
  {
    hide ScanHits;
    forall q: Rule | q.ending in [r.ending] && q.marker in [r.marker] && q.bridge in [r.bridge]
      ensures q.Needle() != [] && !ScanHits(s, q, 0, audited)
    {
      assert q == r;
    }
  }

  /** One turn of the loop: a boundary that its search stops at gives way to a full stop. */
  ghost predicate LoopRewrites(s: string, t: string, audited: string -> bool) {
    exists r, k :: InTables(r) && Applies(s, r, k, audited) && Visits(s, r, 0, k) && t == Rewritten(s, r, k)
  }

  ghost predicate LoopRun(s: string, t: string, n: nat, audited: string -> bool)
    decreases n
  {
    if n == 0 then s == t else exists m :: LoopRun(s, m, n - 1, audited) && LoopRewrites(m, t, audited)
  }

  lemma LoopRewriteIsRewrite(s: string, t: string, audited: string -> bool)
    requires LoopRewrites(s, t, audited)
    ensures Rewrites(s, t, audited)
  {
    hide InTables;
    hide Applies;
    hide Visits;
    hide Rewritten;
  }

  lemma {:induction false} LoopRunRewrites(s: string, t: string, n: nat, audited: string -> bool)
    requires LoopRun(s, t, n, audited)
    ensures RewritesIn(s, t, n, audited)
    decreases n
  {
    hide Rewrites;
    hide LoopRewrites;
    if n != 0 {
      var m :| LoopRun(s, m, n - 1, audited) && LoopRewrites(m, t, audited);
      LoopRunRewrites(s, m, n - 1, audited);
      LoopRewriteIsRewrite(m, t, audited);
    }
  }

  // ---------------------------------------------------------------- what the loop leaves behind

  const STOP_WORD := "やめて"
  const STOP_POLITE := "やめてください"
  const NO := "いや"

  predicate IsVerb(c: char) {
    c == '答' || c == '回' || c == '返' || c == '作' || c == '読'
  }

  /** Begins with a verb character that it does not repeat, and has none of the stop's first character. */
  ghost predicate VerbWord(e: string) {
    e != [] && IsVerb(e[0]) && forall j :: 0 < j < |e| ==> e[j] != e[0] && e[j] != 'や'
  }

  ghost predicate VerbFirst(ss: seq<string>) {
    forall i :: 0 <= i < |ss| ==> VerbWord(ss[i])
  }

  /** No entry ends inside "ください". */
  predicate EndsPlainly(e: string) {
    e != [] && (e[|e| - 1] == 'て' || e[|e| - 1] == 'で' || e[|e| - 1] == 'い')
  }

  ghost predicate AllEndPlainly(ss: seq<string>) {
    forall i :: 0 <= i < |ss| ==> EndsPlainly(ss[i])
  }

  lemma RequestsEndPlainly()
    ensures AllEndPlainly(REQUESTS) && AllEndPlainly(MAKING)
  {
  }

  lemma RefusalsEndPlainlyA()
    ensures AllEndPlainly(NOT_ANSWERING) && AllEndPlainly(NOT_REPLYING) && AllEndPlainly(NOT_RESPONDING)
  {
  }

  lemma RefusalsEndPlainlyB()
    ensures AllEndPlainly(NOT_MAKING) && AllEndPlainly(NOT_READING) && AllEndPlainly(NOT_READING_OUT)
  {
  }

  lemma EndingEndsPlainly(e: string)
    requires e in PRIOR_ENDINGS
    ensures EndsPlainly(e)
  {
    RequestsEndPlainly();
    RefusalsEndPlainlyA();
    RefusalsEndPlainlyB();
    assert AllEndPlainly(PRIOR_ENDINGS) by {
      hide REQUESTS;
      hide MAKING;
      hide NOT_ANSWERING;
      hide NOT_REPLYING;
      hide NOT_RESPONDING;
      hide NOT_MAKING;
      hide NOT_READING;
      hide NOT_READING_OUT;
      hide EndsPlainly;
    }
    hide PRIOR_ENDINGS;
    var i :| 0 <= i < |PRIOR_ENDINGS| && PRIOR_ENDINGS[i] == e;
  }

  lemma VerbsFirstA()
    ensures REQUESTS[0] == STOP_WORD && REQUESTS[1] == STOP_POLITE && VerbFirst(REQUESTS[2..])
  {
  }

  lemma VerbsFirstB()
    ensures VerbFirst(MAKING)
  {
  }

  lemma VerbsFirstC()
    ensures VerbFirst(NOT_ANSWERING) && VerbFirst(NOT_REPLYING)
  {
  }

  lemma VerbsFirstD()
    ensures VerbFirst(NOT_RESPONDING) && VerbFirst(NOT_MAKING)
  {
  }

  lemma VerbsFirstE()
    ensures VerbFirst(NOT_READING) && VerbFirst(NOT_READING_OUT)
  {
  }

  lemma VerbFirstMember(ss: seq<string>, e: string)
    requires VerbFirst(ss) && e in ss
    ensures VerbWord(e)
  {
    var i :| 0 <= i < |ss| && ss[i] == e;
  }

  lemma StopHeads()
    ensures forall j :: 0 < j < |STOP_WORD| ==> STOP_WORD[j] != STOP_WORD[0]
    ensures forall j :: 0 < j < |STOP_POLITE| ==> STOP_POLITE[j] != STOP_POLITE[0]
  {
  }

  lemma EndingFacts(e: string)
    requires e in PRIOR_ENDINGS
    ensures e != [] && (e == STOP_WORD || e == STOP_POLITE || VerbWord(e))
    ensures forall j :: 0 < j < |e| ==> e[j] != e[0]
  {
    StopHeads();
    VerbsFirstA();
    VerbsFirstB();
    VerbsFirstC();
    VerbsFirstD();
    VerbsFirstE();
    assert e in REQUESTS ==> e == REQUESTS[0] || e == REQUESTS[1] || e in REQUESTS[2..];
    hide VerbFirst;
    hide REQUESTS;
    hide MAKING;
    hide NOT_ANSWERING;
    hide NOT_REPLYING;
    hide NOT_RESPONDING;
    hide NOT_MAKING;
    hide NOT_READING;
    hide NOT_READING_OUT;
    hide STOP_WORD;
    hide STOP_POLITE;
    if e in REQUESTS[2..] { VerbFirstMember(REQUESTS[2..], e); }
    if e in MAKING { VerbFirstMember(MAKING, e); }
    if e in NOT_ANSWERING { VerbFirstMember(NOT_ANSWERING, e); }
    if e in NOT_REPLYING { VerbFirstMember(NOT_REPLYING, e); }
    if e in NOT_RESPONDING { VerbFirstMember(NOT_RESPONDING, e); }
    if e in NOT_MAKING { VerbFirstMember(NOT_MAKING, e); }
    if e in NOT_READING { VerbFirstMember(NOT_READING, e); }
    if e in NOT_READING_OUT { VerbFirstMember(NOT_READING_OUT, e); }
  }

  lemma MarkerFacts(m: string)
    requires m in MARKERS
    ensures m != [] && forall i :: 0 <= i < |m| ==> !IsVerb(m[i])
    ensures forall i :: 0 <= i < |m| && m[i] == 'や' ==> i == 0 || (m == NO && i == 1)
    ensures m[0] == 'や' ==> m == STOP_WORD || m == STOP_POLITE || (|m| > 2 && m[1] != 'め')
    ensures m[0] != 'く' && (m[0] == 'い' ==> m == NO)
  {
  }

  lemma BridgeFacts(b: string)
    requires b in BRIDGES
    ensures forall i :: 0 <= i < |b| ==> !IsWordCharacter(b[i])
  {
  }

  /** The rules whose needle can overlap itself. */
  predicate IsStopRule(r: Rule) {
    && (r.ending == STOP_WORD || r.ending == STOP_POLITE)
    && (r.marker == STOP_WORD || r.marker == NO || (r.marker == STOP_POLITE && r.ending == STOP_POLITE))
  }

  /** How far apart two overlapping copies are. */
  function Shift(r: Rule): nat {
    |r.ending| + |r.bridge| + if r.marker == NO then 1 else 0
  }

  lemma NeedleParts(r: Rule)
    ensures var e, b, m, n := r.ending, r.bridge, r.marker, r.Needle();
      && |n| == |e| + |b| + |m|
      && (forall i :: 0 <= i < |e| ==> n[i] == e[i])
      && (forall i :: |e| <= i < |e| + |b| ==> n[i] == b[i - |e|])
      && (forall i :: |e| + |b| <= i < |n| ==> n[i] == m[i - |e| - |b|])
  {
  }

  /** The second copy begins with the ending's first character, which occurs again only in a marker. */
  lemma OverlapStart(r: Rule, d: nat)
    requires InTables(r) && 0 < d < |r.Needle()| && r.Needle()[d] == r.Needle()[0]
    ensures |r.ending| + |r.bridge| <= d
    ensures r.ending == STOP_WORD || r.ending == STOP_POLITE
    ensures r.marker[d - |r.ending| - |r.bridge|] == 'や'
    ensures d == |r.ending| + |r.bridge| || (r.marker == NO && d == Shift(r))
  {
    EndingFacts(r.ending);
    MarkerFacts(r.marker);
    BridgeFacts(r.bridge);
    EndingIsClean(r.ending);
    NeedleParts(r);
    hide InTables;
  }

  lemma EndingIsClean(e: string)
    requires e in PRIOR_ENDINGS
    ensures e != [] && IsWordCharacter(e[0])
  {
    EndingsAreClean();
    hide PRIOR_ENDINGS;
    var i :| 0 <= i < |PRIOR_ENDINGS| && PRIOR_ENDINGS[i] == e;
  }

  lemma OverlapShift(r: Rule, d: nat)
    requires InTables(r) && 0 < d < |r.Needle()| && r.Needle()[d..] == r.Needle()[..|r.Needle()| - d]
    ensures IsStopRule(r) && d == Shift(r)
  {
    var n := r.Needle();
    assert forall i :: 0 <= i < |n| - d ==> n[d + i] == n[d..][i] == n[..|n| - d][i] == n[i];
    OverlapStart(r, d);
    if r.marker != NO { OverlapMarker(r, d); }
    hide InTables;
  }

  /** A marker that repeats the start of the needle is a stop, and the polite one only after itself. */
  lemma OverlapMarker(r: Rule, d: nat)
    requires InTables(r) && (r.ending == STOP_WORD || r.ending == STOP_POLITE)
    requires d == |r.ending| + |r.bridge| && r.marker[0] == 'や'
    requires forall i :: 0 <= i < |r.Needle()| - d ==> r.Needle()[d + i] == r.Needle()[i]
    ensures r.marker == STOP_WORD || (r.marker == STOP_POLITE && r.ending == STOP_POLITE)
  {
    var m, n := r.marker, r.Needle();
    MarkerFacts(m);
    BridgeFacts(r.bridge);
    NeedleParts(r);
    hide InTables;
    assert n[1] == 'め';
    assert |m| > 1 ==> m[1] == n[d + 1] == n[1];
    assert |m| > 3 ==> m[3] == n[d + 3] == n[3];
    assert r.ending == STOP_WORD ==> n[3] != 'く';
  }

  lemma StopOverlaps(r: Rule)
    requires IsStopRule(r)
    ensures 0 < Shift(r) < |r.Needle()| && r.Needle()[Shift(r)..] == r.Needle()[..|r.Needle()| - Shift(r)]
  {
    NeedleParts(r);
    var n, d := r.Needle(), Shift(r);
    assert forall i :: 0 <= i < |n| - d ==> n[d + i] == n[i];
  }

  /** Which needles of the tables overlap themselves: only those of a repeated stop. */
  lemma {:induction false} SelfOverlapsIff(r: Rule)
    requires InTables(r)
    ensures SelfOverlaps(r.Needle()) <==> IsStopRule(r)
  {
    hide InTables;
    hide IsStopRule;
    hide Shift;
    var n := r.Needle();
    if SelfOverlaps(n) {
      var d :| 0 < d < |n| && n[d..] == n[..|n| - d];
      OverlapShift(r, d);
    }
    if IsStopRule(r) { StopOverlaps(r); }
  }

  /** The same stop request said again straight after itself, with an audited intent behind the second. */
  ghost predicate DoubledStop(s: string, audited: string -> bool) {
    exists r, j :: InTables(r) && IsStopRule(r) && OccursAt(s, r.Needle(), j) && Applies(s, r, j + Shift(r), audited)
  }

  ghost predicate Leftover(s: string, audited: string -> bool) {
    exists r, k :: InTables(r) && Applies(s, r, k, audited)
  }

  /**
   The exact leftovers of the whole loop, for the audit in use: a phrase in which no scan meets an
   audited boundary still holds one if and only if it holds a doubled stop.
   */
  lemma {:induction false} LeftoverIff(s: string, audited: string -> bool)
    requires Exhausted(s, PRIOR_ENDINGS, MARKERS, BRIDGES, audited)
    ensures Leftover(s, audited) <==> DoubledStop(s, audited)
  {
    hide InTables;
    hide Applies;
    hide IsStopRule;
    hide Exhausted;
    hide OccursAt;
    hide Shift;
    if r, k :| InTables(r) && Applies(s, r, k, audited) {
      LeftoverIsDoubled(s, r, k, audited);
    }
  }

  lemma LeftoverIsDoubled(s: string, r: Rule, k: int, audited: string -> bool)
    requires Exhausted(s, PRIOR_ENDINGS, MARKERS, BRIDGES, audited)
    requires InTables(r) && Applies(s, r, k, audited)
    ensures IsStopRule(r) && OccursAt(s, r.Needle(), k - Shift(r))
  {
    hide *;
    ExhaustedMisses(s, r, audited);
    var j := MissedWhere(s, r, k, audited);
    OverlapBorder(s, r.Needle(), j, k);
    OverlapShift(r, k - j);
  }

  lemma MissedWhere(s: string, r: Rule, k: int, audited: string -> bool) returns (j: int)
    requires r.Needle() != [] && Applies(s, r, k, audited) && !ScanHits(s, r, 0, audited)
    ensures OccursAt(s, r.Needle(), j) && OccursAt(s, r.Needle(), k) && k - |r.Needle()| < j < k
  {
    hide ScanHits;
    hide Tail;
    OccursWithin(s, r.Needle(), k);
    MissedBoundaryOverlaps(s, r, 0, k, audited);
    hide OccursAt;
    j :| OccursAt(s, r.Needle(), j) && k - |r.Needle()| < j < k;
  }

  lemma ExhaustedMisses(s: string, r: Rule, audited: string -> bool)
    requires Exhausted(s, PRIOR_ENDINGS, MARKERS, BRIDGES, audited) && InTables(r)
    ensures r.Needle() != [] && !ScanHits(s, r, 0, audited)
  {
    hide ScanHits;
    hide PRIOR_ENDINGS;
    hide MARKERS;
    hide BRIDGES;
  }

  lemma OverlapBorder(s: string, needle: string, j: int, k: int)
    requires OccursAt(s, needle, j) && OccursAt(s, needle, k) && k - |needle| < j < k
    ensures needle[k - j..] == needle[..|needle| - (k - j)]
  {
    var d := k - j;
    assert needle[d..] == s[k..j + |needle|] == needle[..|needle| - d];
  }

  /** What the first copy has before the second begins. */
  function Lead(r: Rule): string {
    r.ending + r.bridge + if r.marker == NO then "い" else ""
  }

  /** The text of a doubled stop: two copies of the needle, overlapping. */
  function Doubled(r: Rule): string {
    Lead(r) + r.Needle()
  }

  lemma LeadIsShift(r: Rule)
    requires IsStopRule(r)
    ensures Shift(r) == |Lead(r)| < |r.Needle()| && r.Needle()[..Shift(r)] == Lead(r)
  {
    if r.marker == NO {
      assert r.Needle() == (r.ending + r.bridge) + ("い" + "や");
      Assemble(r.ending + r.bridge, "い", "や");
    }
  }

  /** Rewriting makes no text without a full stop that was not there before. */
  lemma {:induction false} DoublesAreOld(s: string, t: string, n: nat, audited: string -> bool, text: string, k: int)
    requires RewritesIn(s, t, n, audited) && text != [] && STOP !in text && OccursAt(t, text, k)
    ensures exists j :: OccursAt(s, text, j)
    decreases n
  {
    hide Rewrites;
    if n != 0 {
      var m :| RewritesIn(s, m, n - 1, audited) && Rewrites(m, t, audited);
      var j := RewriteKeepsOccurrence(m, t, audited, text, k);
      DoublesAreOld(s, m, n - 1, audited, text, j);
    }
  }

  lemma RewriteKeepsOccurrence(s: string, t: string, audited: string -> bool, text: string, k: int) returns (j: int)
    requires Rewrites(s, t, audited) && text != [] && STOP !in text && OccursAt(t, text, k)
    ensures OccursAt(s, text, j)
  {
    hide InTables;
    hide Tail;
    hide Rewritten;
    var r, at :| InTables(r) && Applies(s, r, at, audited) && t == Rewritten(s, r, at);
    var a, c := Around(s, r, at);
    OccurrenceSurvives(a, r.bridge, c, text, k);
    j := if k + |text| <= |a| then k else k - 1 + |r.bridge|;
  }

  lemma TwoCopies(s: string, needle: string, d: nat, j: int)
    requires d <= |needle| && OccursAt(s, needle, j) && OccursAt(s, needle, j + d)
    ensures OccursAt(s, needle[..d] + needle, j)
  {
    assert s[j..j + d + |needle|] == s[j..j + d] + s[j + d..j + d + |needle|];
    assert s[j..j + d] == s[j..j + |needle|][..d];
  }

  /** Two copies of a needle, the second overlapping the first, make one doubled text. */
  lemma CopiesMakeDouble(s: string, r: Rule, j: int)
    requires InTables(r) && IsStopRule(r) && OccursAt(s, r.Needle(), j) && OccursAt(s, r.Needle(), j + Shift(r))
    ensures OccursAt(s, Doubled(r), j) && Doubled(r) != [] && STOP !in Doubled(r)
  {
    hide InTables;
    hide OccursAt;
    RuleIsClean(r);
    LeadIsShift(r);
    TwoCopies(s, r.Needle(), Shift(r), j);
    hide IsStopRule;
    hide Shift;
  }

  ghost predicate HoldsDouble(s: string) {
    exists r, j :: InTables(r) && IsStopRule(r) && OccursAt(s, Doubled(r), j)
  }

  /** A doubled stop left in the result was already in the phrase. */
  lemma {:induction false} LeftoverWasDoubled(s: string, t: string, n: nat, audited: string -> bool)
    requires RewritesIn(s, t, n, audited) && DoubledStop(t, audited)
    ensures HoldsDouble(s)
  {
    hide RewritesIn;
    hide InTables;
    hide IsStopRule;
    hide OccursAt;
    var r, j :| InTables(r) && IsStopRule(r) && OccursAt(t, r.Needle(), j) && Applies(t, r, j + Shift(r), audited);
    CopiesMakeDouble(t, r, j);
    DoublesAreOld(s, t, n, audited, Doubled(r), j);
  }

  /** "Stop", three times, with nothing but a single "stop" audited: the whole loop finds nothing to do. */
  lemma {:induction false} LoopCanLeaveBoundary()
    ensures var audited := (clause: string) => clause == STOP_WORD;
      && Exhausted(THREE_STOPS, PRIOR_ENDINGS, MARKERS, BRIDGES, audited)
      && Leftover(THREE_STOPS, audited)
  {
    var audited, stop := (clause: string) => clause == STOP_WORD, Rule(STOP_WORD, "", STOP_WORD);
    StopIsInTables();
    RepeatedWordIsMissed(STOP_WORD, audited);
    assert InTables(stop) && Applies(THREE_STOPS, stop, 3, audited);
    hide THREE_STOPS;
    hide InTables;
    hide Tail;
    hide OccursAt;
    hide ScanHits;
    forall r: Rule | InTables(r) ensures r.Needle() != [] && !ScanHits(THREE_STOPS, r, 0, audited) {
      RuleIsClean(r);
      if ScanHits(THREE_STOPS, r, 0, audited) {
        var k := HitApplies(THREE_STOPS, r, 0, audited);
        OnlyStopFits(r, k);
      }
    }
    ExhaustedTables(THREE_STOPS, audited);
  }

  lemma StopIsInTables()
    ensures InTables(Rule(STOP_WORD, "", STOP_WORD))
    ensures STOP_WORD != [] && Free(IsClauseSeparator, STOP_WORD)
  {
    assert REQUESTS[0] == STOP_WORD && PRIOR_ENDINGS[0] == STOP_WORD && MARKERS[6] == STOP_WORD && BRIDGES[0] == "";
  }

  lemma ExhaustedTables(s: string, audited: string -> bool)
    requires forall r: Rule :: InTables(r) ==> r.Needle() != [] && !ScanHits(s, r, 0, audited)
    ensures Exhausted(s, PRIOR_ENDINGS, MARKERS, BRIDGES, audited)
  {
    hide ScanHits;
    hide PRIOR_ENDINGS;
    hide MARKERS;
    hide BRIDGES;
    assert forall r: Rule :: r.ending in PRIOR_ENDINGS && r.marker in MARKERS && r.bridge in BRIDGES ==> InTables(r);
  }

  lemma {:induction false} HitApplies(s: string, r: Rule, from: nat, audited: string -> bool) returns (k: int)
    requires r.Needle() != [] && ScanHits(s, r, from, audited)
    ensures Applies(s, r, k, audited)
    decreases |s| - from
  {
    hide Tail;
    hide OccursAt;
    hide IndexFrom;
    ScanStep(s, r, from, audited);
    k := IndexFrom(s, r.Needle(), from);
    if !Applies(s, r, k, audited) {
      k := HitApplies(s, r, k + |r.Needle()|, audited);
    }
  }

  const THREE_STOPS := STOP_WORD + STOP_WORD + STOP_WORD

  lemma ThreeStops()
    ensures |THREE_STOPS| == 9 && THREE_STOPS[6] == 'や' && THREE_STOPS[7] == 'め' && THREE_STOPS[6..] == STOP_WORD
    ensures forall i :: 0 <= i < 9 ==> IsWordCharacter(THREE_STOPS[i]) && !IsVerb(THREE_STOPS[i])
    ensures Free(IsClauseSeparator, THREE_STOPS)
  {
  }

  lemma OccursPointwise(s: string, needle: string, k: int)
    requires OccursAt(s, needle, k)
    ensures 0 <= k && k + |needle| <= |s| && forall i :: 0 <= i < |needle| ==> needle[i] == s[k + i]
  {
    assert forall i :: 0 <= i < |needle| ==> needle[i] == s[k..k + |needle|][i];
  }

  /** A table rule whose marker starts at the last of three stops has "stop" for its ending, and no bridge. */
  lemma EndingFits(r: Rule, k: int)
    requires InTables(r) && OccursAt(THREE_STOPS, r.Needle(), k) && k + |r.ending| + |r.bridge| == 6
    ensures r.ending == STOP_WORD && r.bridge == ""
  {
    var e, n := r.ending, r.Needle();
    EndingFacts(e);
    MarkerFacts(r.marker);
    BridgeFacts(r.bridge);
    NeedleParts(r);
    ThreeStops();
    OccursPointwise(THREE_STOPS, n, k);
    hide InTables;
    hide OccursAt;
    hide THREE_STOPS;
    assert !IsVerb(n[0]) && IsWordCharacter(n[|e|]);
  }

  lemma MarkerFits(r: Rule, k: int)
    requires InTables(r) && OccursAt(THREE_STOPS, r.Needle(), k) && k + |r.ending| + |r.bridge| == 6
    ensures r.marker == STOP_WORD
  {
    var m, n := r.marker, r.Needle();
    MarkerFacts(m);
    NeedleParts(r);
    ThreeStops();
    OccursPointwise(THREE_STOPS, n, k);
    hide InTables;
    hide OccursAt;
    hide THREE_STOPS;
    assert m[0] == n[|n| - |m|] == 'や';
    assert |m| > 1 ==> m[1] == n[|n| - |m| + 1] == 'め';
  }

  /** The only table rule with its marker at the last of three stops. */
  lemma OnlyStopFits(r: Rule, k: int)
    requires InTables(r)
    requires OccursAt(THREE_STOPS, r.Needle(), k) && Tail(THREE_STOPS, k + |r.ending| + |r.bridge|) == STOP_WORD
    ensures r == Rule(STOP_WORD, "", STOP_WORD)
  {
    ThreeStops();
    TailIsRest(THREE_STOPS, k + |r.ending| + |r.bridge|);
    hide InTables;
    hide OccursAt;
    hide THREE_STOPS;
    EndingFits(r, k);
    MarkerFits(r, k);
  }

  /** The loop ends on every phrase, and then no scan meets an audited boundary any more. */
  method MarkBoundaries(phrase: string, normalize: string -> string, audited: string -> bool)
    returns (result: string, ghost steps: nat)
    ensures LoopRun(normalize(phrase), result, steps, audited)
    ensures steps <= |Hits(normalize(phrase))|
    ensures Drop(IsJoint, result) == Drop(IsJoint, normalize(phrase))
    ensures Exhausted(result, PRIOR_ENDINGS, MARKERS, BRIDGES, audited)
    ensures Exhausted(normalize(phrase), PRIOR_ENDINGS, MARKERS, BRIDGES, audited) ==> result == normalize(phrase)
    ensures Leftover(result, audited) <==> DoubledStop(result, audited)
    ensures Leftover(result, audited) ==> HoldsDouble(normalize(phrase))
  {
    hide InTables;
    hide Exhausted;
    hide Leftover;
    hide DoubledStop;
    hide HoldsDouble;
    hide Hits;
    hide ScanHits;
    hide PRIOR_ENDINGS;
    hide MARKERS;
    hide BRIDGES;
    hide OccursAt;
    hide Tail;
    hide LoopRun;
    hide Visits;
    hide Applies;
    hide Rewritten;
    hide Drop;
    var start := normalize(phrase);
    result, steps := start, 0;
    NoRewrite(start, audited);
    while true
      invariant LoopRun(start, result, steps, audited)
      invariant Exhausted(start, PRIOR_ENDINGS, MARKERS, BRIDGES, audited) ==> result == start
      decreases |Hits(result)|
    {
      var hit := FindBoundary(result, audited);
      if hit.None? {
        break;
      }
      var (r, k) := hit.value;
      NeedleFits(result, r, k, audited);
      var next := Rewritten(result, r, k);
      OneMoreRewrite(start, result, next, steps, r, k, audited);
      result, steps := next, steps + 1;
    }
    Outcome(start, result, steps, audited);
  }

  lemma NoRewrite(s: string, audited: string -> bool)
    ensures LoopRun(s, s, 0, audited)
  {
  }

  lemma NeedleFits(s: string, r: Rule, k: int, audited: string -> bool)
    requires Applies(s, r, k, audited)
    ensures 0 <= k && k + |r.Needle()| <= |s|
  {
    hide Tail;
  }

  lemma OneMoreRewrite(s: string, m: string, t: string, n: nat, r: Rule, k: int, audited: string -> bool)
    requires LoopRun(s, m, n, audited)
    requires InTables(r) && Applies(m, r, k, audited) && Visits(m, r, 0, k)
    requires k + |r.Needle()| <= |m| && t == Rewritten(m, r, k)
    ensures LoopRun(s, t, n + 1, audited) && |Hits(t)| < |Hits(m)|
  {
    hide Hits;
    hide Tail;
    RewriteLowersHits(m, r, k);
    hide OccursAt;
    hide InTables;
    hide Applies;
    hide Visits;
    hide Rewritten;
    assert LoopRewrites(m, t, audited);
  }

  lemma Outcome(s: string, t: string, n: nat, audited: string -> bool)
    requires LoopRun(s, t, n, audited) && Exhausted(t, PRIOR_ENDINGS, MARKERS, BRIDGES, audited)
    ensures n <= |Hits(s)| && Drop(IsJoint, t) == Drop(IsJoint, s)
    ensures Leftover(t, audited) <==> DoubledStop(t, audited)
    ensures Leftover(t, audited) ==> HoldsDouble(s)
  {
    hide LoopRun;
    hide RewritesIn;
    hide Exhausted;
    hide Leftover;
    hide DoubledStop;
    hide HoldsDouble;
    hide Hits;
    LoopRunRewrites(s, t, n, audited);
    RewritingIsBounded(s, t, n, audited);
    RewritingKeepsWords(s, t, n, audited);
    LeftoverIff(t, audited);
    if DoubledStop(t, audited) { LeftoverWasDoubled(s, t, n, audited); }
  }
}
