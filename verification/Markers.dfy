/**
 The marker tables of the meaning check, and why moving whole clauses can neither hide a marker nor
 make one appear.
 */
module Markers {
  import opened Text
  import opened Clauses

  const CONDITION: seq<string> := [
    "なら", "であれば", "場合", "とき", "時だけ", "限り", "ただし", "を除き", "を除く", "前提", "次第",
    "平日", "休日", "通常", "障害時"]
  const CAUSE: seq<string> := ["から", "ため", "ので", "原因", "理由", "により", "によって"]
  const NEGATIVE: seq<string> := [
    "いいえ", "反対", "できない", "できません", "不可能", "しない", "しません", "行かない", "行きません",
    "参加しない", "ありません", "不要です", "却下", "中止します", "禁止します", "断定できません"]
  const AFFIRMATIVE: seq<string> := [
    "はい", "賛成", "できます", "できる", "採用します", "採用する", "実施します", "実施する", "行きます",
    "参加します", "必要です", "有効です", "改善します", "改善する"]
  const UNKNOWN: seq<string> := [
    "わかりません", "分かりません", "不明です", "判断できません", "答えられません", "確認できません",
    "情報がありません"]
  const UNSURE: seq<string> := [
    "断定できません", "確信がありません", "不確実", "判断が難しい", "まだ不明", "未確認"]
  const HEDGED: seq<string> := [
    "かもしれ", "可能性", "と思います", "おそらく", "たぶん", "推定", "見込み", "約", "くらい", "程度"]

  ghost predicate Contains(s: string, w: string) {
    exists k :: OccursAt(s, w, k)
  }

  ghost predicate ContainsAny(s: string, markers: seq<string>) {
    exists i :: 0 <= i < |markers| && Contains(s, markers[i])
  }

  ghost predicate HasCondition(s: string) { ContainsAny(s, CONDITION) }
  ghost predicate HasCause(s: string) { ContainsAny(s, CAUSE) }

  ghost function Polarity(s: string): int {
    var negative, affirmative := ContainsAny(s, NEGATIVE), ContainsAny(s, AFFIRMATIVE);
    if negative && affirmative then 2 else if negative then -1 else if affirmative then 1 else 0
  }

  ghost function Uncertainty(s: string): int {
    if ContainsAny(s, UNKNOWN) then 3 else if ContainsAny(s, UNSURE) then 2 else if ContainsAny(s, HEDGED) then 1 else 0
  }

  // ---------------------------------------------------------------- words and separators

  ghost predicate Holds(ss: seq<string>, w: string) {
    exists i :: 0 <= i < |ss| && Contains(ss[i], w)
  }

  lemma ContainsPointwise(s: string, w: string, k: int)
    ensures OccursAt(s, w, k) <==> 0 <= k && k + |w| <= |s| && forall i :: 0 <= i < |w| ==> s[k + i] == w[i]
  {
    if 0 <= k && k + |w| <= |s| {
      var cut := s[k..k + |w|];
      assert forall i :: 0 <= i < |w| ==> cut[i] == s[k + i];
    }
  }

  lemma ContainsLonger(a: string, y: string, b: string, w: string)
    requires Contains(y, w)
    ensures Contains(a + y + b, w)
  {
    var k :| OccursAt(y, w, k);
    assert (a + y + b)[|a| + k..|a| + k + |w|] == y[k..k + |w|];
    assert OccursAt(a + y + b, w, |a| + k);
  }

  /** A separator that the word does not contain cuts no occurrence in two. */
  lemma ContainsCut(a: string, c: char, b: string, w: string)
    requires w != [] && c !in w
    ensures Contains(a + [c] + b, w) <==> Contains(a, w) || Contains(b, w)
  {
    var s := a + [c] + b;
    if Contains(s, w) {
      var k :| OccursAt(s, w, k);
      ContainsPointwise(s, w, k);
      forall i | k <= i < k + |w| ensures s[i] != c { assert s[k + (i - k)] == w[i - k]; }
      assert s[|a|] == c;
      if k + |w| <= |a| {
        ContainsPointwise(a, w, k);
      } else {
        ContainsPointwise(b, w, k - |a| - 1);
      }
    }
    if Contains(a, w) {
      ContainsLonger([], a, [c] + b, w);
      assert [] + a + ([c] + b) == s;
    }
    if Contains(b, w) {
      ContainsLonger(a + [c], b, [], w);
      assert a + [c] + b + [] == s;
    }
  }

  lemma HoldsMore(current: string, rest: seq<string>, w: string)
    requires w != []
    ensures Holds(Piece(current) + rest, w) <==> Contains(current, w) || Holds(rest, w)
  {
    hide Contains;
    NothingHeld(w);
    if current == [] {
      assert Piece(current) + rest == rest;
    } else {
      var all := Piece(current) + rest;
      assert all[0] == current && forall i :: 0 <= i < |rest| ==> all[i + 1] == rest[i];
      if Holds(rest, w) {
        var i :| 0 <= i < |rest| && Contains(rest[i], w);
        assert Contains(all[i + 1], w);
      }
    }
  }

  lemma NothingHeld(w: string)
    requires w != []
    ensures !Contains([], w)
  {
  }

  lemma {:induction false} SplitHolds(p: char -> bool, current: string, s: string, w: string)
    requires w != [] && Free(p, w)
    ensures Holds(Split(p, current, s), w) <==> Contains(current + s, w)
    decreases |s|
  {
    hide Contains;
    hide Holds;
    HoldsMore(current, [], w);
    if s == [] {
      NoneHeld(w);
      assert current + s == current && Piece(current) + [] == Piece(current);
    } else if p(s[0]) {
      SplitHolds(p, [], s[1..], w);
      HoldsMore(current, Split(p, [], s[1..]), w);
      NotIn(p, w, s[0]);
      ContainsCut(current, s[0], s[1..], w);
      hide Free;
      assert [] + s[1..] == s[1..] && current + [s[0]] + s[1..] == current + s;
    } else {
      hide Free;
      SplitHolds(p, current + [s[0]], s[1..], w);
      assert current + [s[0]] + s[1..] == current + s;
    }
  }

  lemma NotIn(p: char -> bool, w: string, c: char)
    requires Free(p, w) && p(c)
    ensures c !in w
  {
  }

  lemma NoneHeld(w: string)
    ensures !Holds([], w)
  {
  }

  lemma {:induction false} JoinHolds(ws: seq<string>, w: string)
    requires w != [] && ' ' !in w
    ensures Contains(Join(ws), w) <==> Holds(ws, w)
    decreases |ws|
  {
    hide Contains;
    NothingHeld(w);
    if |ws| > 1 {
      JoinHolds(ws[1..], w);
      ContainsCut(ws[0], ' ', Join(ws[1..]), w);
      FirstHolds(ws, w);
    }
  }

  lemma FirstHolds(ws: seq<string>, w: string)
    requires ws != []
    ensures Holds(ws, w) <==> Contains(ws[0], w) || Holds(ws[1..], w)
  {
    hide Contains;
    if Holds(ws[1..], w) {
      var i :| 0 <= i < |ws[1..]| && Contains(ws[1..][i], w);
      assert ws[i + 1] == ws[1..][i];
    }
    if Holds(ws, w) {
      var i :| 0 <= i < |ws| && Contains(ws[i], w);
      if i > 0 { assert ws[1..][i - 1] == ws[i]; }
    }
  }

  lemma WordParts(w: string)
    requires Free(IsBreak, w)
    ensures Free(IsSpace, w) && Free(IsDelimiter, w) && ' ' !in w
  {
    assert IsSpace(' ');
    hide IsSpace;
    hide IsDelimiter;
  }

  lemma CollapseHolds(s: string, w: string)
    requires w != [] && Free(IsBreak, w)
    ensures Contains(Collapse(s), w) <==> Contains(s, w)
  {
    WordParts(w);
    hide Contains;
    hide Holds;
    hide IsSpace;
    hide IsBreak;
    SplitHolds(IsSpace, [], s, w);
    JoinHolds(Fields(s), w);
    assert [] + s == s;
  }

  lemma {:induction false} TidyHolds(pieces: seq<string>, w: string)
    requires w != [] && Free(IsBreak, w)
    ensures Holds(Tidy(pieces), w) <==> Holds(pieces, w)
    decreases |pieces|
  {
    hide Contains;
    hide Holds;
    hide IsBreak;
    hide Collapse;
    if pieces != [] {
      TidyHolds(pieces[1..], w);
      CollapseHolds(pieces[0], w);
      HoldsMore(Collapse(pieces[0]), Tidy(pieces[1..]), w);
      FirstHolds(pieces, w);
    }
  }

  /** A word without white space and delimiters is in a text exactly when it is in one of its clauses. */
  lemma ClausesHold(value: string, w: string)
    requires w != [] && Free(IsBreak, w)
    ensures Holds(SemanticClauses(value), w) <==> Contains(value, w)
  {
    WordParts(w);
    hide Contains;
    hide Holds;
    hide IsBreak;
    hide IsDelimiter;
    hide Collapse;
    CollapseHolds(value, w);
    SplitHolds(IsDelimiter, [], Collapse(value), w);
    assert [] + Collapse(value) == Collapse(value);
    TidyHolds(Split(IsDelimiter, [], Collapse(value)), w);
  }

  // ---------------------------------------------------------------- front moves and markers

  ghost predicate SameClauses(original: string, rebuilt: string) {
    multiset(SemanticClauses(original)) == multiset(SemanticClauses(rebuilt))
  }

  lemma SameHeld(a: seq<string>, b: seq<string>, w: string)
    requires multiset(a) == multiset(b) && Holds(a, w)
    ensures Holds(b, w)
  {
    hide Contains;
    var i :| 0 <= i < |a| && Contains(a[i], w);
    assert a[i] in multiset(b);
  }

  ghost predicate AllPlain(markers: seq<string>) {
    forall i :: 0 <= i < |markers| ==> markers[i] != [] && Free(IsBreak, markers[i])
  }

  /** Rearranging whole clauses changes no marker check. */
  lemma MarkersSurvive(original: string, rebuilt: string, markers: seq<string>)
    requires SameClauses(original, rebuilt) && AllPlain(markers)
    ensures ContainsAny(original, markers) <==> ContainsAny(rebuilt, markers)
  {
    hide Contains;
    hide SemanticClauses;
    forall i | 0 <= i < |markers| ensures Contains(original, markers[i]) <==> Contains(rebuilt, markers[i]) {
      ClausesHold(original, markers[i]);
      ClausesHold(rebuilt, markers[i]);
      hide Holds;
      if Holds(SemanticClauses(original), markers[i]) {
        SameHeld(SemanticClauses(original), SemanticClauses(rebuilt), markers[i]);
      }
      if Holds(SemanticClauses(rebuilt), markers[i]) {
        SameHeld(SemanticClauses(rebuilt), SemanticClauses(original), markers[i]);
      }
    }
  }

  lemma WordIsPlain(w: string)
    requires forall i :: 0 <= i < |w| ==> IsWordCharacter(w[i])
    ensures Free(IsBreak, w)
  {
  }

  lemma CleanIsPlain(markers: seq<string>)
    requires AllClean(markers) && AllNonEmpty(markers)
    ensures AllPlain(markers)
  {
    forall i | 0 <= i < |markers| ensures Free(IsBreak, markers[i]) { WordIsPlain(markers[i]); }
  }

  lemma FactualMarkersAreClean()
    ensures AllClean(CONDITION) && AllNonEmpty(CONDITION) && AllClean(CAUSE) && AllNonEmpty(CAUSE)
  {
  }

  lemma NegativeIsClean()
    ensures AllClean(NEGATIVE) && AllNonEmpty(NEGATIVE)
  {
  }

  lemma AffirmativeIsClean()
    ensures AllClean(AFFIRMATIVE) && AllNonEmpty(AFFIRMATIVE)
  {
  }

  lemma HedgesAreClean()
    ensures AllClean(UNKNOWN) && AllNonEmpty(UNKNOWN) && AllClean(UNSURE) && AllNonEmpty(UNSURE)
    ensures AllClean(HEDGED) && AllNonEmpty(HEDGED)
  {
  }

  /** What the marker checks read off a text is the same for every arrangement of its clauses. */
  lemma {:induction false} MarkersAreArrangementFree(original: string, rebuilt: string)
    requires SameClauses(original, rebuilt)
    ensures HasCondition(original) == HasCondition(rebuilt) && HasCause(original) == HasCause(rebuilt)
    ensures Polarity(original) == Polarity(rebuilt) && Uncertainty(original) == Uncertainty(rebuilt)
  {
    MarkersArePlain();
    hide SameClauses;
    hide AllPlain;
    hide ContainsAny;
    MarkersSurvive(original, rebuilt, CONDITION);
    MarkersSurvive(original, rebuilt, CAUSE);
    MarkersSurvive(original, rebuilt, NEGATIVE);
    MarkersSurvive(original, rebuilt, AFFIRMATIVE);
    MarkersSurvive(original, rebuilt, UNKNOWN);
    MarkersSurvive(original, rebuilt, UNSURE);
    MarkersSurvive(original, rebuilt, HEDGED);
    hide CONDITION;
    hide CAUSE;
    hide NEGATIVE;
    hide AFFIRMATIVE;
    hide UNKNOWN;
    hide UNSURE;
    hide HEDGED;
  }

  lemma MarkersArePlain()
    ensures AllPlain(CONDITION) && AllPlain(CAUSE) && AllPlain(NEGATIVE) && AllPlain(AFFIRMATIVE)
    ensures AllPlain(UNKNOWN) && AllPlain(UNSURE) && AllPlain(HEDGED)
  {
    FactualMarkersAreClean();
    NegativeIsClean();
    AffirmativeIsClean();
    HedgesAreClean();
    hide *;
    CleanIsPlain(CONDITION);
    CleanIsPlain(CAUSE);
    CleanIsPlain(NEGATIVE);
    CleanIsPlain(AFFIRMATIVE);
    CleanIsPlain(UNKNOWN);
    CleanIsPlain(UNSURE);
    CleanIsPlain(HEDGED);
  }
}
