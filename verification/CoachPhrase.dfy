/**
 Normalizing an utterance before consent is read from it: white space collapsed, lower case, outer
 punctuation and leading fillers removed.  Quote marks survive all of it, so a quoted region of the
 utterance is still a quoted region of the phrase.
 */
module CoachPhrase {
  import opened Common
  import opened Sequences
  import opened Text
  import opened QuotedSpeech

  predicate IsOuter(c: char) {
    c == '。' || c == '！' || c == '？' || c == '!' || c == '?' || c == '、' || c == ',' || c == '.'
  }

  predicate IsPause(c: char) { c == '、' || c == ',' }

  const FILLERS: seq<string> := ["えっと", "ええと", "あの", "その"]

  /** The length of the first listed filler the phrase begins with, or zero. */
  function FillerLength(fillers: seq<string>, s: string): (n: nat)
    ensures n <= |s|
  {
    if fillers == [] then 0
    else if fillers[0] <= s then |fillers[0]|
    else FillerLength(fillers[1..], s)
  }

  /** What is left once a filler of length `n` has been taken off. */
  function Shortened(s: string, n: nat): (t: string)
    requires n <= |s|
    ensures |t| <= |s| - n
  {
    TrimFront(IsPause, Trim(s[n..]))
  }

  function StripFillers(s: string): string
    decreases |s|
  {
    var n := FillerLength(FILLERS, s);
    if n == 0 then s else StripFillers(Shortened(s, n))
  }

  function Tidied(utterance: string, lower: char -> char): string {
    TrimBack(IsOuter, TrimFront(IsOuter, Trim(Map(lower, Collapse(utterance)))))
  }

  function Normalized(utterance: string, lower: char -> char): string {
    StripFillers(Tidied(utterance, lower))
  }

  method MatchFiller(phrase: string) returns (n: nat)
    ensures n == FillerLength(FILLERS, phrase)
  {
    for i := 0 to |FILLERS|
      invariant FillerLength(FILLERS[i..], phrase) == FillerLength(FILLERS, phrase)
    {
      assert FILLERS[i..][0] == FILLERS[i] && FILLERS[i..][1..] == FILLERS[i + 1..];
      if FILLERS[i] <= phrase {
        return |FILLERS[i]|;
      }
    }
    n := 0;
  }

  /** The source's loop: take fillers off the front until none is left. */
  method NormalizeExplicitCoachPhrase(utterance: string, lower: char -> char) returns (phrase: string)
    ensures phrase == Normalized(utterance, lower)
  {
    hide FILLERS;
    phrase := Tidied(utterance, lower);
    while true
      invariant StripFillers(phrase) == Normalized(utterance, lower)
      decreases |phrase|
    {
      var n := MatchFiller(phrase);
      if n == 0 {
        break;
      }
      phrase := Shortened(phrase, n);
    }
  }

  // ---------------------------------------------------------------- around a quotation

  /** Lower-casing neither changes a quote mark nor makes one. */
  ghost predicate KeepsMarks(lower: char -> char) {
    forall c :: (IsQuoteMark(c) ==> lower(c) == c) && (IsQuoteMark(lower(c)) ==> IsQuoteMark(c))
  }

  /** A text that begins and ends with a quote mark. */
  predicate IsCore(core: string) {
    core != [] && IsQuoteMark(core[0]) && IsQuoteMark(core[|core| - 1])
  }

  /** What the filler loop leaves before and behind a core. */
  function Front(x: string): string
    decreases |x|
  {
    var n := FillerLength(FILLERS, x);
    if n == 0 then x else Front(TrimFront(IsPause, TrimFront(IsSpace, x[n..])))
  }

  function Rear(x: string, y: string): string
    decreases |x|
  {
    var n := FillerLength(FILLERS, x);
    if n == 0 then y else Rear(TrimFront(IsPause, TrimFront(IsSpace, x[n..])), TrimBack(IsSpace, y))
  }

  lemma FillersHaveNoMarks()
    ensures forall f :: f in FILLERS ==> Free(IsQuoteMark, f)
  {
  }

  lemma MarksAreNeither(c: char)
    requires IsQuoteMark(c)
    ensures !IsSpace(c) && !IsOuter(c) && !IsPause(c)
  {
  }

  /** A filler before a core lies wholly before it. */
  lemma {:induction false} FillerAround(fillers: seq<string>, x: string, core: string)
    requires IsCore(core) && forall f :: f in fillers ==> Free(IsQuoteMark, f)
    ensures FillerLength(fillers, x + core) == FillerLength(fillers, x)
    decreases |fillers|
  {
    if fillers != [] {
      FillerAround(fillers[1..], x, core);
      PrefixAround(fillers[0], x, core);
    }
  }

  lemma PrefixAround(f: string, x: string, core: string)
    requires core != [] && IsQuoteMark(core[0]) && Free(IsQuoteMark, f)
    ensures f <= x + core <==> f <= x
  {
    var s := x + core;
    assert IsQuoteMark(s[|x|]);
    if f <= s {
      assert forall i :: 0 <= i < |f| ==> s[i] == f[i] && !IsQuoteMark(f[i]);
      assert |f| <= |x|;
    }
  }

  lemma {:induction false} StripAround(x: string, core: string, y: string)
    requires IsCore(core)
    ensures StripFillers(x + core + y) == Front(x) + core + Rear(x, y)
    decreases |x|
  {
    hide FILLERS;
    hide IsQuoteMark;
    hide Shortened;
    FillerLengthAround(x, core, y);
    var n := FillerLength(FILLERS, x);
    if n != 0 {
      ShortenedAround(x, core, y, n);
      FillerShorter(x);
      StripAround(TrimFront(IsPause, TrimFront(IsSpace, x[n..])), core, TrimBack(IsSpace, y));
    }
  }

  lemma ShortenedAround(x: string, core: string, y: string, n: nat)
    requires IsCore(core) && n <= |x|
    ensures Shortened(x + core + y, n) == TrimFront(IsPause, TrimFront(IsSpace, x[n..])) + core + TrimBack(IsSpace, y)
  {
    MarksAreNeither(core[0]);
    hide IsQuoteMark;
    hide IsSpace;
    hide IsPause;
    Sliced(x, core, y, n);
    TrimAround(x[n..], core, y);
    var x', y' := TrimFront(IsSpace, x[n..]), TrimBack(IsSpace, y);
    Assemble(x', core, y');
    TrimFrontAround(IsPause, x', core + y');
    Assemble(TrimFront(IsPause, x'), core, y');
    hide TrimFront;
    hide TrimBack;
  }

  lemma Sliced(x: string, core: string, y: string, n: nat)
    requires n <= |x|
    ensures (x + core + y)[n..] == x[n..] + core + y
  {
  }

  lemma FillerLengthAround(x: string, core: string, y: string)
    requires IsCore(core)
    ensures FillerLength(FILLERS, x + core + y) == FillerLength(FILLERS, x)
  {
    FillersHaveNoMarks();
    hide FILLERS;
    hide IsQuoteMark;
    FillerAround(FILLERS, x, core);
    forall f | f in FILLERS ensures f <= x + core + y <==> f <= x + core {
      assert x + core + y == x + (core + y);
      PrefixAround(f, x, core + y);
      PrefixAround(f, x, core);
    }
    SamePrefixes(FILLERS, x + core + y, x + core);
  }

  lemma {:induction false} SamePrefixes(fillers: seq<string>, s: string, t: string)
    requires forall f :: f in fillers ==> (f <= s <==> f <= t)
    ensures FillerLength(fillers, s) == FillerLength(fillers, t)
    decreases |fillers|
  {
    if fillers != [] {
      assert fillers[0] in fillers && forall f :: f in fillers[1..] ==> f in fillers;
      SamePrefixes(fillers[1..], s, t);
    }
  }

  lemma FillerShorter(x: string)
    ensures FillerLength(FILLERS, x) != 0 ==>
      |TrimFront(IsPause, TrimFront(IsSpace, x[FillerLength(FILLERS, x)..]))| < |x|
  {
    hide FILLERS;
  }

  lemma TrimAround(x: string, core: string, y: string)
    requires IsCore(core)
    ensures Trim(x + core + y) == TrimFront(IsSpace, x) + core + TrimBack(IsSpace, y)
  {
    MarksAreNeither(core[0]);
    MarksAreNeither(core[|core| - 1]);
    hide IsSpace;
    hide IsQuoteMark;
    assert x + core + y == x + (core + y);
    TrimFrontAround(IsSpace, x, core + y);
    var x' := TrimFront(IsSpace, x);
    assert x' + (core + y) == (x' + core) + y;
    TrimBackAround(IsSpace, x' + core, y);
  }

  lemma OuterAround(x: string, core: string, y: string)
    requires IsCore(core)
    ensures TrimBack(IsOuter, TrimFront(IsOuter, x + core + y)) == TrimFront(IsOuter, x) + core + TrimBack(IsOuter, y)
  {
    MarksAreNeither(core[0]);
    MarksAreNeither(core[|core| - 1]);
    hide IsOuter;
    hide IsQuoteMark;
    assert x + core + y == x + (core + y);
    TrimFrontAround(IsOuter, x, core + y);
    var x' := TrimFront(IsOuter, x);
    assert x' + (core + y) == (x' + core) + y;
    TrimBackAround(IsOuter, x' + core, y);
  }

  // ---------------------------------------------------------------- collapsing and lower-casing

  function Ahead(before: string, lower: char -> char): string {
    Map(lower, Squeeze(AtStart, before) + Blanks(Text.After(AtStart, before)))
  }

  function Middle(inside: string, lower: char -> char): string {
    Map(lower, Squeeze(InWord, inside) + Blanks(Text.After(InWord, inside)))
  }

  function Behind(after: string, lower: char -> char): string {
    Map(lower, Squeeze(InWord, after))
  }

  /** A character that is not white space, with whatever gap precedes it. */
  lemma SqueezeMark(at: Place, q: char, rest: string)
    requires IsQuoteMark(q)
    ensures Squeeze(at, [q] + rest) == Blanks(at) + [q] + Squeeze(InWord, rest)
  {
    MarksAreNeither(q);
    assert ([q] + rest)[1..] == rest;
  }

  lemma SqueezeTwoMarks(at: Place, before: string, o: char, inside: string, k: char, after: string)
    requires IsQuoteMark(o) && IsQuoteMark(k)
    ensures Squeeze(at, before + ([o] + (inside + ([k] + after))))
         == (Squeeze(at, before) + Blanks(Text.After(at, before)))
            + ([o] + (Squeeze(InWord, inside) + Blanks(Text.After(InWord, inside))) + [k])
            + Squeeze(InWord, after)
  {
    hide IsQuoteMark;
    hide IsSpace;
    var rest := inside + ([k] + after);
    SqueezeConcat(at, before, [o] + rest);
    SqueezeMark(Text.After(at, before), o, rest);
    SqueezeConcat(InWord, inside, [k] + after);
    SqueezeMark(Text.After(InWord, inside), k, after);
    Regrouped(Squeeze(at, before), Blanks(Text.After(at, before)), [o], Squeeze(InWord, inside),
              Blanks(Text.After(InWord, inside)), [k], Squeeze(InWord, after));
    hide *;
  }

  lemma Regrouped(a: string, b: string, c: string, d: string, e: string, f: string, g: string)
    ensures a + (b + c + (d + (e + f + g))) == (a + b) + (c + (d + e) + f) + g
  {
  }

  lemma LoweredCore(o: char, middle: string, k: char, lower: char -> char)
    requires KeepsMarks(lower) && IsQuoteMark(o) && IsQuoteMark(k)
    ensures Map(lower, [o] + middle + [k]) == [o] + Map(lower, middle) + [k]
  {
    hide IsQuoteMark;
    MapConcat(lower, [o] + middle, [k]);
    MapConcat(lower, [o], middle);
    assert Map(lower, [o]) == [o] && Map(lower, [k]) == [k];
  }

  lemma LoweredCollapse(before: string, o: char, inside: string, k: char, after: string, lower: char -> char)
    requires KeepsMarks(lower) && IsQuoteMark(o) && IsQuoteMark(k)
    ensures Map(lower, Collapse(before + ([o] + (inside + ([k] + after)))))
         == Ahead(before, lower) + ([o] + Middle(inside, lower) + [k]) + Behind(after, lower)
  {
    CollapseIsSqueeze(before + ([o] + (inside + ([k] + after))));
    SqueezeTwoMarks(AtStart, before, o, inside, k, after);
    var x := Squeeze(AtStart, before) + Blanks(Text.After(AtStart, before));
    var middle := Squeeze(InWord, inside) + Blanks(Text.After(InWord, inside));
    hide KeepsMarks;
    hide IsQuoteMark;
    MapConcat(lower, x + ([o] + middle + [k]), Squeeze(InWord, after));
    MapConcat(lower, x, [o] + middle + [k]);
    LoweredCore(o, middle, k, lower);
  }

  // ---------------------------------------------------------------- the whole normalization

  function Head(before: string, lower: char -> char): string {
    Front(TrimFront(IsOuter, TrimFront(IsSpace, Ahead(before, lower))))
  }

  function Last(before: string, after: string, lower: char -> char): string {
    Rear(TrimFront(IsOuter, TrimFront(IsSpace, Ahead(before, lower))),
      TrimBack(IsOuter, TrimBack(IsSpace, Behind(after, lower))))
  }

  /** Normalizing an utterance works on each side of a quotation, and inside it, separately. */
  lemma {:induction false} NormalizedAround(
    before: string, o: char, inside: string, k: char, after: string, lower: char -> char)
    requires KeepsMarks(lower) && IsQuoteMark(o) && IsQuoteMark(k)
    ensures Normalized(before + ([o] + (inside + ([k] + after))), lower)
         == Head(before, lower) + ([o] + (Middle(inside, lower) + ([k] + Last(before, after, lower))))
  {
    hide KeepsMarks;
    hide IsQuoteMark;
    hide IsSpace;
    hide IsOuter;
    hide Ahead;
    hide Middle;
    hide Behind;
    LoweredCollapse(before, o, inside, k, after, lower);
    var x, core, y := Ahead(before, lower), [o] + Middle(inside, lower) + [k], Behind(after, lower);
    assert core[0] == o && core[|core| - 1] == k;
    TrimAround(x, core, y);
    var x1, y1 := TrimFront(IsSpace, x), TrimBack(IsSpace, y);
    OuterAround(x1, core, y1);
    StripAround(TrimFront(IsOuter, x1), core, TrimBack(IsOuter, y1));
    Nested(Head(before, lower), [o], Middle(inside, lower), [k], Last(before, after, lower));
  }

  lemma Nested(a: string, b: string, c: string, d: string, e: string)
    ensures a + (b + c + d) + e == a + (b + (c + (d + e)))
  {
  }

  // ---------------------------------------------------------------- quote marks survive

  lemma {:induction false} TrimFrontMarks(p: char -> bool, s: string)
    requires forall c :: p(c) ==> !IsQuoteMark(c)
    ensures Marks(TrimFront(p, s)) == Marks(s)
    decreases |s|
  {
    hide IsQuoteMark;
    if s != [] && p(s[0]) { TrimFrontMarks(p, s[1..]); }
  }

  lemma {:induction false} SqueezeMarks(at: Place, s: string)
    ensures Marks(Squeeze(at, s)) == Marks(s)
    decreases |s|
  {
    if s != [] {
      if IsSpace(s[0]) {
        SqueezeMarks(if at.AtStart? then AtStart else InGap, s[1..]);
      } else {
        SqueezeMarks(InWord, s[1..]);
        BlanksHaveNoMarks(at);
        hide IsSpace;
        hide IsQuoteMark;
        DropConcat(NotMark, Blanks(at) + [s[0]], Squeeze(InWord, s[1..]));
        DropConcat(NotMark, Blanks(at), [s[0]]);
        DropConcat(NotMark, [s[0]], s[1..]);
        assert s == [s[0]] + s[1..];
      }
    }
  }

  lemma BlanksHaveNoMarks(at: Place)
    ensures Marks(Blanks(at)) == []
  {
    assert NotMark(' ') && [' '][1..] == [];
  }

  lemma {:induction false} MapMarks(lower: char -> char, s: string)
    requires KeepsMarks(lower)
    ensures Marks(Map(lower, s)) == Marks(s)
    decreases |s|
  {
    hide IsQuoteMark;
    if s != [] {
      MapMarks(lower, s[1..]);
      assert ([lower(s[0])] + Map(lower, s[1..]))[1..] == Map(lower, s[1..]);
    }
  }

  lemma PieceMarks(at: Place, s: string, lower: char -> char)
    requires KeepsMarks(lower)
    ensures Marks(Map(lower, Squeeze(at, s) + Blanks(Text.After(at, s)))) == Marks(s)
  {
    MapMarks(lower, Squeeze(at, s) + Blanks(Text.After(at, s)));
    SqueezeMarks(at, s);
    BlanksHaveNoMarks(Text.After(at, s));
    hide KeepsMarks;
    DropConcat(NotMark, Squeeze(at, s), Blanks(Text.After(at, s)));
  }

  lemma {:induction false} FrontMarks(x: string)
    ensures Marks(Front(x)) == Marks(x)
    decreases |x|
  {
    var n := FillerLength(FILLERS, x);
    if n != 0 {
      FillersHaveNoMarks();
      FillerPrefix(FILLERS, x);
      assert x == x[..n] + x[n..];
      DropConcat(NotMark, x[..n], x[n..]);
      DropAll(NotMark, x[..n]);
      TrimFrontMarks(IsSpace, x[n..]);
      TrimFrontMarks(IsPause, TrimFront(IsSpace, x[n..]));
      hide FILLERS;
      hide IsSpace;
      hide IsQuoteMark;
      FrontMarks(TrimFront(IsPause, TrimFront(IsSpace, x[n..])));
    }
  }

  lemma {:induction false} FillerPrefix(fillers: seq<string>, x: string)
    requires forall f :: f in fillers ==> Free(IsQuoteMark, f)
    ensures Free(IsQuoteMark, x[..FillerLength(fillers, x)])
    decreases |fillers|
  {
    hide IsQuoteMark;
    if fillers != [] {
      if fillers[0] <= x {
        assert fillers[0] in fillers && x[..|fillers[0]|] == fillers[0];
      } else {
        FillerPrefix(fillers[1..], x);
      }
    }
  }

  lemma {:induction false} DropAll(p: char -> bool, s: string)
    requires forall i :: 0 <= i < |s| ==> p(s[i])
    ensures Drop(p, s) == []
    decreases |s|
  {
    if s != [] { DropAll(p, s[1..]); }
  }

  /** Neither side of a quotation loses or gains a quote mark, and neither does its inside. */
  lemma {:induction false} NormalizingKeepsMarks(s: string, lower: char -> char)
    requires KeepsMarks(lower)
    ensures Marks(Head(s, lower)) == Marks(s) && Marks(Middle(s, lower)) == Marks(s)
  {
    hide KeepsMarks;
    hide Squeeze;
    hide Map;
    hide TrimFront;
    hide Front;
    PieceMarks(AtStart, s, lower);
    PieceMarks(InWord, s, lower);
    var x := Ahead(s, lower);
    TrimFrontMarks(IsSpace, x);
    TrimFrontMarks(IsOuter, TrimFront(IsSpace, x));
    hide IsSpace;
    hide IsOuter;
    hide IsQuoteMark;
    FrontMarks(TrimFront(IsOuter, TrimFront(IsSpace, x)));
  }

  /**
   What is said inside a quoted region of an utterance cannot be heard outside it: any balanced text
   there leaves the same after normalizing and stripping, whatever follows.
   */
  lemma {:induction false} InsideIsUnheardInUtterance(
    before: Phrase, open: char, inside: Phrase, inside': Phrase, after: string, lower: char -> char)
    requires KeepsMarks(lower) && WellQuoted(before, None) && Closer(open).Some?
    requires WellQuoted(inside, Closer(open)) && WellQuoted(inside', Closer(open))
    ensures Scan([], Normalized(Render(before) + Region(open, inside, after), lower))
         == Scan([], Normalized(Render(before) + Region(open, inside', after), lower))
  {
    var k := CloserOf(open);
    var b, i, i' := Render(before), Render(inside), Render(inside');
    assert IsQuoteMark(open) && IsQuoteMark(k);
    NormalizedAround(b, open, i, k, after, lower);
    NormalizedAround(b, open, i', k, after, lower);
    NormalizingKeepsMarks(b, lower);
    NormalizingKeepsMarks(i, lower);
    NormalizingKeepsMarks(i', lower);
    hide Normalized;
    hide Scan;
    hide KeepsMarks;
    var p := Reparse(before, None, Head(b, lower));
    var q := Reparse(inside, Closer(open), Middle(i, lower));
    var q' := Reparse(inside', Closer(open), Middle(i', lower));
    InsideIsUnheard(p, open, q, q', Last(b, after, lower));
  }
}
