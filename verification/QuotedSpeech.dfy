/**
 Removing quoted speech before consent is read from an utterance.

 `Strip` is the source's stack scanner.  The reference is a grammar: a phrase is made of plain
 characters and quoted regions, regions nest, and inside a region only its own closer ends it.
 */
module QuotedSpeech {
  import opened Common
  import opened Sequences
  import opened Text

  /** The closer a quote mark opens for; the straight quote closes itself. */
  function Closer(c: char): Option<char> {
    if c == '「' then Some('」') else if c == '『' then Some('』') else if c == '“' then Some('”')
    else if c == '"' then Some('"') else None
  }

  predicate IsStrayCloser(c: char) {
    c == '」' || c == '』' || c == '”'
  }

  predicate IsQuoteMark(c: char) {
    Closer(c).Some? || IsStrayCloser(c)
  }

  // ---------------------------------------------------------------- the grammar

  datatype Phrase =
    | End
    | Plain(c: char, rest: Phrase)
    | Quoted(open: char, inside: Phrase, rest: Phrase)

  /** `enclosing` is the closer of the region around the phrase, if there is one. */
  predicate WellQuoted(p: Phrase, enclosing: Option<char>) {
    match p
    case End => true
    case Plain(c, rest) =>
      && Closer(c).None?
      && (if enclosing.Some? then c != enclosing.value else !IsStrayCloser(c))
      && WellQuoted(rest, enclosing)
    case Quoted(open, inside, rest) =>
      && Closer(open).Some? && Some(open) != enclosing
      && WellQuoted(inside, Closer(open)) && WellQuoted(rest, enclosing)
  }

  function CloserOf(open: char): char {
    if Closer(open).Some? then Closer(open).value else open
  }

  function Render(p: Phrase): string {
    match p
    case End => []
    case Plain(c, rest) => [c] + Render(rest)
    case Quoted(open, inside, rest) => [open] + (Render(inside) + ([CloserOf(open)] + Render(rest)))
  }

  /** What remains: the plain characters outside every region, two blanks for each region. */
  function Outline(p: Phrase): string {
    match p
    case End => []
    case Plain(c, rest) => [c] + Outline(rest)
    case Quoted(_, _, rest) => [' ', ' '] + Outline(rest)
  }

  // ---------------------------------------------------------------- the scanner

  function Before(out: string, r: Option<string>): Option<string> {
    if r.None? then None else Some(out + r.value)
  }

  /** The scanner's result when `closers` is its stack and `s` is unread. */
  function Scan(closers: seq<char>, s: string): Option<string>
    decreases |s|
  {
    if s == [] then if closers == [] then Some([]) else None
    else if closers != [] then
      var n := |closers| - 1;
      if s[0] == closers[n] then Before(if n == 0 then [' '] else [], Scan(closers[..n], s[1..]))
      else if Closer(s[0]).Some? then Scan(closers + [Closer(s[0]).value], s[1..])
      else Scan(closers, s[1..])
    else if Closer(s[0]).Some? then Before([' '], Scan([Closer(s[0]).value], s[1..]))
    else if IsStrayCloser(s[0]) then None
    else Before([s[0]], Scan([], s[1..]))
  }

  /** One character of the scan. */
  lemma ScanOne(closers: seq<char>, c: char, rest: string)
    ensures var r := Scan(closers, [c] + rest);
      if closers != [] then
        var n := |closers| - 1;
        if c == closers[n] then r == Before(if n == 0 then [' '] else [], Scan(closers[..n], rest))
        else if Closer(c).Some? then r == Scan(closers + [CloserOf(c)], rest)
        else r == Scan(closers, rest)
      else if Closer(c).Some? then r == Before([' '], Scan([CloserOf(c)], rest))
      else if IsStrayCloser(c) then r == None
      else r == Before([c], Scan([], rest))
  {
    var s := [c] + rest;
    assert s[0] == c && s[1..] == rest;
  }

  method Strip(value: string) returns (r: Option<string>)
    ensures r == Scan([], value)
  {
    var result: string := [];
    var closers: seq<char> := [];
    assert value[0..] == value;
    BeforeNothing(Scan([], value));
    ScanDone(closers);
    hide Scan;
    for i := 0 to |value|
      invariant Before(result, Scan(closers, value[i..])) == Scan([], value)
    {
      var c := value[i];
      var rest := value[i + 1..];
      assert value[i..] == [c] + rest;
      ScanOne(closers, c, rest);
      if |closers| > 0 {
        if c == closers[|closers| - 1] {
          closers := closers[..|closers| - 1];
          if |closers| == 0 {
            BeforeTwice(result, [' '], Scan(closers, rest));
            result := result + [' '];
          } else {
            BeforeNothing(Scan(closers, rest));
          }
          continue;
        }
        if Closer(c).Some? {
          closers := closers + [Closer(c).value];
        }
        continue;
      }
      if Closer(c).Some? {
        BeforeTwice(result, [' '], Scan([CloserOf(c)], rest));
        closers := [Closer(c).value];
        result := result + [' '];
        continue;
      }
      if IsStrayCloser(c) {
        return None;
      }
      BeforeTwice(result, [c], Scan([], rest));
      result := result + [c];
    }
    assert value[|value|..] == [];
    ScanDone(closers);
    if |closers| != 0 {
      return None;
    }
    assert result + [] == result;
    r := Some(result);
  }

  lemma ScanDone(closers: seq<char>)
    ensures Scan(closers, []) == if closers == [] then Some([]) else None
  {
  }

  lemma BeforeNothing(r: Option<string>)
    ensures Before([], r) == r
  {
    if r.Some? { assert [] + r.value == r.value; }
  }

  lemma BeforeTwice(a: string, b: string, r: Option<string>)
    ensures Before(a, Before(b, r)) == Before(a + b, r)
  {
    if r.Some? { assert a + (b + r.value) == (a + b) + r.value; }
  }

  // ---------------------------------------------------------------- scanner and grammar agree

  function Top(closers: seq<char>): Option<char> {
    if closers == [] then None else Some(closers[|closers| - 1])
  }

  /** Scanning a well-quoted phrase returns to the same stack; only the outermost text is kept. */
  lemma {:induction false} ScanRender(p: Phrase, closers: seq<char>, tail: string)
    requires WellQuoted(p, Top(closers))
    ensures Scan(closers, Render(p) + tail) == Before(if closers == [] then Outline(p) else [], Scan(closers, tail))
    decreases p
  {
    hide Scan;
    BeforeNothing(Scan(closers, tail));
    match p
    case End =>
      assert Render(p) + tail == tail;
    case Plain(c, rest) =>
      ScanRender(rest, closers, tail);
      assert Render(p) + tail == [c] + (Render(rest) + tail);
      ScanOne(closers, c, Render(rest) + tail);
      BeforeTwice([c], Outline(rest), Scan(closers, tail));
    case Quoted(open, inside, rest) =>
      var k, after := CloserOf(open), Render(rest) + tail;
      ScanRender(inside, closers + [k], [k] + after);
      ScanRender(rest, closers, tail);
      assert Render(p) + tail == [open] + (Render(inside) + ([k] + after));
      RegionScanned(closers, open, Render(inside), after);
      BeforeTwice([' ', ' '], Outline(rest), Scan(closers, tail));
  }

  /** A region leaves two blanks at the outermost level and nothing elsewhere. */
  lemma RegionScanned(closers: seq<char>, open: char, inside: string, after: string)
    requires Closer(open).Some? && Some(open) != Top(closers)
    requires var k := CloserOf(open);
      Scan(closers + [k], inside + ([k] + after)) == Before([], Scan(closers + [k], [k] + after))
    ensures Scan(closers, [open] + (inside + ([CloserOf(open)] + after)))
         == Before(if closers == [] then [' ', ' '] else [], Scan(closers, after))
  {
    hide Scan;
    var k := CloserOf(open);
    ScanOne(closers, open, inside + ([k] + after));
    ScanOne(closers + [k], k, after);
    assert (closers + [k])[..|closers|] == closers;
    assert closers == [] ==> closers + [k] == [k];
    BeforeNothing(Scan(closers + [k], [k] + after));
    BeforeTwice([' '], [' '], Scan(closers, after));
    assert [' '] + [' '] == [' ', ' '];
    BeforeNothing(Scan(closers, after));
  }

  /** An accepted text parses up to the closer of the innermost open region. */
  lemma {:induction false} Parse(closers: seq<char>, s: string) returns (p: Phrase, rest: string)
    requires Scan(closers, s).Some?
    ensures WellQuoted(p, Top(closers))
    ensures closers == [] ==> rest == [] && s == Render(p)
    ensures closers != [] ==>
      s == Render(p) + ([closers[|closers| - 1]] + rest) && Scan(closers[..|closers| - 1], rest).Some?
    decreases |s|
  {
    hide Scan;
    if s == [] {
      ScanDone(closers);
      p, rest := End, [];
    } else {
      var c, tail := s[0], s[1..];
      assert s == [c] + tail;
      ScanOne(closers, c, tail);
      if closers != [] && c == closers[|closers| - 1] {
        p, rest := End, tail;
        assert [] + ([c] + rest) == s;
      } else if Closer(c).Some? {
        var k := CloserOf(c);
        assert closers == [] ==> closers + [k] == [k];
        var inside, after := Parse(closers + [k], tail);
        assert (closers + [k])[..|closers|] == closers;
        var next;
        next, rest := Parse(closers, after);
        p := Quoted(c, inside, next);
        if closers != [] {
          Assemble([c] + Render(inside) + [k], Render(next), [closers[|closers| - 1]] + rest);
        }
      } else {
        var next;
        next, rest := Parse(closers, tail);
        p := Plain(c, next);
        if closers != [] {
          Assemble([c], Render(next), [closers[|closers| - 1]] + rest);
        }
      }
    }
  }

  /** The scanner accepts exactly the well-quoted phrases, and returns their outline. */
  lemma {:induction false} AcceptsExactlyWellQuoted(s: string, out: string)
    ensures Scan([], s) == Some(out)
       <==> exists p :: WellQuoted(p, None) && Render(p) == s && Outline(p) == out
  {
    if Scan([], s).Some? {
      var p, rest := Parse([], s);
      WellQuotedScan(p);
      assert Outline(p) == Scan([], s).value;
    }
    forall p | WellQuoted(p, None) && Render(p) == s ensures Scan([], s) == Some(Outline(p)) { WellQuotedScan(p); }
  }

  lemma WellQuotedScan(p: Phrase)
    requires WellQuoted(p, None)
    ensures Scan([], Render(p)) == Some(Outline(p))
  {
    ScanRender(p, [], []);
    assert Render(p) + [] == Render(p) && Outline(p) + [] == Outline(p);
  }

  // ---------------------------------------------------------------- consequences

  lemma {:induction false} OutlineHasNoQuoteMark(p: Phrase)
    requires WellQuoted(p, None)
    ensures Free(IsQuoteMark, Outline(p))
    decreases p
  {
    match p
    case End =>
    case Plain(c, rest) => OutlineHasNoQuoteMark(rest);
    case Quoted(_, _, rest) => OutlineHasNoQuoteMark(rest);
  }

  lemma {:induction false} QuoteFreeIsFixed(s: string)
    requires Free(IsQuoteMark, s)
    ensures Scan([], s) == Some(s)
    decreases |s|
  {
    if s != [] {
      QuoteFreeIsFixed(s[1..]);
      assert s == [s[0]] + s[1..];
    }
  }

  /** The output never holds a quote mark, and stripping it again changes nothing. */
  lemma {:induction false} StripIsFinal(s: string)
    requires Scan([], s).Some?
    ensures Free(IsQuoteMark, Scan([], s).value)
    ensures Scan([], Scan([], s).value) == Scan([], s)
  {
    var p, rest := Parse([], s);
    WellQuotedScan(p);
    OutlineHasNoQuoteMark(p);
    QuoteFreeIsFixed(Outline(p));
  }

  /**
   What is said inside a quoted region cannot be heard outside it: any balanced text there gives
   the same output, whatever follows, well quoted or not.
   */
  lemma {:induction false} InsideIsUnheard(before: Phrase, open: char, inside: Phrase, inside': Phrase, after: string)
    requires WellQuoted(before, None) && Closer(open).Some?
    requires WellQuoted(inside, Closer(open)) && WellQuoted(inside', Closer(open))
    ensures Scan([], Render(before) + Region(open, inside, after))
      == Scan([], Render(before) + Region(open, inside', after))
  {
    hide Scan;
    RegionIsBlank(open, inside, after);
    RegionIsBlank(open, inside', after);
    ScanRender(before, [], Region(open, inside, after));
    ScanRender(before, [], Region(open, inside', after));
  }

  /** A quoted region, then any text. */
  function Region(open: char, inside: Phrase, after: string): string {
    [open] + (Render(inside) + ([CloserOf(open)] + after))
  }

  lemma RegionIsBlank(open: char, inside: Phrase, after: string)
    requires Closer(open).Some? && WellQuoted(inside, Closer(open))
    ensures Scan([], Region(open, inside, after)) == Before([' ', ' '], Scan([], after))
  {
    hide Scan;
    var k := CloserOf(open);
    assert [] + [k] == [k];
    ScanRender(inside, [k], [k] + after);
    RegionScanned([], open, Render(inside), after);
  }

  // ---------------------------------------------------------------- only the quote marks matter

  predicate NotMark(c: char) { !IsQuoteMark(c) }

  /** The quote marks of a text, in order. */
  function Marks(s: string): string {
    Drop(NotMark, s)
  }

  lemma {:induction false} SplitAtMark(t: string, x: string, k: char, y: string) returns (a: string, b: string)
    requires Marks(t) == x + ([k] + y)
    ensures t == a + ([k] + b) && Marks(a) == x && Marks(b) == y
    decreases |t|
  {
    var c, rest := t[0], t[1..];
    assert t == [c] + rest;
    if NotMark(c) {
      a, b := SplitAtMark(rest, x, k, y);
      a := [c] + a;
      assert a[1..] == a[1..];
    } else if x == [] {
      assert x + ([k] + y) == [k] + y;
      assert ([k] + y)[1..] == y;
      a, b := [], rest;
    } else {
      assert (x + ([k] + y))[1..] == x[1..] + ([k] + y);
      a, b := SplitAtMark(rest, x[1..], k, y);
      a := [c] + a;
      assert x == [x[0]] + x[1..];
    }
  }

  /** A text with the same quote marks as a well-quoted phrase is well quoted, too. */
  lemma {:induction false} Reparse(p: Phrase, enclosing: Option<char>, t: string) returns (q: Phrase)
    requires WellQuoted(p, enclosing) && (enclosing.Some? ==> IsQuoteMark(enclosing.value))
    requires Marks(t) == Marks(Render(p))
    ensures WellQuoted(q, enclosing) && Render(q) == t
    decreases p, |t|
  {
    if t != [] && NotMark(t[0]) {
      var rest := Reparse(p, enclosing, t[1..]);
      q := Plain(t[0], rest);
      assert t == [t[0]] + t[1..];
    } else {
      match p
      case End =>
        q := End;
      case Plain(c, next) =>
        assert ([c] + Render(next))[1..] == Render(next);
        if NotMark(c) {
          q := Reparse(next, enclosing, t);
        } else {
          assert Marks(t) == [c] + Marks(Render(next));
          assert t != [] && Marks(t) == [t[0]] + Marks(t[1..]);
          assert Marks(t)[1..] == Marks(t[1..]) == Marks(Render(next));
          var rest := Reparse(next, enclosing, t[1..]);
          q := Plain(c, rest);
          assert t == [t[0]] + t[1..];
        }
      case Quoted(open, inside, next) =>
        q := ReparseRegion(open, inside, next, enclosing, t);
    }
  }

  lemma {:induction false} ReparseRegion(
    open: char, inside: Phrase, next: Phrase, enclosing: Option<char>, t: string)
    returns (q: Phrase)
    requires WellQuoted(Quoted(open, inside, next), enclosing) && (enclosing.Some? ==> IsQuoteMark(enclosing.value))
    requires Marks(t) == Marks(Render(Quoted(open, inside, next))) && (t != [] ==> !NotMark(t[0]))
    ensures WellQuoted(q, enclosing) && Render(q) == t
    decreases Quoted(open, inside, next), 0
  {
    var k := CloserOf(open);
    RegionMarks(open, inside, next);
    assert [open] + (Marks(Render(inside)) + ([k] + Marks(Render(next)))) == Marks(t);
    assert Marks(t)[0] == open && t[0] == open && Marks(t)[1..] == Marks(t[1..]);
    var a, b := SplitAtMark(t[1..], Marks(Render(inside)), k, Marks(Render(next)));
    var p1 := Reparse(inside, Closer(open), a);
    var p2 := Reparse(next, enclosing, b);
    q := Quoted(open, p1, p2);
    assert t == [t[0]] + t[1..];
  }

  lemma RegionMarks(open: char, inside: Phrase, next: Phrase)
    requires Closer(open).Some?
    ensures Marks(Render(Quoted(open, inside, next)))
         == [open] + (Marks(Render(inside)) + ([CloserOf(open)] + Marks(Render(next))))
  {
    var k, i, n := CloserOf(open), Render(inside), Render(next);
    assert ([open] + (i + ([k] + n)))[1..] == i + ([k] + n);
    DropConcat(NotMark, i, [k] + n);
    assert ([k] + n)[1..] == n;
  }

  predicate IsClauseSeparator(c: char) {
    || c == '。' || c == '！' || c == '？' || c == '!' || c == '?' || c == '.' || c == '\n' || c == '\r'
    || c == ';' || c == '；'
  }
}
