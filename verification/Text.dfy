/**
 The string helpers the models share: white space, splitting, and collapsing runs of white space.
 A string is its sequence of Unicode scalar values.
 */
module Text {

  /** Unicode white space, as `strings.Fields` and `strings.TrimSpace` see it. */
  predicate IsSpace(c: char) {
    || c == '\t' || c == '\n' || c == '\U{0B}' || c == '\U{0C}' || c == '\r' || c == ' '
    || c == '\U{85}' || c == '\U{A0}' || c == '\U{1680}' || '\U{2000}' <= c <= '\U{200A}'
    || c == '\U{2028}' || c == '\U{2029}' || c == '\U{202F}' || c == '\U{205F}' || c == '\U{3000}'
  }

  predicate Blank(s: string) {
    forall i :: 0 <= i < |s| ==> IsSpace(s[i])
  }

  /** The characters of `s` that do not satisfy `p`, in order. */
  function Drop(p: char -> bool, s: string): string {
    if s == [] then [] else if p(s[0]) then Drop(p, s[1..]) else [s[0]] + Drop(p, s[1..])
  }

  predicate Free(p: char -> bool, s: string) {
    forall i :: 0 <= i < |s| ==> !p(s[i])
  }

  function Concat(ss: seq<string>): string {
    if ss == [] then [] else ss[0] + Concat(ss[1..])
  }

  /** The maximal non-empty pieces of `current + s` between separators; `current` is the open piece. */
  function Split(p: char -> bool, current: string, s: string): seq<string>
    decreases |s|
  {
    if s == [] then Piece(current)
    else if p(s[0]) then Piece(current) + Split(p, [], s[1..])
    else Split(p, current + [s[0]], s[1..])
  }

  function Piece(s: string): seq<string> {
    if s == [] then [] else [s]
  }

  function Join(words: seq<string>): string {
    if words == [] then [] else if |words| == 1 then words[0] else words[0] + [' '] + Join(words[1..])
  }

  function Fields(s: string): seq<string> {
    Split(IsSpace, [], s)
  }

  /** Trimmed, with every run of white space replaced by one blank. */
  function Collapse(s: string): string {
    Join(Fields(s))
  }

  // ---------------------------------------------------------------- word tables

  /** Kana and ideographs; white space, delimiters and clause separators lie outside this range. */
  predicate IsWordCharacter(c: char) {
    '\U{3041}' <= c <= '\U{9FFF}'
  }

  ghost predicate AllClean(ss: seq<string>) {
    forall i, j :: 0 <= i < |ss| && 0 <= j < |ss[i]| ==> IsWordCharacter(ss[i][j])
  }

  ghost predicate AllNonEmpty(ss: seq<string>) {
    forall i :: 0 <= i < |ss| ==> ss[i] != []
  }

  // ---------------------------------------------------------------- dropping characters

  lemma {:induction false} DropConcat(p: char -> bool, a: string, b: string)
    ensures Drop(p, a + b) == Drop(p, a) + Drop(p, b)
    decreases |a|
  {
    if a == [] {
      assert a + b == b;
    } else {
      assert (a + b)[1..] == a[1..] + b;
      DropConcat(p, a[1..], b);
    }
  }

  lemma {:induction false} DropFree(p: char -> bool, s: string)
    requires Free(p, s)
    ensures Drop(p, s) == s
    decreases |s|
  {
    if s != [] {
      DropFree(p, s[1..]);
      assert s == [s[0]] + s[1..];
    }
  }

  lemma {:induction false} DropTwice(p: char -> bool, q: char -> bool, s: string)
    requires forall c :: p(c) ==> q(c)
    ensures Drop(q, Drop(p, s)) == Drop(q, s)
    decreases |s|
  {
    if s != [] {
      DropTwice(p, q, s[1..]);
      if !p(s[0]) {
        DropConcat(q, [s[0]], Drop(p, s[1..]));
        DropConcat(q, [s[0]], s[1..]);
        assert s == [s[0]] + s[1..];
      }
    }
  }

  lemma {:induction false} ConcatAppend(a: seq<string>, b: seq<string>)
    ensures Concat(a + b) == Concat(a) + Concat(b)
    decreases |a|
  {
    if a == [] {
      assert a + b == b;
    } else {
      assert (a + b)[1..] == a[1..] + b;
      ConcatAppend(a[1..], b);
    }
  }

  // ---------------------------------------------------------------- splitting

  lemma {:induction false} SplitWord(p: char -> bool, current: string, w: string, t: string)
    requires Free(p, w)
    ensures Split(p, current, w + t) == Split(p, current + w, t)
    decreases |w|
  {
    if w == [] {
      assert w + t == t && current + w == current;
    } else {
      assert (w + t)[1..] == w[1..] + t;
      assert current + w == (current + [w[0]]) + w[1..];
      SplitWord(p, current + [w[0]], w[1..], t);
    }
  }

  ghost predicate Words(p: char -> bool, ws: seq<string>) {
    forall i :: 0 <= i < |ws| ==> ws[i] != [] && Free(p, ws[i])
  }

  lemma {:induction false} SplitWords(p: char -> bool, current: string, s: string)
    requires Free(p, current)
    ensures Words(p, Split(p, current, s))
    decreases |s|
  {
    if s != [] {
      if p(s[0]) {
        SplitWords(p, [], s[1..]);
      } else {
        SplitWords(p, current + [s[0]], s[1..]);
      }
    }
  }

  lemma {:induction false} SplitText(p: char -> bool, current: string, s: string)
    ensures Concat(Split(p, current, s)) == current + Drop(p, s)
    decreases |s|
  {
    if s == [] {
      PieceConcat(current, []);
    } else if p(s[0]) {
      SplitText(p, [], s[1..]);
      assert [] + Drop(p, s[1..]) == Drop(p, s[1..]);
      PieceConcat(current, Split(p, [], s[1..]));
    } else {
      SplitText(p, current + [s[0]], s[1..]);
      assert current + [s[0]] + Drop(p, s[1..]) == current + ([s[0]] + Drop(p, s[1..]));
    }
  }

  /** Every piece is non-empty and free of separators, and nothing else is lost. */
  lemma {:induction false} SplitPieces(p: char -> bool, s: string)
    ensures Words(p, Split(p, [], s)) && Concat(Split(p, [], s)) == Drop(p, s)
  {
    SplitWords(p, [], s);
    SplitText(p, [], s);
    assert [] + Drop(p, s) == Drop(p, s);
  }

  lemma PieceConcat(current: string, rest: seq<string>)
    ensures Concat(Piece(current) + rest) == current + Concat(rest)
    ensures Piece(current) + [] == Piece(current)
  {
    if current == [] {
      assert Piece(current) + rest == rest;
    } else {
      assert (Piece(current) + rest)[1..] == rest;
    }
  }

  // ---------------------------------------------------------------- collapsing

  lemma {:induction false} FieldsOfJoin(ws: seq<string>)
    requires Words(IsSpace, ws)
    ensures Fields(Join(ws)) == ws
    decreases |ws|
  {
    hide IsSpace;
    if |ws| == 1 {
      SplitWord(IsSpace, [], ws[0], []);
      assert ws[0] + [] == ws[0] && [] + ws[0] == ws[0];
      assert ws == [ws[0]];
    } else if |ws| > 1 {
      var rest := Join(ws[1..]);
      assert Words(IsSpace, ws[1..]);
      FieldsOfJoin(ws[1..]);
      assert ws[0] + [' '] + rest == ws[0] + ([' '] + rest);
      SplitWord(IsSpace, [], ws[0], [' '] + rest);
      assert [] + ws[0] == ws[0];
      BlankIsSpace();
      assert ([' '] + rest)[1..] == rest;
      assert ws == [ws[0]] + ws[1..];
    }
  }

  lemma BlankIsSpace()
    ensures IsSpace(' ')
  {
  }

  lemma {:induction false} DropSpaceJoin(ws: seq<string>)
    requires Words(IsSpace, ws)
    ensures Drop(IsSpace, Join(ws)) == Concat(ws)
    decreases |ws|
  {
    hide IsSpace;
    if |ws| == 1 {
      DropFree(IsSpace, ws[0]);
      assert Concat(ws) == ws[0] + Concat([]) by { assert ws[1..] == []; }
    } else if |ws| > 1 {
      assert Words(IsSpace, ws[1..]);
      DropSpaceJoin(ws[1..]);
      DropConcat(IsSpace, ws[0] + [' '], Join(ws[1..]));
      DropConcat(IsSpace, ws[0], [' ']);
      DropFree(IsSpace, ws[0]);
      BlankIsSpace();
      assert Drop(IsSpace, [' ']) == [];
    }
  }

  lemma {:induction false} CollapseIdempotent(s: string)
    ensures Collapse(Collapse(s)) == Collapse(s)
  {
    hide IsSpace;
    SplitPieces(IsSpace, s);
    FieldsOfJoin(Fields(s));
  }

  /** Collapsing keeps every other character, in order. */
  lemma {:induction false} CollapseKeepsText(s: string)
    ensures Drop(IsSpace, Collapse(s)) == Drop(IsSpace, s)
  {
    hide IsSpace;
    SplitPieces(IsSpace, s);
    DropSpaceJoin(Fields(s));
  }

  /** The only white space left is the plain blank. */
  lemma {:induction false} JoinSpaces(ws: seq<string>)
    requires Words(IsSpace, ws)
    ensures forall i :: 0 <= i < |Join(ws)| && IsSpace(Join(ws)[i]) ==> Join(ws)[i] == ' '
    decreases |ws|
  {
    hide IsSpace;
    if |ws| > 1 {
      assert Words(IsSpace, ws[1..]);
      JoinSpaces(ws[1..]);
    }
  }

  lemma {:induction false} CollapsedSpaces(s: string)
    ensures forall i :: 0 <= i < |Collapse(s)| && IsSpace(Collapse(s)[i]) ==> Collapse(s)[i] == ' '
  {
    hide IsSpace;
    SplitPieces(IsSpace, s);
    JoinSpaces(Fields(s));
  }

  // ---------------------------------------------------------------- trimming and mapping

  function TrimFront(p: char -> bool, s: string): (t: string)
    ensures |t| <= |s|
  {
    if s != [] && p(s[0]) then TrimFront(p, s[1..]) else s
  }

  function TrimBack(p: char -> bool, s: string): (t: string)
    ensures |t| <= |s|
  {
    if s != [] && p(s[|s| - 1]) then TrimBack(p, s[..|s| - 1]) else s
  }

  function Trim(s: string): string {
    TrimBack(IsSpace, TrimFront(IsSpace, s))
  }

  function Map(f: char -> char, s: string): string {
    if s == [] then [] else [f(s[0])] + Map(f, s[1..])
  }

  lemma {:induction false} MapConcat(f: char -> char, a: string, b: string)
    ensures Map(f, a + b) == Map(f, a) + Map(f, b)
    decreases |a|
  {
    if a == [] {
      assert a + b == b;
    } else {
      assert (a + b)[1..] == a[1..] + b;
      MapConcat(f, a[1..], b);
    }
  }

  /** Trimming from either side stops at a core whose first and last characters stay. */
  lemma {:induction false} TrimFrontAround(p: char -> bool, x: string, core: string)
    requires core != [] && !p(core[0])
    ensures TrimFront(p, x + core) == TrimFront(p, x) + core
    decreases |x|
  {
    if x == [] {
      assert x + core == core;
    } else {
      assert (x + core)[1..] == x[1..] + core;
      TrimFrontAround(p, x[1..], core);
    }
  }

  lemma {:induction false} TrimBackAround(p: char -> bool, core: string, y: string)
    requires core != [] && !p(core[|core| - 1])
    ensures TrimBack(p, core + y) == core + TrimBack(p, y)
    decreases |y|
  {
    if y == [] {
      assert core + y == core;
    } else {
      assert (core + y)[..|core + y| - 1] == core + y[..|y| - 1];
      TrimBackAround(p, core, y[..|y| - 1]);
    }
  }

  // ---------------------------------------------------------------- collapsing in one pass

  /** What has been read so far: nothing but white space, a word, or a word and then white space. */
  datatype Place = AtStart | InWord | InGap

  function After(at: Place, s: string): Place
    decreases |s|
  {
    if s == [] then at
    else After(if !IsSpace(s[0]) then InWord else if at.AtStart? then AtStart else InGap, s[1..])
  }

  /** The blank that a gap leaves before the next word. */
  function Blanks(at: Place): string {
    if at.InGap? then [' '] else []
  }

  function Squeeze(at: Place, s: string): string
    decreases |s|
  {
    if s == [] then []
    else if IsSpace(s[0]) then Squeeze(if at.AtStart? then AtStart else InGap, s[1..])
    else Blanks(at) + [s[0]] + Squeeze(InWord, s[1..])
  }

  lemma {:induction false} SqueezeConcat(at: Place, a: string, b: string)
    ensures Squeeze(at, a + b) == Squeeze(at, a) + Squeeze(After(at, a), b)
    decreases |a|
  {
    hide IsSpace;
    if a == [] {
      assert a + b == b;
    } else {
      assert (a + b)[1..] == a[1..] + b;
      SqueezeConcat(if !IsSpace(a[0]) then InWord else if at.AtStart? then AtStart else InGap, a[1..], b);
    }
  }

  lemma {:induction false} SqueezeGap(s: string)
    ensures Squeeze(InGap, s) == if Squeeze(AtStart, s) == [] then [] else [' '] + Squeeze(AtStart, s)
    decreases |s|
  {
    hide IsSpace;
    if s != [] && IsSpace(s[0]) { SqueezeGap(s[1..]); }
  }

  lemma {:induction false} JoinSplit(current: string, s: string)
    requires Free(IsSpace, current)
    ensures Join(Split(IsSpace, current, s))
         == if current == [] then Squeeze(AtStart, s) else current + Squeeze(InWord, s)
    decreases |s|
  {
    hide IsSpace;
    if s == [] {
    } else if IsSpace(s[0]) {
      JoinSplit([], s[1..]);
      SplitWords(IsSpace, [], s[1..]);
      var rest := Split(IsSpace, [], s[1..]);
      SqueezeGap(s[1..]);
      if current != [] {
        JoinMore(current, rest);
      } else {
        assert Piece(current) + rest == rest;
      }
    } else {
      JoinSplit(current + [s[0]], s[1..]);
      assert current + [s[0]] + Squeeze(InWord, s[1..]) == current + ([s[0]] + Squeeze(InWord, s[1..]));
    }
  }

  lemma JoinMore(word: string, rest: seq<string>)
    requires word != [] && forall i :: 0 <= i < |rest| ==> rest[i] != []
    ensures Join(Piece(word) + rest) == word + if Join(rest) == [] then [] else [' '] + Join(rest)
  {
    var all := Piece(word) + rest;
    assert |all| == |rest| + 1 && all[0] == word && all[1..] == rest;
    if rest != [] {
      assert Join(rest) != [] by {
        assert rest[0] != [];
      }
      assert word + [' '] + Join(rest) == word + ([' '] + Join(rest));
    }
  }

  /** Collapsing is one left-to-right pass. */
  lemma {:induction false} CollapseIsSqueeze(s: string)
    ensures Collapse(s) == Squeeze(AtStart, s)
  {
    JoinSplit([], s);
  }
}
