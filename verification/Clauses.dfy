/**
 Clause splitting and the front move: the only reordering a repaired answer may perform.
 */
module Clauses {
  import opened Sequences
  import opened Text

  predicate IsDelimiter(c: char) {
    || c == '。' || c == '、' || c == '，' || c == ',' || c == '．' || c == '.' || c == '！' || c == '!'
    || c == '？' || c == '?' || c == '；' || c == ';' || c == '\n' || c == '\r'
  }

  predicate IsBreak(c: char) {
    IsSpace(c) || IsDelimiter(c)
  }

  /** What a text says once white space and clause delimiters are taken away. */
  function Core(s: string): string {
    Drop(IsBreak, s)
  }

  /** Each piece collapsed; blank pieces disappear. */
  function Tidy(pieces: seq<string>): seq<string> {
    if pieces == [] then []
    else Piece(Collapse(pieces[0])) + Tidy(pieces[1..])
  }

  function SemanticClauses(value: string): seq<string> {
    Tidy(Split(IsDelimiter, [], Collapse(value)))
  }

  lemma TidyFlush(current: string, rest: seq<string>)
    ensures Tidy(Piece(current) + rest) == Piece(Collapse(current)) + Tidy(rest)
  {
    if current == [] {
      assert Piece(current) + rest == rest;
      assert Collapse(current) == [];
      assert Piece(Collapse(current)) + Tidy(rest) == Tidy(rest);
    } else {
      assert (Piece(current) + rest)[1..] == rest;
    }
  }

  /** The clauses still to come when `current` is the open builder and `text` is unread. */
  function Remaining(current: string, text: string): seq<string> {
    Tidy(Split(IsDelimiter, current, text))
  }

  lemma ReadOne(current: string, text: string)
    ensures text == [] ==> Remaining(current, text) == Piece(Collapse(current))
    ensures text != [] && IsDelimiter(text[0]) ==>
      Remaining(current, text) == Piece(Collapse(current)) + Remaining([], text[1..])
    ensures text != [] && !IsDelimiter(text[0]) ==>
      Remaining(current, text) == Remaining(current + [text[0]], text[1..])
  {
    hide Collapse;
    hide IsDelimiter;
    if text == [] {
      TidyFlush(current, []);
      assert Piece(current) + [] == Piece(current);
    } else {
      TidyFlush(current, Split(IsDelimiter, [], text[1..]));
    }
  }

  /** The source's loop: a builder that is flushed at every delimiter and at the end. */
  method SplitClauses(value: string) returns (result: seq<string>)
    ensures result == SemanticClauses(value)
  {
    var text := Collapse(value);
    var current: string := [];
    result := [];
    assert SemanticClauses(value) == Remaining([], text);
    hide *;
    assert text[0..] == text;
    for i := 0 to |text|
      invariant result + Remaining(current, text[i..]) == SemanticClauses(value)
    {
      var rest := text[i + 1..];
      assert text[i..][0] == text[i] && text[i..][1..] == rest;
      ReadOne(current, text[i..]);
      if IsDelimiter(text[i]) {
        result := Flushed(result, current, Remaining([], rest));
        current := [];
      } else {
        current := current + [text[i]];
      }
    }
    assert text[|text|..] == [];
    ReadOne(current, []);
    assert Piece(Collapse(current)) + [] == Piece(Collapse(current));
    result := Flushed(result, current, []);
    assert result + [] == result;
  }

  /** The flush closure: a blank builder adds no clause. */
  method Flushed(result: seq<string>, current: string, ghost rest: seq<string>) returns (r: seq<string>)
    ensures r + rest == result + (Piece(Collapse(current)) + rest)
  {
    hide Collapse;
    var clause := Collapse(current);
    if clause == [] {
      return result;
    }
    Assemble(result, [clause], rest);
    r := result + [clause];
  }

  // ---------------------------------------------------------------- what splitting keeps

  lemma CollapseKeepsCore(s: string)
    ensures Core(Collapse(s)) == Core(s)
  {
    CollapseKeepsText(s);
    DropTwice(IsSpace, IsBreak, Collapse(s));
    DropTwice(IsSpace, IsBreak, s);
  }

  lemma {:induction false} TidyKeepsCore(pieces: seq<string>)
    ensures Core(Concat(Tidy(pieces))) == Core(Concat(pieces))
    decreases |pieces|
  {
    if pieces != [] {
      hide Collapse;
      hide IsBreak;
      var head, rest := pieces[0], pieces[1..];
      TidyKeepsCore(rest);
      CollapseKeepsCore(head);
      PieceConcat(Collapse(head), Tidy(rest));
      DropConcat(IsBreak, Collapse(head), Concat(Tidy(rest)));
      DropConcat(IsBreak, head, Concat(rest));
    }
  }

  /** Splitting into clauses loses only white space and delimiters, and keeps the order. */
  lemma {:induction false} ClausesKeepCore(value: string)
    ensures Core(Concat(SemanticClauses(value))) == Core(value)
  {
    hide Collapse;
    hide IsDelimiter;
    var text := Collapse(value);
    SplitPieces(IsDelimiter, text);
    TidyKeepsCore(Split(IsDelimiter, [], text));
    CoreIgnoresDelimiters(text);
    CollapseKeepsCore(value);
  }

  lemma CoreIgnoresDelimiters(s: string)
    ensures Core(Drop(IsDelimiter, s)) == Core(s)
  {
    DropTwice(IsDelimiter, IsBreak, s);
  }

  lemma ClausesOfCollapsed(value: string)
    ensures SemanticClauses(Collapse(value)) == SemanticClauses(value)
  {
    CollapseIdempotent(value);
  }

  /** The two newline delimiters can never occur: collapsing has removed them beforehand. */
  lemma NewlinesAreDead(value: string)
    ensures '\n' !in Collapse(value) && '\r' !in Collapse(value)
  {
    CollapsedSpaces(value);
  }

  // ---------------------------------------------------------------- the front move

  predicate OccursAt<T(==)>(s: seq<T>, block: seq<T>, k: int) {
    0 <= k <= |s| - |block| && s[k..k + |block|] == block
  }

  ghost predicate OccursOnlyAt<T>(s: seq<T>, block: seq<T>, k: int) {
    OccursAt(s, block, k) && forall m :: OccursAt(s, block, m) ==> m == k
  }

  /** The block, then everything else in its old order. */
  function Fronted<T>(s: seq<T>, block: seq<T>, k: nat): seq<T>
    requires k + |block| <= |s|
  {
    block + s[..k] + s[k + |block|..]
  }

  ghost predicate FrontMove<T(!new)>(original: seq<T>, rebuilt: seq<T>, block: seq<T>) {
    && original != [] && block != []
    && exists k :: OccursOnlyAt(original, block, k) && rebuilt == Fronted(original, block, k)
  }

  method MatchesAt<T(==)>(s: seq<T>, block: seq<T>, start: nat) returns (matches: bool)
    requires start + |block| <= |s|
    ensures matches <==> OccursAt(s, block, start)
  {
    matches := true;
    for offset := 0 to |block|
      invariant matches && forall j :: 0 <= j < offset ==> s[start + j] == block[j]
    {
      if s[start + offset] != block[offset] {
        assert s[start..start + |block|][offset] == s[start + offset];
        return false;
      }
    }
    assert s[start..start + |block|] == block;
  }

  /** The only place where the block occurs, or -1 when there is none or more than one. */
  method FindOnly<T(==)>(s: seq<T>, block: seq<T>) returns (found: int)
    requires |block| <= |s|
    ensures found >= 0 ==> OccursOnlyAt(s, block, found)
    ensures found < 0 ==> forall k :: !OccursOnlyAt(s, block, k)
  {
    found := -1;
    for start := 0 to |s| - |block| + 1
      invariant found == -1 || (0 <= found < start && OccursAt(s, block, found))
      invariant forall m :: 0 <= m < start && OccursAt(s, block, m) ==> m == found
    {
      var matches := MatchesAt(s, block, start);
      if matches {
        if found >= 0 {
          assert found != start;
          return -1;
        }
        found := start;
      }
    }
  }

  /** Where the clauses of a front move come from. */
  lemma FrontedAt<T>(s: seq<T>, block: seq<T>, k: nat)
    requires k + |block| <= |s|
    ensures |Fronted(s, block, k)| == |s|
    ensures forall i :: 0 <= i < |block| ==> Fronted(s, block, k)[i] == block[i]
    ensures forall i :: 0 <= i < k ==> Fronted(s, block, k)[|block| + i] == s[i]
    ensures forall i :: k + |block| <= i < |s| ==> Fronted(s, block, k)[i] == s[i]
  {
  }

  method StableFrontMove<T(==, !new)>(original: seq<T>, rebuilt: seq<T>, block: seq<T>) returns (ok: bool)
    ensures ok <==> FrontMove(original, rebuilt, block)
  {
    if original == [] || block == [] || |block| > |original| || |original| != |rebuilt| {
      return false;
    }
    var found := FindOnly(original, block);
    if found < 0 {
      return false;
    }
    ok := ComparesFronted(original, rebuilt, block, found);
  }

  /** The closing comparison: the block first, then the other clauses in order. */
  method ComparesFronted<T(==)>(original: seq<T>, rebuilt: seq<T>, block: seq<T>, start: nat) returns (ok: bool)
    requires start + |block| <= |original| == |rebuilt|
    ensures ok <==> rebuilt == Fronted(original, block, start)
  {
    ghost var expected := Fronted(original, block, start);
    FrontedAt(original, block, start);
    hide Fronted;
    for offset := 0 to |block|
      invariant forall i :: 0 <= i < offset ==> rebuilt[i] == expected[i]
    {
      if rebuilt[offset] != block[offset] {
        return false;
      }
    }
    var end := start + |block|;
    var next := |block|;
    for index := 0 to |original|
      invariant next == if index <= start then |block| + index else if index < end then |block| + start else index
      invariant forall i :: 0 <= i < next ==> rebuilt[i] == expected[i]
    {
      if start <= index < end {
        continue;
      }
      assert expected[next] == original[index];
      if rebuilt[next] != original[index] {
        return false;
      }
      next := next + 1;
    }
    ok := true;
  }

  lemma Regroup<T>(x: seq<T>, y: seq<T>, z: seq<T>)
    ensures multiset(x + (y + z)) == multiset(y) + multiset(x + z)
    ensures multiset(y + x + z) == multiset(y) + multiset(x + z)
  {
    assert y + x + z == y + (x + z);
  }

  /** A front move is a permutation of the clauses. */
  lemma FrontMovePermutes<T(!new)>(original: seq<T>, rebuilt: seq<T>, block: seq<T>)
    requires FrontMove(original, rebuilt, block)
    ensures multiset(rebuilt) == multiset(original) && |rebuilt| == |original| && block <= rebuilt
  {
    var k :| OccursOnlyAt(original, block, k) && rebuilt == Fronted(original, block, k);
    FrontedPermutes(original, block, k);
  }

  lemma FrontedPermutes<T>(s: seq<T>, block: seq<T>, k: nat)
    requires OccursAt(s, block, k)
    ensures multiset(Fronted(s, block, k)) == multiset(s) && |Fronted(s, block, k)| == |s|
    ensures block <= Fronted(s, block, k)
  {
    var pre, post := s[..k], s[k + |block|..];
    CutOut(s, block, k);
    assert Fronted(s, block, k) == block + pre + post;
    hide Fronted;
    hide OccursAt;
    Regroup(pre, block, post);
    Assemble(block, pre, post);
    assert |s| == |pre| + (|block| + |post|);
  }

  lemma CutOut<T>(s: seq<T>, block: seq<T>, k: nat)
    requires OccursAt(s, block, k)
    ensures s == s[..k] + (block + s[k + |block|..])
  {
  }

  /** The answer and its commitment determine the only front move there is. */
  lemma FrontMoveUnique<T(!new)>(original: seq<T>, rebuilt: seq<T>, rebuilt': seq<T>, block: seq<T>)
    requires FrontMove(original, rebuilt, block) && FrontMove(original, rebuilt', block)
    ensures rebuilt == rebuilt'
  {
    var k :| OccursOnlyAt(original, block, k) && rebuilt == Fronted(original, block, k);
    var k' :| OccursOnlyAt(original, block, k') && rebuilt' == Fronted(original, block, k');
    assert k == k';
  }

  /** A copy clear of the moved block and of the gap it left was in the original, too. */
  lemma CopyWasThere<T>(original: seq<T>, block: seq<T>, k: nat, m: nat)
    requires k + |block| <= |original| && OccursAt(Fronted(original, block, k), block, m)
    ensures var n := |block|;
      || m < n || k < m < k + n
      || (m <= k && OccursAt(original, block, m - n)) || (m >= k + n && OccursAt(original, block, m))
  {
    var n, rebuilt := |block|, Fronted(original, block, k);
    if n <= m <= k {
      assert rebuilt[m..m + n] == original[m - n..m];
    } else if m >= k + n {
      assert rebuilt[m..m + n] == original[m..m + n];
    }
  }

  /**
   Repeating the move on its own result succeeds exactly when no copy of the block straddles the
   seam behind the moved block or the gap it left: no other copy can exist.
   */
  lemma RepeatedMoveIff<T(!new)>(original: seq<T>, rebuilt: seq<T>, block: seq<T>, k: nat)
    requires block != [] && OccursOnlyAt(original, block, k) && rebuilt == Fronted(original, block, k)
    ensures FrontMove(rebuilt, rebuilt, block)
       <==> forall m :: 0 < m < |block| || k < m < k + |block| ==> !OccursAt(rebuilt, block, m)
  {
    var n := |block|;
    assert OccursAt(rebuilt, block, 0);
    forall m | OccursAt(rebuilt, block, m) ensures m == 0 || 0 < m < n || k < m < k + n {
      CopyWasThere(original, block, k, m);
    }
    if forall m :: 0 < m < n || k < m < k + n ==> !OccursAt(rebuilt, block, m) {
      assert OccursOnlyAt(rebuilt, block, 0);
      assert rebuilt == Fronted(rebuilt, block, 0);
    } else {
      var m :| (0 < m < n || k < m < k + n) && OccursAt(rebuilt, block, m);
      assert forall j :: OccursOnlyAt(rebuilt, block, j) ==> j == 0 && j == m;
    }
  }

  /** For a commitment of one clause the move can always be repeated. */
  lemma OneClauseMoveRepeats<T(!new)>(original: seq<T>, rebuilt: seq<T>, clause: T)
    requires FrontMove(original, rebuilt, [clause])
    ensures FrontMove(rebuilt, rebuilt, [clause])
  {
    var k :| OccursOnlyAt(original, [clause], k) && rebuilt == Fronted(original, [clause], k);
    RepeatedMoveIff(original, rebuilt, [clause], k);
  }

  /** For two clauses it need not be: moving [a, a] in [a, b, a, a] leaves two copies. */
  lemma TwoClauseMoveNeedNotRepeat<T(!new)>(a: T, b: T)
    requires a != b
    ensures FrontMove([a, b, a, a], [a, a, a, b], [a, a])
    ensures !FrontMove([a, a, a, b], [a, a, a, b], [a, a])
  {
    var original, rebuilt, block := [a, b, a, a], [a, a, a, b], [a, a];
    assert OccursAt(original, block, 2);
    assert forall m :: OccursAt(original, block, m) ==> original[m..m + 2][0] == a && original[m..m + 2][1] == a;
    assert OccursOnlyAt(original, block, 2);
    assert rebuilt == Fronted(original, block, 2);
    assert OccursAt(rebuilt, block, 0) && OccursAt(rebuilt, block, 1);
  }

  // ---------------------------------------------------------------- back to texts

  lemma CoreParts(a: seq<string>, k: nat) returns (x: string, z: string)
    requires k < |a|
    ensures Core(Concat(a)) == x + (Core(a[k]) + z) && Core(Concat(Without(a, k))) == x + z
  {
    var pre, post := a[..k], a[k + 1..];
    ConcatOne(a[k]);
    hide Core;
    hide Concat;
    assert a == pre + ([a[k]] + post);
    CoreOfConcat(pre, [a[k]] + post);
    CoreOfConcat([a[k]], post);
    CoreOfConcat(pre, post);
    x, z := Core(Concat(pre)), Core(Concat(post));
  }

  lemma CoreWithout(a: seq<string>, k: nat)
    requires k < |a|
    ensures multiset(Core(Concat(a))) == multiset(Core(a[k])) + multiset(Core(Concat(Without(a, k))))
  {
    hide Core;
    hide Concat;
    hide Without;
    var x, z := CoreParts(a, k);
    Regroup(x, Core(a[k]), z);
  }

  lemma ConcatOne(s: string)
    ensures Concat([s]) == s
  {
    assert [s][1..] == [];
    assert s + [] == s;
  }

  lemma {:induction false} ConcatPermuted(a: seq<string>, b: seq<string>)
    requires multiset(a) == multiset(b)
    ensures multiset(Core(Concat(a))) == multiset(Core(Concat(b)))
    decreases |a|
  {
    if a == [] {
      assert |multiset(b)| == 0;
    } else {
      hide Core;
      hide Concat;
      var k := Matched(a, b);
      ConcatPermuted(Without(a, 0), Without(b, k));
      CoreWithout(a, 0);
      CoreWithout(b, k);
    }
  }

  lemma CoreOfConcat(a: seq<string>, b: seq<string>)
    ensures Core(Concat(a + b)) == Core(Concat(a)) + Core(Concat(b))
  {
    ConcatAppend(a, b);
    DropConcat(IsBreak, Concat(a), Concat(b));
  }

  /** A front move of whole clauses neither adds nor loses a single word character. */
  lemma {:induction false} FrontMoveKeepsCharacters(original: string, rebuilt: string, commitment: string)
    requires FrontMove(SemanticClauses(original), SemanticClauses(rebuilt), SemanticClauses(commitment))
    ensures multiset(Core(rebuilt)) == multiset(Core(original))
  {
    hide Core;
    hide SemanticClauses;
    FrontMovePermutes(SemanticClauses(original), SemanticClauses(rebuilt), SemanticClauses(commitment));
    ConcatPermuted(SemanticClauses(original), SemanticClauses(rebuilt));
    ClausesKeepCore(original);
    ClausesKeepCore(rebuilt);
  }
}
