/**
 The character edit distance behind the recognition error rates.

 `Compute` is the single-row, in-place dynamic program.  Its specification does not mention a
 table: a distance is the length of a shortest chain of single edits (one insertion, deletion
 or substitution each) that turns one text into the other.
 */
module EditDistance {

  // ---------------------------------------------------------------- what a distance means

  /** `t` is `s` with the block `x` of at most one symbol replaced by another such block `y`. */
  ghost predicate EditAt<T>(s: seq<T>, t: seq<T>, pre: seq<T>, x: seq<T>, y: seq<T>, post: seq<T>) {
    s == pre + x + post && t == pre + y + post && |x| <= 1 && |y| <= 1 && x != y
  }

  /** One insertion, deletion or substitution turns `s` into `t`. */
  ghost predicate OneEdit<T(!new)>(s: seq<T>, t: seq<T>) {
    exists pre, x, y, post :: EditAt(s, t, pre, x, y, post)
  }

  /** Some chain of exactly `n` single edits turns `s` into `t`. */
  ghost predicate Reaches<T(!new)>(s: seq<T>, t: seq<T>, n: nat)
    decreases n
  {
    if n == 0 then s == t else exists m :: OneEdit(s, m) && Reaches(m, t, n - 1)
  }

  /** `n` is the length of a shortest chain of single edits from `s` to `t`. */
  ghost predicate IsDistance<T(!new)>(s: seq<T>, t: seq<T>, n: nat) {
    Reaches(s, t, n) && forall k: nat :: Reaches(s, t, k) ==> n <= k
  }

  // ---------------------------------------------------------------- the recurrence

  function Min3(x: int, y: int, z: int): int {
    if x <= y && x <= z then x else if y <= z then y else z
  }

  /** The table entry for prefixes `a` and `b`. */
  function Lev<T(==)>(a: seq<T>, b: seq<T>): nat
    decreases |a| + |b|
  {
    if a == [] then |b|
    else if b == [] then |a|
    else
      var a', b' := a[..|a| - 1], b[..|b| - 1];
      var cost := if a[|a| - 1] != b[|b| - 1] then 1 else 0;
      Min3(Lev(a', b) + 1, Lev(a, b') + 1, Lev(a', b') + cost)
  }

  // ---------------------------------------------------------------- no chain beats the table

  lemma {:induction false} LevSelf<T>(a: seq<T>)
    ensures Lev(a, a) == 0
  {
    if a != [] { LevSelf(a[..|a| - 1]); }
  }

  lemma Unfold<T>(a: seq<T>, x: T, b: seq<T>, y: T)
    ensures Lev(a + [x], b + [y])
         == Min3(Lev(a, b + [y]) + 1, Lev(a + [x], b) + 1, Lev(a, b) + if x != y then 1 else 0)
  {
    assert (a + [x])[..|a|] == a && (b + [y])[..|b|] == b;
  }

  /** One more symbol on either side costs at most one. */
  lemma GrowLeft<T>(a: seq<T>, x: T, b: seq<T>)
    ensures Lev(a + [x], b) <= Lev(a, b) + 1
  {
    if b != [] {
      assert b == b[..|b| - 1] + [b[|b| - 1]];
      Unfold(a, x, b[..|b| - 1], b[|b| - 1]);
    }
  }

  lemma GrowRight<T>(a: seq<T>, b: seq<T>, y: T)
    ensures Lev(a, b + [y]) <= Lev(a, b) + 1
  {
    if a != [] {
      assert a == a[..|a| - 1] + [a[|a| - 1]];
      Unfold(a[..|a| - 1], a[|a| - 1], b, y);
    }
  }

  /** Replacing the last symbol, or dropping it, moves the table entry by at most one. */
  lemma {:induction false} EndReplaced<T>(p: seq<T>, x: T, y: T, b: seq<T>)
    ensures Lev(p + [x], b) <= Lev(p + [y], b) + 1
    decreases |b|
  {
    if b != [] {
      var b', e := b[..|b| - 1], b[|b| - 1];
      assert b == b' + [e];
      EndReplaced(p, x, y, b');
      Unfold(p, x, b', e);
      Unfold(p, y, b', e);
    }
  }

  lemma {:induction false} EndDropped<T>(p: seq<T>, y: T, b: seq<T>)
    ensures Lev(p, b) <= Lev(p + [y], b) + 1
    decreases |b|
  {
    if b != [] {
      var b', e := b[..|b| - 1], b[|b| - 1];
      assert b == b' + [e];
      EndDropped(p, y, b');
      Unfold(p, y, b', e);
      GrowRight(p, b', e);
    }
  }

  lemma EndEdit<T>(p: seq<T>, x: seq<T>, y: seq<T>, b: seq<T>)
    requires |x| <= 1 && |y| <= 1
    ensures Lev(p + x, b) <= Lev(p + y, b) + 1
  {
    if x == [] { assert p + x == p; } else { assert x == [x[0]]; }
    if y == [] { assert p + y == p; } else { assert y == [y[0]]; }
    if |x| == |y| == 1 {
      EndReplaced(p, x[0], y[0], b);
    } else if |x| == 1 {
      GrowLeft(p, x[0], b);
    } else if |y| == 1 {
      EndDropped(p, y[0], b);
    }
  }

  lemma CommonEnd<T>(u: seq<T>, v: seq<T>, c: T, b: seq<T>, e: T)
    requires Lev(u, b) <= Lev(v, b) + 1
    requires Lev(u, b + [e]) <= Lev(v, b + [e]) + 1
    requires Lev(u + [c], b) <= Lev(v + [c], b) + 1
    ensures Lev(u + [c], b + [e]) <= Lev(v + [c], b + [e]) + 1
  {
    hide Lev;
    Unfold(u, c, b, e);
    Unfold(v, c, b, e);
  }

  /** One edit anywhere moves the table entry by at most one. */
  lemma {:induction false} InnerEdit<T>(p: seq<T>, x: seq<T>, y: seq<T>, s: seq<T>, b: seq<T>)
    requires |x| <= 1 && |y| <= 1
    ensures Lev(p + x + s, b) <= Lev(p + y + s, b) + 1
    decreases |s| + |b|
  {
    if s == [] {
      assert p + x + s == p + x && p + y + s == p + y;
      EndEdit(p, x, y, b);
    } else if b != [] {
      var s', c := s[..|s| - 1], s[|s| - 1];
      var b', e := b[..|b| - 1], b[|b| - 1];
      var u, v := p + x + s', p + y + s';
      assert p + x + s == u + [c];
      assert p + y + s == v + [c];
      assert b == b' + [e];
      InnerEdit(p, x, y, s', b);
      InnerEdit(p, x, y, s, b');
      InnerEdit(p, x, y, s', b');
      CommonEnd(u, v, c, b', e);
    }
  }

  lemma {:induction false} ChainNotShorter<T(!new)>(s: seq<T>, t: seq<T>, n: nat)
    requires Reaches(s, t, n)
    ensures Lev(s, t) <= n
    decreases n
  {
    if n == 0 {
      LevSelf(s);
    } else {
      var m :| OneEdit(s, m) && Reaches(m, t, n - 1);
      var pre, x, y, post :| EditAt(s, m, pre, x, y, post);
      InnerEdit(pre, x, y, post, t);
      ChainNotShorter(m, t, n - 1);
    }
  }

  // ---------------------------------------------------------------- the table is reached

  lemma EditIsStep<T(!new)>(s: seq<T>, t: seq<T>, pre: seq<T>, x: seq<T>, y: seq<T>, post: seq<T>)
    requires EditAt(s, t, pre, x, y, post)
    ensures OneEdit(s, t) && OneEdit(t, s) && Reaches(s, t, 1)
  {
    assert EditAt(t, s, pre, y, x, post);
    assert Reaches(t, t, 0);
  }

  lemma {:induction false} ChainsCompose<T(!new)>(s: seq<T>, m: seq<T>, t: seq<T>, i: nat, j: nat)
    requires Reaches(s, m, i) && Reaches(m, t, j)
    ensures Reaches(s, t, i + j)
    decreases i
  {
    if i != 0 {
      var q :| OneEdit(s, q) && Reaches(q, m, i - 1);
      ChainsCompose(q, m, t, i - 1, j);
    }
  }

  /** A chain still works when both ends grow by the same last symbol. */
  lemma {:induction false} ChainUnderSuffix<T(!new)>(s: seq<T>, t: seq<T>, c: seq<T>, n: nat)
    requires Reaches(s, t, n)
    ensures Reaches(s + c, t + c, n)
    decreases n
  {
    if n != 0 {
      var m :| OneEdit(s, m) && Reaches(m, t, n - 1);
      var pre, x, y, post :| EditAt(s, m, pre, x, y, post);
      assert EditAt(s + c, m + c, pre, x, y, post + c);
      assert OneEdit(s + c, m + c);
      ChainUnderSuffix(m, t, c, n - 1);
    }
  }

  lemma {:induction false} TableIsReached<T(!new)>(a: seq<T>, b: seq<T>)
    ensures Reaches(a, b, Lev(a, b))
    decreases |a| + |b|
  {
    if a == [] && b == [] {
    } else if a == [] {
      AppendLast([], b);
    } else if b == [] {
      DropLast(a, []);
    } else {
      var a', b' := a[..|a| - 1], b[..|b| - 1];
      if Lev(a, b) == Lev(a', b) + 1 {
        DropLast(a, b);
      } else if Lev(a, b) == Lev(a, b') + 1 {
        AppendLast(a, b);
      } else {
        ReplaceLast(a, b);
      }
    }
  }

  lemma {:induction false} ReplaceLast<T(!new)>(a: seq<T>, b: seq<T>)
    requires a != [] && b != []
    ensures Reaches(a, b, Lev(a[..|a| - 1], b[..|b| - 1]) + if a[|a| - 1] != b[|b| - 1] then 1 else 0)
    decreases |a| + |b|, 0
  {
    var a', b' := a[..|a| - 1], b[..|b| - 1];
    var x, y := a[|a| - 1], b[|b| - 1];
    assert a == a' + [x] && b == b' + [y];
    var n := Lev(a', b');
    TableIsReached(a', b');
    SameOrReplaced(a', b', x, y, n);
  }

  lemma SameOrReplaced<T(!new)>(a: seq<T>, b: seq<T>, x: T, y: T, n: nat)
    requires Reaches(a, b, n)
    ensures Reaches(a + [x], b + [y], n + if x != y then 1 else 0)
  {
    ChainUnderSuffix(a, b, [x], n);
    if x != y {
      assert EditAt(b + [x], b + [y], b, [x], [y], []);
      EditIsStep(b + [x], b + [y], b, [x], [y], []);
      ChainsCompose(a + [x], b + [x], b + [y], n, 1);
    }
  }

  lemma {:induction false} DropLast<T(!new)>(a: seq<T>, b: seq<T>)
    requires a != []
    ensures Reaches(a, b, 1 + Lev(a[..|a| - 1], b))
    decreases |a| + |b|, 0
  {
    var a' := a[..|a| - 1];
    TableIsReached(a', b);
    assert EditAt(a, a', a', a[|a| - 1..], [], []);
    EditIsStep(a, a', a', a[|a| - 1..], [], []);
  }

  lemma {:induction false} AppendLast<T(!new)>(a: seq<T>, b: seq<T>)
    requires b != []
    ensures Reaches(a, b, 1 + Lev(a, b[..|b| - 1]))
    decreases |a| + |b|, 0
  {
    var b' := b[..|b| - 1];
    TableIsReached(a, b');
    assert EditAt(b', b, b', [], b[|b| - 1..], []);
    EditIsStep(b', b, b', [], b[|b| - 1..], []);
    ChainsCompose(a, b', b, Lev(a, b'), 1);
  }

  /** The recurrence is the length of a shortest edit chain, for every pair of texts. */
  lemma {:induction false} LevIsDistance<T(!new)>(a: seq<T>, b: seq<T>)
    ensures IsDistance(a, b, Lev(a, b))
  {
    TableIsReached(a, b);
    forall k: nat | Reaches(a, b, k) ensures Lev(a, b) <= k {
      ChainNotShorter(a, b, k);
    }
  }

  // ---------------------------------------------------------------- the in-place loop

  lemma Edge<T>(left: seq<T>, right: seq<T>, k: nat)
    ensures k <= |right| ==> Lev(left[..0], right[..k]) == k
    ensures k <= |left| ==> Lev(left[..k], right[..0]) == k
  {
  }

  lemma Cell<T>(left: seq<T>, right: seq<T>, i: nat, j: nat)
    requires i < |left| && j < |right|
    ensures Lev(left[..i + 1], right[..j + 1])
         == Min3(Lev(left[..i], right[..j + 1]) + 1, Lev(left[..i + 1], right[..j]) + 1,
                 Lev(left[..i], right[..j]) + if left[i] != right[j] then 1 else 0)
  {
    hide Lev;
    assert left[..i + 1] == left[..i] + [left[i]] && right[..j + 1] == right[..j] + [right[j]];
    Unfold(left[..i], left[i], right[..j], right[j]);
  }

  /** The single row is overwritten left to right; `previous` keeps the diagonal entry. */
  method Compute<T(==, !new)>(left: seq<T>, right: seq<T>) returns (distance: nat)
    ensures distance == Lev(left, right) && IsDistance(left, right, distance)
  {
    hide Lev;
    hide IsDistance;
    var n := |right|;
    var row := new int[n + 1];
    for index := 0 to n + 1
      invariant forall k :: 0 <= k < index ==> row[k] == Lev(left[..0], right[..k])
    {
      Edge(left, right, index);
      row[index] := index;
    }
    for i := 0 to |left|
      invariant forall k :: 0 <= k <= n ==> row[k] == Lev(left[..i], right[..k])
    {
      Edge(left, right, i + 1);
      var previous := row[0];
      row[0] := i + 1;
      for j := 0 to n
        invariant previous == Lev(left[..i], right[..j])
        invariant forall k :: 0 <= k <= j ==> row[k] == Lev(left[..i + 1], right[..k])
        invariant forall k :: j < k <= n ==> row[k] == Lev(left[..i], right[..k])
      {
        var above := row[j + 1];
        var cost := if left[i] != right[j] then 1 else 0;
        Cell(left, right, i, j);
        row[j + 1] := Min3(row[j + 1] + 1, row[j] + 1, previous + cost);
        previous := above;
      }
    }
    assert left[..|left|] == left && right[..n] == right;
    LevIsDistance(left, right);
    distance := row[n];
  }

  // ---------------------------------------------------------------- a metric on texts

  lemma {:induction false} ChainReversed<T(!new)>(s: seq<T>, t: seq<T>, n: nat)
    requires Reaches(s, t, n)
    ensures Reaches(t, s, n)
    decreases n
  {
    if n != 0 {
      var m :| OneEdit(s, m) && Reaches(m, t, n - 1);
      var pre, x, y, post :| EditAt(s, m, pre, x, y, post);
      EditIsStep(s, m, pre, x, y, post);
      ChainReversed(m, t, n - 1);
      assert Reaches(m, s, 1) by { assert Reaches(s, s, 0); }
      ChainsCompose(t, m, s, n - 1, 1);
    }
  }

  lemma {:induction false} Symmetric<T(!new)>(a: seq<T>, b: seq<T>)
    ensures Lev(a, b) == Lev(b, a)
  {
    TableIsReached(a, b);
    ChainReversed(a, b, Lev(a, b));
    ChainNotShorter(b, a, Lev(a, b));
    TableIsReached(b, a);
    ChainReversed(b, a, Lev(b, a));
    ChainNotShorter(a, b, Lev(b, a));
  }

  lemma {:induction false} Triangle<T(!new)>(a: seq<T>, b: seq<T>, c: seq<T>)
    ensures Lev(a, c) <= Lev(a, b) + Lev(b, c)
  {
    TableIsReached(a, b);
    TableIsReached(b, c);
    ChainsCompose(a, b, c, Lev(a, b), Lev(b, c));
    ChainNotShorter(a, c, Lev(a, b) + Lev(b, c));
  }

  lemma {:induction false} ZeroExactlyOnEqual<T(!new)>(a: seq<T>, b: seq<T>)
    ensures Lev(a, b) == 0 <==> a == b
  {
    TableIsReached(a, b);
    LevSelf(a);
  }

  /** The distance lies between the length difference and the longer length. */
  lemma {:induction false} LengthBounds<T>(a: seq<T>, b: seq<T>)
    ensures |a| - |b| <= Lev(a, b) && |b| - |a| <= Lev(a, b)
    ensures Lev(a, b) <= if |a| <= |b| then |b| else |a|
    decreases |a| + |b|
  {
    if a != [] && b != [] {
      LengthBounds(a[..|a| - 1], b);
      LengthBounds(a, b[..|b| - 1]);
      LengthBounds(a[..|a| - 1], b[..|b| - 1]);
    }
  }
}
