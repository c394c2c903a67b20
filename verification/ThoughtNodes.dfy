/**
 The bounded list of thought nodes: merging removes, appends and truncates in place, and keeps the
 three most recent distinct nodes.
 */
module ThoughtNodes {
  import opened Common
  import opened Sequences
  import opened Text

  const MAX_NODES := 3
  const MAX_NODE_RUNES := 100

  /** The collapsed nodes that survive the filter, in order. */
  function Surviving(values: seq<string>, drop: string -> bool): seq<string> {
    if values == [] then []
    else
      var v := Collapse(values[|values| - 1]);
      Surviving(values[..|values| - 1], drop) + if v == "" || drop(v) then [] else [v]
  }

  /** Each distinct value once, at the place of its last occurrence. */
  function ByLastOccurrence(values: seq<string>): seq<string> {
    if values == [] then []
    else if values[0] in values[1..] then ByLastOccurrence(values[1..])
    else [values[0]] + ByLastOccurrence(values[1..])
  }

  function LastFew(s: seq<string>): seq<string> {
    if |s| <= MAX_NODES then s else s[|s| - MAX_NODES..]
  }

  /** The bounded list of the most recent distinct survivors. */
  function Merged(current: seq<string>, additions: seq<string>, drop: string -> bool): seq<string> {
    LastFew(ByLastOccurrence(Surviving(current + additions, drop)))
  }

  /** Everything except one value. */
  function Except(s: seq<string>, v: string): seq<string> {
    if s == [] then [] else if s[0] == v then Except(s[1..], v) else [s[0]] + Except(s[1..], v)
  }

  lemma {:induction false} ExceptMembers(s: seq<string>, v: string)
    ensures forall x :: x in Except(s, v) <==> x in s && x != v
    ensures v !in s ==> Except(s, v) == s
    decreases |s|
  {
    if s != [] {
      ExceptMembers(s[1..], v);
      assert s == [s[0]] + s[1..];
    }
  }

  lemma {:induction false} ExceptConcat(a: seq<string>, b: seq<string>, v: string)
    ensures Except(a + b, v) == Except(a, v) + Except(b, v)
    decreases |a|
  {
    if a == [] {
      assert a + b == b;
    } else {
      assert (a + b)[1..] == a[1..] + b;
      ExceptConcat(a[1..], b, v);
    }
  }

  /** One more value: an earlier copy disappears and the value goes last. */
  lemma {:induction false} OneMore(values: seq<string>, v: string)
    ensures ByLastOccurrence(values + [v]) == Except(ByLastOccurrence(values), v) + [v]
    decreases |values|
  {
    if values == [] {
      assert values + [v] == [v];
      assert [v][1..] == [];
    } else {
      var rest := values[1..];
      OneMore(rest, v);
      assert (values + [v])[1..] == rest + [v] && (values + [v])[0] == values[0];
      if values[0] !in rest && values[0] != v {
        assert ([values[0]] + ByLastOccurrence(rest))[1..] == ByLastOccurrence(rest);
      } else if values[0] !in rest {
        assert ([values[0]] + ByLastOccurrence(rest))[1..] == ByLastOccurrence(rest);
      }
    }
  }

  lemma {:induction false} ByLastIsDistinct(values: seq<string>)
    ensures Distinct(ByLastOccurrence(values))
    ensures forall x :: x in ByLastOccurrence(values) <==> x in values
    decreases |values|
  {
    if values != [] {
      ByLastIsDistinct(values[1..]);
      assert values == [values[0]] + values[1..];
    }
  }

  /** Truncating early is harmless: what was cut off can never come back among the last few. */
  lemma TruncationCommutes(all: seq<string>, v: string)
    requires Distinct(all)
    ensures LastFew(Except(LastFew(all), v) + [v]) == LastFew(Except(all, v) + [v])
  {
    if |all| > MAX_NODES {
      var cut := |all| - MAX_NODES;
      var gone, few := all[..cut], all[cut..];
      assert LastFew(all) == few && all == gone + few;
      hide Except;
      ExceptConcat(gone, few, v);
      ExceptShorter(few, v);
      var tail := Except(few, v) + [v];
      assert Except(all, v) + [v] == Except(gone, v) + tail;
      LastFewSuffix(Except(gone, v), tail);
    }
  }

  lemma LastFewSuffix(a: seq<string>, b: seq<string>)
    requires |b| >= MAX_NODES
    ensures LastFew(a + b) == LastFew(b)
  {
  }

  lemma {:induction false} ExceptShorter(s: seq<string>, v: string)
    requires Distinct(s)
    ensures |Except(s, v)| == |s| - if v in s then 1 else 0
    decreases |s|
  {
    if s != [] {
      assert Distinct(s[1..]);
      ExceptShorter(s[1..], v);
      assert s == [s[0]] + s[1..];
    }
  }

  /** Deleting the one copy of a value from a list without duplicates. */
  lemma {:induction false} DeleteIsExcept(s: seq<string>, v: string, k: nat)
    requires Distinct(s) && k < |s| && s[k] == v
    ensures Except(s, v) == s[..k] + s[k + 1..]
    decreases |s|
  {
    if k == 0 {
      assert v !in s[1..];
      ExceptMembers(s[1..], v);
      assert s[..0] + s[1..] == s[1..];
    } else {
      assert Distinct(s[1..]);
      DeleteIsExcept(s[1..], v, k - 1);
      assert s[..k] + s[k + 1..] == [s[0]] + (s[1..][..k - 1] + s[1..][k..]);
    }
  }

  lemma LastFewDistinct(s: seq<string>)
    requires Distinct(s)
    ensures Distinct(LastFew(s))
  {
  }

  /** The source's loop: skip, delete the earlier copy, append, truncate. */
  method MergeNodes(current: seq<string>, additions: seq<string>, drop: string -> bool) returns (result: seq<string>)
    ensures result == Merged(current, additions, drop)
  {
    var values := current + additions;
    result := [];
    hide Collapse;
    for i := 0 to |values|
      invariant result == LastFew(ByLastOccurrence(Surviving(values[..i], drop)))
    {
      ghost var kept := Surviving(values[..i], drop);
      ghost var all := ByLastOccurrence(kept);
      var value := Collapse(values[i]);
      SurvivingOneMore(values, i, drop);
      if value == "" || drop(value) {
        continue;
      }
      OneMore(kept, value);
      ByLastIsDistinct(kept);
      LastFewDistinct(all);
      TruncationCommutes(all, value);
      hide ByLastOccurrence;
      hide Surviving;
      result := DeleteFirst(result, value);
      result := result + [value];
      if |result| > MAX_NODES {
        result := result[|result| - MAX_NODES..];
      }
    }
    assert values[..|values|] == values;
  }

  lemma SurvivingOneMore(values: seq<string>, i: nat, drop: string -> bool)
    requires i < |values|
    ensures var v := Collapse(values[i]);
      Surviving(values[..i + 1], drop)
      == if v == "" || drop(v) then Surviving(values[..i], drop) else Surviving(values[..i], drop) + [v]
  {
    hide Collapse;
    assert values[..i + 1][..i] == values[..i];
  }

  method DeleteFirst(s: seq<string>, v: string) returns (r: seq<string>)
    requires Distinct(s)
    ensures r == Except(s, v)
  {
    for index := 0 to |s|
      invariant v !in s[..index]
    {
      if s[index] == v {
        DeleteIsExcept(s, v, index);
        return s[..index] + s[index + 1..];
      }
    }
    assert s[..|s|] == s;
    ExceptMembers(s, v);
    r := s;
  }

  // ---------------------------------------------------------------- consequences

  lemma {:induction false} SurvivorsAreNodes(values: seq<string>, drop: string -> bool)
    ensures forall x :: x in Surviving(values, drop) ==> x != "" && !drop(x) && Collapse(x) == x
    ensures forall x :: x in Surviving(values, drop) ==> exists i :: 0 <= i < |values| && x == Collapse(values[i])
    decreases |values|
  {
    if values != [] {
      hide Collapse;
      var n := |values| - 1;
      SurvivorsAreNodes(values[..n], drop);
      CollapseIdempotent(values[n]);
      forall x | x in Surviving(values, drop) ensures exists i :: 0 <= i < |values| && x == Collapse(values[i]) {
        if x in Surviving(values[..n], drop) {
          var i :| 0 <= i < n && x == Collapse(values[..n][i]);
          assert x == Collapse(values[i]);
        } else {
          assert x == Collapse(values[n]);
        }
      }
    }
  }

  lemma {:induction false} SurvivingOfNodes(values: seq<string>, drop: string -> bool)
    requires forall x :: x in values ==> x != "" && !drop(x) && Collapse(x) == x
    ensures Surviving(values, drop) == values
    decreases |values|
  {
    if values != [] {
      hide Collapse;
      var n := |values| - 1;
      assert values == values[..n] + [values[n]];
      assert forall x :: x in values[..n] ==> x in values;
      SurvivingOfNodes(values[..n], drop);
    }
  }

  lemma {:induction false} ByLastOfDistinct(values: seq<string>)
    requires Distinct(values)
    ensures ByLastOccurrence(values) == values
    decreases |values|
  {
    if values != [] {
      assert Distinct(values[1..]);
      ByLastOfDistinct(values[1..]);
      assert values == [values[0]] + values[1..];
    }
  }

  /** At most three nodes, distinct, collapsed, not filtered, each one of the inputs' nodes. */
  lemma {:induction false} MergedShape(current: seq<string>, additions: seq<string>, drop: string -> bool)
    ensures var r := Merged(current, additions, drop);
      && |r| <= MAX_NODES && Distinct(r)
      && (forall x :: x in r ==> x != "" && !drop(x) && Collapse(x) == x)
      && (forall x :: x in r ==> exists i :: 0 <= i < |current + additions| && x == Collapse((current + additions)[i]))
  {
    var kept := Surviving(current + additions, drop);
    SurvivorsAreNodes(current + additions, drop);
    ByLastIsDistinct(kept);
    hide Collapse;
    hide Surviving;
    var all := ByLastOccurrence(kept);
    LastFewDistinct(all);
    assert forall x :: x in LastFew(all) ==> x in all;
  }

  /** Merging a merged list with nothing new changes nothing. */
  lemma {:induction false} MergeIdempotent(current: seq<string>, additions: seq<string>, drop: string -> bool)
    ensures Merged(Merged(current, additions, drop), [], drop) == Merged(current, additions, drop)
  {
    var r := Merged(current, additions, drop);
    MergedShape(current, additions, drop);
    hide Collapse;
    assert r + [] == r;
    SurvivingOfNodes(r, drop);
    ByLastOfDistinct(r);
  }

  // ---------------------------------------------------------------- the graph-node limits

  /** Each distinct collapsed node once, at the place of its first occurrence. */
  function FirstOccurrences(nodes: seq<string>): seq<string> {
    if nodes == [] then []
    else
      var n := |nodes| - 1;
      var before, v := FirstOccurrences(nodes[..n]), Collapse(nodes[n]);
      if v in before then before else before + [v]
  }

  lemma {:induction false} FirstOfDistinct(nodes: seq<string>)
    requires Distinct(nodes) && forall x :: x in nodes ==> Collapse(x) == x
    ensures FirstOccurrences(nodes) == nodes
    decreases |nodes|
  {
    if nodes != [] {
      hide Collapse;
      var n := |nodes| - 1;
      assert nodes == nodes[..n] + [nodes[n]];
      assert forall x :: x in nodes[..n] ==> x in nodes;
      FirstOfDistinct(nodes[..n]);
      assert nodes[n] !in nodes[..n];
    }
  }

  lemma {:induction false} FirstAreDistinct(nodes: seq<string>)
    ensures var r := FirstOccurrences(nodes);
      && |r| <= |nodes| && Distinct(r)
      && (forall x :: x in r ==> Collapse(x) == x && exists i :: 0 <= i < |nodes| && x == Collapse(nodes[i]))
    decreases |nodes|
  {
    if nodes != [] {
      hide Collapse;
      var n := |nodes| - 1;
      FirstAreDistinct(nodes[..n]);
      CollapseIdempotent(nodes[n]);
      forall x | x in FirstOccurrences(nodes) ensures exists i :: 0 <= i < |nodes| && x == Collapse(nodes[i]) {
        if x in FirstOccurrences(nodes[..n]) {
          var i :| 0 <= i < n && x == Collapse(nodes[..n][i]);
          assert x == Collapse(nodes[i]);
        } else {
          assert x == Collapse(nodes[n]);
        }
      }
    }
  }

  /** A normalized list is accepted again, unchanged. */
  lemma {:induction false} NormalizedNodesStay(nodes: seq<string>)
    requires NodesInLimits(nodes)
    ensures NodesInLimits(FirstOccurrences(nodes))
    ensures FirstOccurrences(FirstOccurrences(nodes)) == FirstOccurrences(nodes)
  {
    FirstAreDistinct(nodes);
    FirstOfDistinct(FirstOccurrences(nodes));
    hide Collapse;
    hide FirstOccurrences;
    var r := FirstOccurrences(nodes);
    forall k | 0 <= k < |r| ensures Collapse(r[k]) != "" && |Collapse(r[k])| <= MAX_NODE_RUNES {
      assert r[k] in r;
    }
  }

  /** The reader's validation of a stored list, as a loop with a set of nodes already seen. */
  method NormalizeNodes(nodes: seq<string>) returns (r: Option<seq<string>>)
    ensures r.Some? <==> NodesInLimits(nodes)
    ensures r.Some? ==> r.value == FirstOccurrences(nodes)
  {
    hide Collapse;
    if |nodes| > MAX_NODES {
      return None;
    }
    var result: seq<string> := [];
    var seen: set<string> := {};
    for i := 0 to |nodes|
      invariant forall j :: 0 <= j < i ==> Collapse(nodes[j]) != "" && |Collapse(nodes[j])| <= MAX_NODE_RUNES
      invariant result == FirstOccurrences(nodes[..i]) && seen == set x | x in result
    {
      assert nodes[..i + 1][..i] == nodes[..i];
      var node := Collapse(nodes[i]);
      if node == "" || |node| > MAX_NODE_RUNES {
        return None;
      }
      if node !in seen {
        seen := seen + {node};
        result := result + [node];
      }
    }
    assert nodes[..|nodes|] == nodes;
    r := Some(result);
  }

  ghost predicate NodesInLimits(nodes: seq<string>) {
    && |nodes| <= MAX_NODES
    && forall i :: 0 <= i < |nodes| ==> Collapse(nodes[i]) != "" && |Collapse(nodes[i])| <= MAX_NODE_RUNES
  }

  /** If every input node fits the length limit, the merged list is accepted back unchanged. */
  lemma {:induction false} MergedFitsLimits(current: seq<string>, additions: seq<string>, drop: string -> bool)
    requires forall i :: 0 <= i < |current + additions| ==> |Collapse((current + additions)[i])| <= MAX_NODE_RUNES
    ensures NodesInLimits(Merged(current, additions, drop))
    ensures FirstOccurrences(Merged(current, additions, drop)) == Merged(current, additions, drop)
  {
    MergedShape(current, additions, drop);
    FirstOfDistinct(Merged(current, additions, drop));
    hide Collapse;
    var r := Merged(current, additions, drop);
    forall k | 0 <= k < |r| ensures Collapse(r[k]) != "" && |Collapse(r[k])| <= MAX_NODE_RUNES {
      assert r[k] in r;
    }
  }
}
