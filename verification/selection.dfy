/** Choosing the indices to delete: the cluster metadata's index names,
    in enumeration order, kept when the caller's filter accepts them
    (lodash `pickBy` followed by `keys`), and the filter the entrypoint
    supplies, which protects exactly the `.kibana` index. */
module Selection {

  /** The one index the entrypoint never deletes. */
  const Reserved: string := ".kibana"

  /** The entrypoint's filter: exact string inequality with the reserved
      name, so case variants and near-misses are accepted. */
  predicate KeepIndex(name: string) {
    name != Reserved
  }

  /** `sub` can be obtained from `s` by dropping elements, keeping the
      relative order of the rest. */
  predicate IsSubsequence(sub: seq<string>, s: seq<string>)
    decreases |s|
  {
    if sub == [] then true
    else if s == [] then false
    else (sub[0] == s[0] && IsSubsequence(sub[1..], s[1..])) || IsSubsequence(sub, s[1..])
  }

  predicate Distinct(s: seq<string>) {
    forall i, j :: 0 <= i < j < |s| ==> s[i] != s[j]
  }

  /** The names of `names` that `accept` keeps, in their original order. */
  function Select(names: seq<string>, accept: string -> bool): (r: seq<string>)
    ensures |r| <= |names|
    ensures forall x :: x in r <==> x in names && accept(x)
  {
    if names == [] then []
    else (if accept(names[0]) then [names[0]] else []) + Select(names[1..], accept)
  }

  /** No name is added or duplicated: each accepted name occurs in the
      selection as often as in the enumeration, each rejected one not at all. */
  lemma {:induction false} SelectCounts(names: seq<string>, accept: string -> bool)
    ensures forall x :: multiset(Select(names, accept))[x] == if accept(x) then multiset(names)[x] else 0
  {
    if names != [] {
      assert names == [names[0]] + names[1..];
      SelectCounts(names[1..], accept);
    }
  }

  /** Selection preserves relative order: the result is a subsequence of
      the enumeration. */
  lemma {:induction false} SelectIsSubsequence(names: seq<string>, accept: string -> bool)
    ensures IsSubsequence(Select(names, accept), names)
  {
    if names != [] {
      SelectIsSubsequence(names[1..], accept);
      var rest := Select(names[1..], accept);
      if accept(names[0]) {
        assert Select(names, accept) == [names[0]] + rest;
        assert ([names[0]] + rest)[1..] == rest;
      } else {
        assert Select(names, accept) == rest;
        if rest != [] {
          assert IsSubsequence(rest, names[1..]);
        }
      }
    }
  }

  lemma {:induction false} SubsequenceMembers(sub: seq<string>, s: seq<string>)
    requires IsSubsequence(sub, s)
    ensures forall x :: x in sub ==> x in s
    decreases |s|
  {
    if sub != [] {
      if sub[0] == s[0] && IsSubsequence(sub[1..], s[1..]) {
        SubsequenceMembers(sub[1..], s[1..]);
        assert sub == [sub[0]] + sub[1..];
      } else {
        SubsequenceMembers(sub, s[1..]);
      }
    }
  }

  /** Selection is the only order-preserving choice: over distinct names,
      every subsequence holding exactly the accepted names is the
      selection itself. */
  lemma {:induction false} SelectIsTheOrderedChoice(names: seq<string>, accept: string -> bool, sub: seq<string>)
    requires Distinct(names)
    requires IsSubsequence(sub, names)
    requires forall x :: x in sub <==> x in names && accept(x)
    ensures sub == Select(names, accept)
    decreases |names|
  {
    if names != [] {
      var n := names[0];
      var rest := names[1..];
      assert names == [n] + rest;
      assert Distinct(rest);
      assert n !in rest;
      if sub == [] {
        assert n in names;
        assert !accept(n);
        SelectIsTheOrderedChoice(rest, accept, sub);
      } else if sub[0] == n && IsSubsequence(sub[1..], rest) {
        var tail := sub[1..];
        assert sub == [n] + tail;
        SubsequenceMembers(tail, rest);
        assert n in sub;
        assert forall x :: x in tail <==> x in rest && accept(x);
        SelectIsTheOrderedChoice(rest, accept, tail);
      } else {
        assert IsSubsequence(sub, rest);
        SubsequenceMembers(sub, rest);
        assert n in names;
        assert !accept(n);
        assert forall x :: x in sub <==> x in rest && accept(x);
        SelectIsTheOrderedChoice(rest, accept, sub);
      }
    }
  }

  /** Distinct index names stay distinct: selection never duplicates. */
  lemma {:induction false} SelectKeepsDistinct(names: seq<string>, accept: string -> bool)
    requires Distinct(names)
    ensures Distinct(Select(names, accept))
  {
    if names != [] {
      var rest := names[1..];
      assert Distinct(rest);
      SelectKeepsDistinct(rest, accept);
      assert names[0] !in rest;
      assert names[0] !in Select(rest, accept);
    }
  }

  /** With the entrypoint's filter, `.kibana` is never selected, and every
      other name of the metadata is. */
  lemma ReservedNeverSelected(names: seq<string>)
    ensures Reserved !in Select(names, KeepIndex)
    ensures forall x :: x in names && x != Reserved ==> x in Select(names, KeepIndex)
  {
  }
}
