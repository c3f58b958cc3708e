/** Small helpers on sequences shared by the other modules. */
module Sequences {

  function Min(a: nat, b: nat): nat { if a <= b then a else b }

  function Max(a: nat, b: nat): nat { if a <= b then b else a }

  /** 0, 1, ..., n - 1 */
  function Range(n: nat): (r: seq<nat>)
    ensures |r| == n
  {
    seq(n, i requires 0 <= i < n => i)
  }

  /** The concatenation of all the groups, in order. */
  function Flatten<T>(groups: seq<seq<T>>): seq<T>
  {
    if |groups| == 0 then [] else Flatten(groups[..|groups| - 1]) + groups[|groups| - 1]
  }

  lemma FlattenAppend<T>(groups: seq<seq<T>>, g: seq<T>)
    ensures Flatten(groups + [g]) == Flatten(groups) + g
  {
    assert (groups + [g])[..|groups|] == groups;
  }

  /** Appending one element to one group adds exactly that element to the concatenation. */
  lemma {:induction false} FlattenGrowGroup<T>(groups: seq<seq<T>>, k: nat, x: T)
    requires k < |groups|
    ensures multiset(Flatten(groups[k := groups[k] + [x]])) == multiset(Flatten(groups)) + multiset{x}
  {
    var n := |groups|;
    var grown := groups[k := groups[k] + [x]];
    var front := groups[..n - 1];
    if k == n - 1 {
      assert grown[..n - 1] == front;
    } else {
      assert grown[..n - 1] == front[k := front[k] + [x]];
      FlattenGrowGroup(front, k, x);
    }
  }

  /** Growing one group, or adding a new singleton group, adds exactly that element to the concatenation. */
  lemma FlattenGrow<T>(groups: seq<seq<T>>, grown: seq<seq<T>>, k: nat, x: T)
    requires grown == if k < |groups| then groups[k := groups[k] + [x]] else groups + [[x]]
    ensures multiset(Flatten(grown)) == multiset(Flatten(groups)) + multiset{x}
  {
    if k < |groups| {
      FlattenGrowGroup(groups, k, x);
    } else {
      FlattenAppend(groups, [x]);
    }
  }

  /** Extending a prefix by one element adds that element to its multiset. */
  lemma PrefixMultiset<T>(s: seq<T>, j: nat)
    requires j < |s|
    ensures multiset(s[..j + 1]) == multiset(s[..j]) + multiset{s[j]}
  {
    assert s[..j + 1] == s[..j] + [s[j]];
  }
}
