/**
 * The ordering evolve puts the population in before speciating: a stable sort
 * by fitness, fittest first.  Fitness values are compared as reals.
 */
module Ranking {
  import opened Individuals

  ghost predicate Descending(s: seq<Individual>)
  {
    forall i, j :: 0 <= i < j < |s| ==> s[i].fitness >= s[j].fitness
  }

  /** Places x after every element that is at least as fit as x. */
  function Insert(s: seq<Individual>, x: Individual): (r: seq<Individual>)
    ensures |r| == |s| + 1
  {
    if |s| == 0 then [x]
    else if s[0].fitness >= x.fitness then [s[0]] + Insert(s[1..], x)
    else [x] + s
  }

  lemma {:induction false} InsertPermutation(s: seq<Individual>, x: Individual)
    ensures multiset(Insert(s, x)) == multiset(s) + multiset{x}
  {
    if |s| > 0 {
      assert s == [s[0]] + s[1..];
      if s[0].fitness >= x.fitness {
        InsertPermutation(s[1..], x);
      }
    }
  }

  /** The stable descending sort: insert each element, left to right, into the sorted prefix. */
  function SortDesc(xs: seq<Individual>): (r: seq<Individual>)
    ensures |r| == |xs|
  {
    if |xs| == 0 then [] else Insert(SortDesc(xs[..|xs| - 1]), xs[|xs| - 1])
  }

  ghost predicate AtMost(s: seq<Individual>, bound: real)
  {
    forall i :: 0 <= i < |s| ==> s[i].fitness <= bound
  }

  lemma {:induction false} InsertAtMost(s: seq<Individual>, x: Individual, bound: real)
    requires AtMost(s, bound) && x.fitness <= bound
    ensures AtMost(Insert(s, x), bound)
  {
    if |s| > 0 && s[0].fitness >= x.fitness {
      InsertAtMost(s[1..], x, bound);
    }
  }

  /** [x] + rest is descending when rest is and x is at least as fit as all of rest. */
  lemma PrependDescending(x: Individual, rest: seq<Individual>)
    requires Descending(rest) && AtMost(rest, x.fitness)
    ensures Descending([x] + rest)
  {
    var r := [x] + rest;
    forall i, j | 0 <= i < j < |r|
      ensures r[i].fitness >= r[j].fitness
    {
      assert r[j] == rest[j - 1];
      if i > 0 { assert r[i] == rest[i - 1]; }
    }
  }

  lemma {:induction false} InsertDescending(s: seq<Individual>, x: Individual)
    requires Descending(s)
    ensures Descending(Insert(s, x))
  {
    if |s| == 0 {
    } else if s[0].fitness >= x.fitness {
      InsertDescending(s[1..], x);
      InsertAtMost(s[1..], x, s[0].fitness);
      PrependDescending(s[0], Insert(s[1..], x));
    } else {
      PrependDescending(x, s);
    }
  }

  /** The sort leaves the fitness values non-increasing. */
  lemma {:induction false} SortDescDescending(xs: seq<Individual>)
    ensures Descending(SortDesc(xs))
  {
    if |xs| > 0 {
      SortDescDescending(xs[..|xs| - 1]);
      InsertDescending(SortDesc(xs[..|xs| - 1]), xs[|xs| - 1]);
    }
  }

  /** The sort only reorders: the result is a permutation of its input. */
  lemma {:induction false} SortDescPermutation(xs: seq<Individual>)
    ensures multiset(SortDesc(xs)) == multiset(xs)
  {
    if |xs| > 0 {
      var n := |xs| - 1;
      SortDescPermutation(xs[..n]);
      InsertPermutation(SortDesc(xs[..n]), xs[n]);
      assert xs == xs[..n] + [xs[n]];
    }
  }

  /** The members of s whose fitness is exactly v, in their order in s. */
  function WithFitness(s: seq<Individual>, v: real): (r: seq<Individual>)
  {
    if |s| == 0 then []
    else (if s[0].fitness == v then [s[0]] else []) + WithFitness(s[1..], v)
  }

  lemma {:induction false} WithFitnessAppend(a: seq<Individual>, b: seq<Individual>, v: real)
    ensures WithFitness(a + b, v) == WithFitness(a, v) + WithFitness(b, v)
  {
    if |a| > 0 {
      assert (a + b)[1..] == a[1..] + b;
      WithFitnessAppend(a[1..], b, v);
    } else {
      assert a + b == b;
    }
  }

  lemma {:induction false} WithFitnessNone(s: seq<Individual>, v: real)
    requires Descending(s) && |s| > 0 && s[0].fitness < v
    ensures WithFitness(s, v) == []
  {
    if |s| > 1 {
      WithFitnessNone(s[1..], v);
    }
  }

  lemma {:induction false} InsertStable(s: seq<Individual>, x: Individual, v: real)
    requires Descending(s)
    ensures WithFitness(Insert(s, x), v) == WithFitness(s, v) + (if x.fitness == v then [x] else [])
  {
    if |s| == 0 {
    } else if s[0].fitness >= x.fitness {
      var r := Insert(s, x);
      assert r[1..] == Insert(s[1..], x);
      InsertStable(s[1..], x, v);
    } else {
      var r := Insert(s, x);
      assert r[1..] == s;
      if x.fitness == v {
        WithFitnessNone(s, v);
      }
    }
  }

  /**
   * Stability: for every fitness value, the members with that value appear in
   * the result in the same order as in the input.
   */
  lemma {:induction false} SortDescStable(xs: seq<Individual>, v: real)
    ensures WithFitness(SortDesc(xs), v) == WithFitness(xs, v)
  {
    if |xs| > 0 {
      var n := |xs| - 1;
      SortDescStable(xs[..n], v);
      SortDescDescending(xs[..n]);
      InsertStable(SortDesc(xs[..n]), xs[n], v);
      assert xs == xs[..n] + [xs[n]];
      WithFitnessAppend(xs[..n], [xs[n]], v);
    }
  }

  /**
   * One step of insertion sort on a list whose first i elements are the sort
   * of the first i of xs and whose rest is the rest of xs: moving element i
   * to the first position p whose element is less fit extends the sorted part.
   */
  lemma InsertionStep(xs: seq<Individual>, s: seq<Individual>, i: nat, p: nat)
    requires |s| == |xs| && i < |xs| && p <= i
    requires s[..i] == SortDesc(xs[..i]) && s[i..] == xs[i..]
    requires forall q :: 0 <= q < p ==> s[q].fitness >= s[i].fitness
    requires p == i || s[p].fitness < s[i].fitness
    ensures var t := s[..p] + [s[i]] + s[p..i] + s[i + 1..];
      |t| == |xs| && t[..i + 1] == SortDesc(xs[..i + 1]) && t[i + 1..] == xs[i + 1..]
  {
    var x := s[i];
    assert x == s[i..][0] == xs[i];
    var front := s[..i];
    InsertAt(front, x, p);
    assert front[..p] == s[..p] && front[p..] == s[p..i];
    assert xs[..i + 1][..i] == xs[..i];
    var t := s[..p] + [x] + s[p..i] + s[i + 1..];
    assert t[..i + 1] == s[..p] + [x] + s[p..i];
    assert t[i + 1..] == s[i + 1..];
    assert s[i + 1..] == s[i..][1..] == xs[i..][1..] == xs[i + 1..];
  }

  /** Sorting a list that is already fittest first changes nothing, so evolve re-sorts to the same order. */
  lemma {:induction false} SortDescIdentity(xs: seq<Individual>)
    requires Descending(xs)
    ensures SortDesc(xs) == xs
  {
    if |xs| > 0 {
      var n := |xs| - 1;
      SortDescIdentity(xs[..n]);
      InsertAt(xs[..n], xs[n], n);
      assert xs[..n] + [xs[n]] == xs;
    }
  }

  /** i is the first position holding the highest fitness of xs. */
  ghost predicate FirstFittest(xs: seq<Individual>, i: nat)
  {
    i < |xs| &&
    (forall j :: 0 <= j < |xs| ==> xs[j].fitness <= xs[i].fitness) &&
    (forall j :: 0 <= j < i ==> xs[j].fitness < xs[i].fitness)
  }

  lemma InsertHead(s: seq<Individual>, x: Individual)
    ensures Insert(s, x)[0] == if |s| > 0 && s[0].fitness >= x.fitness then s[0] else x
  {
  }

  /** The sort brings the first of the fittest members to the front. */
  lemma {:induction false} SortDescHead(xs: seq<Individual>, i: nat)
    requires FirstFittest(xs, i)
    ensures SortDesc(xs)[0] == xs[i]
  {
    var n := |xs| - 1;
    var front := SortDesc(xs[..n]);
    assert SortDesc(xs) == Insert(front, xs[n]);
    InsertHead(front, xs[n]);
    if i < n {
      assert FirstFittest(xs[..n], i);
      SortDescHead(xs[..n], i);
    } else if n > 0 {
      SortDescPermutation(xs[..n]);
      assert front[0] in multiset(xs[..n]);
      var j :| 0 <= j < n && xs[..n][j] == front[0];
      assert front[0].fitness < xs[n].fitness;
    }
  }

  /** Inserting by scanning from the front to the first less fit element gives Insert. */
  lemma {:induction false} InsertAt(s: seq<Individual>, x: Individual, p: nat)
    requires p <= |s|
    requires forall q :: 0 <= q < p ==> s[q].fitness >= x.fitness
    requires p == |s| || s[p].fitness < x.fitness
    ensures Insert(s, x) == s[..p] + [x] + s[p..]
  {
    if p > 0 {
      assert Insert(s, x) == [s[0]] + Insert(s[1..], x);
      InsertAt(s[1..], x, p - 1);
      assert s[1..][..p - 1] == s[1..p];
      assert s[..p] == [s[0]] + s[1..p];
      assert s[1..][p - 1..] == s[p..];
    } else {
      assert s[..0] == [] && s[0..] == s;
    }
  }
}
