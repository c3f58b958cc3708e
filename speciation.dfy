/**
 * speciate: one greedy pass over the (fitness-sorted) population.  The first
 * individual founds the first species; every later one joins the first
 * species, in creation order, whose founder is at similarity below 0.5 from
 * it, and founds a new species when there is none.
 *
 * The grouping is specified on positions (Groups) and the species themselves
 * are those positions read back from the population (Species), so that
 * duplicates in the population cannot blur what "in input order" means.
 */
module Speciation {
  import opened Sequences
  import opened Individuals
  import opened Ranking

  /** An individual joins a species when its similarity to the founder is below this. */
  const Threshold: real := 0.5

  predicate Joins(founder: Individual, x: Individual)
  {
    Similarity(founder, x) < Threshold
  }

  /** Every group is non-empty and holds positions below n. */
  ghost predicate Indexed(gs: seq<seq<nat>>, n: nat)
  {
    forall k :: 0 <= k < |gs| ==> |gs[k]| > 0 && forall t :: 0 <= t < |gs[k]| ==> gs[k][t] < n
  }

  /** The first group, from k on, whose founder the individual at position j joins; |gs| if none. */
  function FirstMatch(xs: seq<Individual>, gs: seq<seq<nat>>, j: nat, k: nat): (r: nat)
    requires Indexed(gs, |xs|) && j < |xs| && k <= |gs|
    ensures k <= r <= |gs|
    ensures r < |gs| ==> Joins(xs[gs[r][0]], xs[j])
    ensures forall q :: k <= q < r ==> !Joins(xs[gs[q][0]], xs[j])
    decreases |gs| - k
  {
    if k == |gs| then k
    else if Joins(xs[gs[k][0]], xs[j]) then k
    else FirstMatch(xs, gs, j, k + 1)
  }

  lemma IndexedWiden(gs: seq<seq<nat>>, n: nat, m: nat)
    requires Indexed(gs, n) && n <= m
    ensures Indexed(gs, m)
  {
  }

  /** One step of the pass: the individual at position j joins a species or founds one. */
  function Place(xs: seq<Individual>, gs: seq<seq<nat>>, j: nat): (r: seq<seq<nat>>)
    requires Indexed(gs, j) && j < |xs|
    ensures Indexed(r, j + 1)
  {
    IndexedWiden(gs, j, |xs|);
    var k := FirstMatch(xs, gs, j, 0);
    if k < |gs| then gs[k := gs[k] + [j]] else gs + [[j]]
  }

  /** The species, as positions, after the first n individuals have been placed. */
  function Groups(xs: seq<Individual>, n: nat): (gs: seq<seq<nat>>)
    requires 0 < n <= |xs|
    ensures Indexed(gs, n)
    decreases n
  {
    if n == 1 then [[0]] else Place(xs, Groups(xs, n - 1), n - 1)
  }

  /** The individuals at the positions of each group. */
  function Members(xs: seq<Individual>, gs: seq<seq<nat>>): (r: seq<seq<Individual>>)
    requires Indexed(gs, |xs|)
    ensures |r| == |gs|
    ensures forall k :: 0 <= k < |gs| ==> |r[k]| == |gs[k]|
    ensures forall k, t :: 0 <= k < |gs| && 0 <= t < |gs[k]| ==> r[k][t] == xs[gs[k][t]]
  {
    seq(|gs|, k requires 0 <= k < |gs| =>
      seq(|gs[k]|, t requires 0 <= t < |gs[k]| => xs[gs[k][t]]))
  }

  /** The result of speciate on a non-empty population. */
  function Species(xs: seq<Individual>): (r: seq<seq<Individual>>)
    requires |xs| > 0
  {
    Members(xs, Groups(xs, |xs|))
  }

  // ---------------------------------------------------------------------------
  // The invariant of the pass

  /** Positions within a group increase: members keep their input order. */
  ghost predicate Ascending(gs: seq<seq<nat>>)
  {
    forall k, t1, t2 :: 0 <= k < |gs| && 0 <= t1 < t2 < |gs[k]| ==> gs[k][t1] < gs[k][t2]
  }

  /** Founders appear in input order too. */
  ghost predicate FoundersAscending(gs: seq<seq<nat>>)
    requires forall k :: 0 <= k < |gs| ==> |gs[k]| > 0
  {
    forall k1, k2 :: 0 <= k1 < k2 < |gs| ==> gs[k1][0] < gs[k2][0]
  }

  /** Every member after the founder is within the threshold of its founder. */
  ghost predicate JoinedFounder(xs: seq<Individual>, gs: seq<seq<nat>>)
    requires Indexed(gs, |xs|)
  {
    forall k, t :: 0 <= k < |gs| && 0 < t < |gs[k]| ==> Joins(xs[gs[k][0]], xs[gs[k][t]])
  }

  /** No member (founders included) is within the threshold of an earlier species' founder. */
  ghost predicate RejectedEarlier(xs: seq<Individual>, gs: seq<seq<nat>>)
    requires Indexed(gs, |xs|)
  {
    forall q, k, t :: 0 <= q < k < |gs| && 0 <= t < |gs[k]| ==> !Joins(xs[gs[q][0]], xs[gs[k][t]])
  }

  /** Every position below n lies in exactly one group, exactly once. */
  ghost predicate Partition(gs: seq<seq<nat>>, n: nat)
  {
    multiset(Flatten(gs)) == multiset(Range(n))
  }

  ghost predicate Clustered(xs: seq<Individual>, gs: seq<seq<nat>>, n: nat)
  {
    n <= |xs| && Indexed(gs, n) && |gs| > 0 && gs[0][0] == 0 &&
    Ascending(gs) && FoundersAscending(gs) &&
    JoinedFounder(xs, gs) && RejectedEarlier(xs, gs) && Partition(gs, n)
  }

  lemma PlaceAscending(xs: seq<Individual>, gs: seq<seq<nat>>, j: nat)
    requires Indexed(gs, j) && j < |xs| && Ascending(gs)
    ensures Ascending(Place(xs, gs, j))
  {
    IndexedWiden(gs, j, |xs|);
    var k := FirstMatch(xs, gs, j, 0);
    var r := Place(xs, gs, j);
    if k < |gs| {
      forall g, t1, t2 | 0 <= g < |r| && 0 <= t1 < t2 < |r[g]|
        ensures r[g][t1] < r[g][t2]
      {
        if g == k && t2 == |gs[k]| {
          assert r[g][t1] == gs[k][t1];
        }
      }
    }
  }

  lemma PlaceFounders(xs: seq<Individual>, gs: seq<seq<nat>>, j: nat)
    requires Indexed(gs, j) && j < |xs| && FoundersAscending(gs) && |gs| > 0 && gs[0][0] == 0
    ensures FoundersAscending(Place(xs, gs, j))
    ensures Place(xs, gs, j)[0][0] == 0
  {
    IndexedWiden(gs, j, |xs|);
    var k := FirstMatch(xs, gs, j, 0);
    var r := Place(xs, gs, j);
    assert forall g :: 0 <= g < |gs| ==> r[g][0] == gs[g][0];
  }

  lemma PlaceJoined(xs: seq<Individual>, gs: seq<seq<nat>>, j: nat)
    requires Indexed(gs, j) && j < |xs|
    requires Indexed(gs, |xs|) && JoinedFounder(xs, gs)
    ensures Indexed(Place(xs, gs, j), |xs|) && JoinedFounder(xs, Place(xs, gs, j))
  {
    var k := FirstMatch(xs, gs, j, 0);
    var r := Place(xs, gs, j);
    IndexedWiden(r, j + 1, |xs|);
    forall g, t | 0 <= g < |r| && 0 < t < |r[g]|
      ensures Joins(xs[r[g][0]], xs[r[g][t]])
    {
      if g < |gs| && t < |gs[g]| {
        assert r[g][0] == gs[g][0] && r[g][t] == gs[g][t];
      }
    }
  }

  lemma PlaceRejected(xs: seq<Individual>, gs: seq<seq<nat>>, j: nat)
    requires Indexed(gs, j) && j < |xs|
    requires Indexed(gs, |xs|) && RejectedEarlier(xs, gs)
    ensures Indexed(Place(xs, gs, j), |xs|) && RejectedEarlier(xs, Place(xs, gs, j))
  {
    var k := FirstMatch(xs, gs, j, 0);
    var r := Place(xs, gs, j);
    IndexedWiden(r, j + 1, |xs|);
    forall q, g, t | 0 <= q < g < |r| && 0 <= t < |r[g]|
      ensures !Joins(xs[r[q][0]], xs[r[g][t]])
    {
      assert r[q][0] == gs[q][0];
      if g < |gs| && t < |gs[g]| {
        assert r[g][t] == gs[g][t];
      } else {
        assert r[g][t] == j;
      }
    }
  }

  lemma PlacePartition(xs: seq<Individual>, gs: seq<seq<nat>>, j: nat)
    requires Indexed(gs, j) && j < |xs| && Partition(gs, j)
    ensures Partition(Place(xs, gs, j), j + 1)
  {
    IndexedWiden(gs, j, |xs|);
    var k := FirstMatch(xs, gs, j, 0);
    assert Range(j + 1) == Range(j) + [j];
    if k < |gs| {
      FlattenGrowGroup(gs, k, j);
    } else {
      FlattenAppend(gs, [j]);
    }
  }

  /** The pass keeps its invariant after every individual. */
  lemma {:induction false} GroupsClustered(xs: seq<Individual>, n: nat)
    requires 0 < n <= |xs|
    ensures Clustered(xs, Groups(xs, n), n)
    decreases n
  {
    if n == 1 {
      assert Flatten([[0]]) == [0] by { FlattenAppend([], [0]); }
      assert Range(1) == [0];
    } else {
      var gs := Groups(xs, n - 1);
      GroupsClustered(xs, n - 1);
      IndexedWiden(gs, n - 1, |xs|);
      PlaceAscending(xs, gs, n - 1);
      PlaceFounders(xs, gs, n - 1);
      PlaceJoined(xs, gs, n - 1);
      PlaceRejected(xs, gs, n - 1);
      PlacePartition(xs, gs, n - 1);
    }
  }

  // ---------------------------------------------------------------------------
  // The species as individuals

  lemma MembersJoin(xs: seq<Individual>, gs: seq<seq<nat>>, k: nat, j: nat)
    requires Indexed(gs, |xs|) && k < |gs| && j < |xs|
    ensures Indexed(gs[k := gs[k] + [j]], |xs|)
    ensures Members(xs, gs[k := gs[k] + [j]]) == Members(xs, gs)[k := Members(xs, gs)[k] + [xs[j]]]
  {
    var r := Members(xs, gs[k := gs[k] + [j]]);
    var s := Members(xs, gs)[k := Members(xs, gs)[k] + [xs[j]]];
    assert |r| == |s|;
    forall g | 0 <= g < |r|
      ensures r[g] == s[g]
    {
    }
  }

  lemma MembersFound(xs: seq<Individual>, gs: seq<seq<nat>>, j: nat)
    requires Indexed(gs, |xs|) && j < |xs|
    ensures Indexed(gs + [[j]], |xs|)
    ensures Members(xs, gs + [[j]]) == Members(xs, gs) + [[xs[j]]]
  {
    var r := Members(xs, gs + [[j]]);
    var s := Members(xs, gs) + [[xs[j]]];
    assert |r| == |s|;
    forall g | 0 <= g < |r|
      ensures r[g] == s[g]
    {
    }
  }

  /** Placing position j adds the individual xs[j] to one species, or as a new species. */
  lemma MembersPlace(xs: seq<Individual>, gs: seq<seq<nat>>, j: nat)
    requires Indexed(gs, j) && j < |xs|
    ensures Indexed(gs, |xs|) && Indexed(Place(xs, gs, j), |xs|)
    ensures var k := FirstMatch(xs, gs, j, 0);
      Members(xs, Place(xs, gs, j)) ==
        if k < |gs| then Members(xs, gs)[k := Members(xs, gs)[k] + [xs[j]]]
        else Members(xs, gs) + [[xs[j]]]
  {
    IndexedWiden(gs, j, |xs|);
    IndexedWiden(Place(xs, gs, j), j + 1, |xs|);
    var k := FirstMatch(xs, gs, j, 0);
    if k < |gs| {
      MembersJoin(xs, gs, k, j);
    } else {
      MembersFound(xs, gs, j);
    }
  }

  /** Placing position j adds exactly xs[j] to the concatenated species. */
  lemma MembersPlaceCount(xs: seq<Individual>, gs: seq<seq<nat>>, j: nat)
    requires Indexed(gs, j) && j < |xs|
    requires Indexed(gs, |xs|) && multiset(Flatten(Members(xs, gs))) == multiset(xs[..j])
    ensures Indexed(Place(xs, gs, j), |xs|)
    ensures multiset(Flatten(Members(xs, Place(xs, gs, j)))) == multiset(xs[..j + 1])
  {
    MembersPlace(xs, gs, j);
    var k := FirstMatch(xs, gs, j, 0);
    FlattenGrow(Members(xs, gs), Members(xs, Place(xs, gs, j)), k, xs[j]);
    PrefixMultiset(xs, j);
  }

  lemma MembersFirst(xs: seq<Individual>)
    requires 0 < |xs|
    ensures Indexed([[0]], |xs|)
    ensures Members(xs, [[0]]) == [[xs[0]]]
    ensures multiset(Flatten(Members(xs, [[0]]))) == multiset(xs[..1])
  {
    var one := Members(xs, [[0]]);
    assert [[0]][0][0] == 0;
    assert |one| == 1 && |one[0]| == 1 && one[0][0] == xs[0];
    assert one[0] == [xs[0]];
    assert one == [[xs[0]]];
    FlattenAppend([], [xs[0]]);
    assert xs[..1] == [xs[0]];
  }

  lemma {:induction false} MembersPartition(xs: seq<Individual>, n: nat)
    requires 0 < n <= |xs|
    ensures Indexed(Groups(xs, n), |xs|)
    ensures multiset(Flatten(Members(xs, Groups(xs, n)))) == multiset(xs[..n])
    decreases n
  {
    if n == 1 {
      MembersFirst(xs);
    } else {
      MembersPartition(xs, n - 1);
      MembersPlaceCount(xs, Groups(xs, n - 1), n - 1);
    }
  }

  /**
   * The shape of the result: at least one species, none empty, and the first
   * individual founds the first species.
   */
  lemma SpeciesNonEmpty(xs: seq<Individual>)
    requires |xs| > 0
    ensures |Species(xs)| > 0
    ensures forall k :: 0 <= k < |Species(xs)| ==> |Species(xs)[k]| > 0
    ensures Species(xs)[0][0] == xs[0]
  {
    GroupsClustered(xs, |xs|);
  }

  /** Concatenating all species gives back the population, reordered. */
  lemma SpeciesPartition(xs: seq<Individual>)
    requires |xs| > 0
    ensures multiset(Flatten(Species(xs))) == multiset(xs)
  {
    MembersPartition(xs, |xs|);
    assert xs[..|xs|] == xs;
  }

  /**
   * Every species is read off the population at increasing positions, so its
   * members keep their input order; every position is used exactly once.
   */
  lemma SpeciesInInputOrder(xs: seq<Individual>)
    requires |xs| > 0
    ensures var gs := Groups(xs, |xs|);
      |Species(xs)| == |gs| &&
      (forall k, t :: 0 <= k < |gs| && 0 <= t < |gs[k]| ==>
        |Species(xs)[k]| == |gs[k]| && Species(xs)[k][t] == xs[gs[k][t]]) &&
      Ascending(gs) && Partition(gs, |xs|)
  {
    GroupsClustered(xs, |xs|);
  }

  /**
   * The first-match rule: a member is within the threshold of its own founder
   * and outside it for the founder of every earlier species; so is a founder
   * for all earlier founders.
   */
  lemma SpeciesFirstMatch(xs: seq<Individual>)
    requires |xs| > 0
    ensures var sp: seq<seq<Individual>> := Species(xs);
      (forall k :: 0 <= k < |sp| ==> |sp[k]| > 0) &&
      (forall k, t :: 0 <= k < |sp| && 0 < t < |sp[k]| ==> Joins(sp[k][0], sp[k][t])) &&
      (forall q, k, t :: 0 <= q < k < |sp| && 0 <= t < |sp[k]| ==> !Joins(sp[q][0], sp[k][t]))
  {
    var gs := Groups(xs, |xs|);
    GroupsClustered(xs, |xs|);
    var sp: seq<seq<Individual>> := Species(xs);
    forall k, t | 0 <= k < |sp| && 0 < t < |sp[k]|
      ensures Joins(sp[k][0], sp[k][t])
    {
      assert sp[k][0] == xs[gs[k][0]] && sp[k][t] == xs[gs[k][t]];
    }
    forall q, k, t | 0 <= q < k < |sp| && 0 <= t < |sp[k]|
      ensures !Joins(sp[q][0], sp[k][t])
    {
      assert sp[q][0] == xs[gs[q][0]] && sp[k][t] == xs[gs[k][t]];
    }
  }

  /**
   * On a population sorted fittest first, every species is sorted too, so its
   * founder is its fittest member, and the founders come in order of fitness.
   */
  lemma SpeciesSorted(xs: seq<Individual>)
    requires |xs| > 0 && Descending(xs)
    ensures var sp: seq<seq<Individual>> := Species(xs);
      (forall k, t1, t2 :: 0 <= k < |sp| && 0 <= t1 <= t2 < |sp[k]| ==> sp[k][t1].fitness >= sp[k][t2].fitness) &&
      (forall k1, k2 :: 0 <= k1 <= k2 < |sp| && |sp[k1]| > 0 && |sp[k2]| > 0 ==> sp[k1][0].fitness >= sp[k2][0].fitness)
  {
    GroupsOrdered(xs);
    MembersSorted(xs);
    FoundersSorted(xs);
  }

  lemma MembersSorted(xs: seq<Individual>)
    requires |xs| > 0 && Descending(xs)
    requires Indexed(Groups(xs, |xs|), |xs|) && Ascending(Groups(xs, |xs|))
    ensures var sp: seq<seq<Individual>> := Species(xs);
      forall k, t1, t2 :: 0 <= k < |sp| && 0 <= t1 <= t2 < |sp[k]| ==> sp[k][t1].fitness >= sp[k][t2].fitness
  {
    var gs := Groups(xs, |xs|);
    var sp: seq<seq<Individual>> := Species(xs);
    forall k, t1, t2 | 0 <= k < |sp| && 0 <= t1 <= t2 < |sp[k]|
      ensures sp[k][t1].fitness >= sp[k][t2].fitness
    {
      assert sp[k][t1] == xs[gs[k][t1]] && sp[k][t2] == xs[gs[k][t2]];
      assert gs[k][t1] <= gs[k][t2];
    }
  }

  lemma FoundersSorted(xs: seq<Individual>)
    requires |xs| > 0 && Descending(xs)
    requires Indexed(Groups(xs, |xs|), |xs|) && FoundersAscending(Groups(xs, |xs|))
    ensures var sp: seq<seq<Individual>> := Species(xs);
      forall k1, k2 :: 0 <= k1 <= k2 < |sp| && |sp[k1]| > 0 && |sp[k2]| > 0 ==> sp[k1][0].fitness >= sp[k2][0].fitness
  {
    var gs := Groups(xs, |xs|);
    var sp: seq<seq<Individual>> := Species(xs);
    forall k1, k2 | 0 <= k1 <= k2 < |sp| && |sp[k1]| > 0 && |sp[k2]| > 0
      ensures sp[k1][0].fitness >= sp[k2][0].fitness
    {
      assert sp[k1][0] == xs[gs[k1][0]] && sp[k2][0] == xs[gs[k2][0]];
      assert gs[k1][0] <= gs[k2][0];
    }
  }

  /** The order part of the invariant, on its own. */
  lemma GroupsOrdered(xs: seq<Individual>)
    requires |xs| > 0
    ensures Indexed(Groups(xs, |xs|), |xs|)
    ensures Ascending(Groups(xs, |xs|)) && FoundersAscending(Groups(xs, |xs|))
  {
    GroupsClustered(xs, |xs|);
  }
}
