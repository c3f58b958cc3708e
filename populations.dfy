/**
 * Population: the individuals of one generation together with max_size and
 * max_species, and the evolve step that replaces them by the next generation.
 * The shape that the Rust type carries in its const generic parameters is a
 * field here.
 */
module Populations {
  import opened Sequences
  import opened Matrices
  import opened Individuals
  import opened Ranking
  import opened Speciation

  /** Every individual of the list has the given shape. */
  predicate Shaped(xs: seq<Individual>, shape: Shape)
  {
    forall i :: 0 <= i < |xs| ==> WellShaped(xs[i], shape)
  }

  /** Every member of every species has the given shape. */
  predicate SpeciesShaped(sp: seq<seq<Individual>>, shape: Shape)
  {
    forall q, t :: 0 <= q < |sp| && 0 <= t < |sp[q]| ==> WellShaped(sp[q][t], shape)
  }

  /**
   * The random choices behind one child of evolve: the two positions drawn in
   * the parent species (each reduced modulo the species size, as gen_range
   * over 0..len does), and the mutations applied to the clone.
   */
  datatype ChildDraw = ChildDraw(first: nat, second: nat, mutations: seq<Mutation>)

  /** gen_range(1..20) mutations, each with its choices in range. */
  predicate ValidChildDraw(shape: Shape, d: ChildDraw)
  {
    1 <= |d.mutations| < 20 &&
    forall t :: 0 <= t < |d.mutations| ==> ValidMutation(shape, d.mutations[t])
  }

  /** Why evolve panics: speciate indexes [0], and the round-robin takes a remainder. */
  datatype Panic = EmptyPopulation | RemainderByZero

  datatype Outcome = Evolved | Panicked(reason: Panic)

  // ---------------------------------------------------------------------------
  // The next generation, as a function of the current one

  /** The earlier, hence fitter, of the two members the draws pick. */
  function Parent(specie: seq<Individual>, d: ChildDraw): Individual
    requires |specie| > 0
  {
    specie[Min(d.first % |specie|, d.second % |specie|)]
  }

  /** A clone of the parent with the draw's mutations applied in order. */
  function Offspring(specie: seq<Individual>, shape: Shape, d: ChildDraw): (r: Individual)
    requires |specie| > 0 && Shaped(specie, shape) && ValidChildDraw(shape, d)
    ensures WellShaped(r, shape)
  {
    ApplyMutations(Parent(specie, d), shape, d.mutations)
  }

  /** The first k species founders, in species order. */
  function Founders(sp: seq<seq<Individual>>, k: nat): (r: seq<Individual>)
    requires k <= |sp| && forall q :: 0 <= q < |sp| ==> |sp[q]| > 0
    ensures |r| == k
  {
    seq(k, q requires 0 <= q < k => sp[q][0])
  }

  /** The children filled in round-robin over the first k species, the c-th from species c mod k. */
  function Children(sp: seq<seq<Individual>>, k: nat, shape: Shape, draws: seq<ChildDraw>, count: nat): (r: seq<Individual>)
    requires k <= |sp| && (count == 0 || 0 < k) && count <= |draws|
    requires forall q :: 0 <= q < |sp| ==> |sp[q]| > 0
    requires SpeciesShaped(sp, shape)
    requires forall c :: 0 <= c < |draws| ==> ValidChildDraw(shape, draws[c])
    ensures |r| == count
  {
    seq(count, c requires 0 <= c < count => Offspring(sp[c % k], shape, draws[c]))
  }

  /** The same individuals with their fitness set back to zero. */
  function ResetFitness(xs: seq<Individual>): (r: seq<Individual>)
    ensures |r| == |xs|
    ensures forall i :: 0 <= i < |xs| ==> r[i].fitness == 0.0 && SameWeights(r[i], xs[i])
  {
    seq(|xs|, i requires 0 <= i < |xs| => xs[i].(fitness := 0.0))
  }

  lemma ChildrenAppend(sp: seq<seq<Individual>>, k: nat, shape: Shape, draws: seq<ChildDraw>, count: nat)
    requires k <= |sp| && 0 < k && count < |draws|
    requires forall q :: 0 <= q < |sp| ==> |sp[q]| > 0
    requires SpeciesShaped(sp, shape)
    requires forall c :: 0 <= c < |draws| ==> ValidChildDraw(shape, draws[c])
    ensures Shaped(sp[count % k], shape)
    ensures Children(sp, k, shape, draws, count + 1) ==
      Children(sp, k, shape, draws, count) + [Offspring(sp[count % k], shape, draws[count])]
  {
  }

  lemma ChildAt(sp: seq<seq<Individual>>, k: nat, shape: Shape, draws: seq<ChildDraw>, count: nat, c: nat)
    requires k <= |sp| && 0 < k && c < count <= |draws|
    requires forall q :: 0 <= q < |sp| ==> |sp[q]| > 0
    requires SpeciesShaped(sp, shape)
    requires forall c :: 0 <= c < |draws| ==> ValidChildDraw(shape, draws[c])
    ensures Shaped(sp[c % k], shape)
    ensures Children(sp, k, shape, draws, count)[c] == Offspring(sp[c % k], shape, draws[c])
  {
  }

  lemma ResetAfter(front: seq<Individual>, back: seq<Individual>, c: nat)
    requires c < |back|
    ensures ResetFitness(front + back)[|front| + c] == back[c].(fitness := 0.0)
  {
    assert (front + back)[|front| + c] == back[c];
  }

  lemma SortDescShaped(xs: seq<Individual>, shape: Shape)
    requires Shaped(xs, shape)
    ensures Shaped(SortDesc(xs), shape)
  {
    SortDescPermutation(xs);
    var s := SortDesc(xs);
    forall i | 0 <= i < |s|
      ensures WellShaped(s[i], shape)
    {
      assert s[i] in multiset(xs);
      var j :| 0 <= j < |xs| && xs[j] == s[i];
    }
  }

  lemma SpeciesOfShaped(xs: seq<Individual>, shape: Shape)
    requires |xs| > 0 && Shaped(xs, shape)
    ensures |Species(xs)| > 0 && forall q :: 0 <= q < |Species(xs)| ==> |Species(xs)[q]| > 0
    ensures SpeciesShaped(Species(xs), shape)
  {
    SpeciesInInputOrder(xs);
    SpeciesNonEmpty(xs);
    var gs := Groups(xs, |xs|);
    var sp := Species(xs);
    forall q, t | 0 <= q < |sp| && 0 <= t < |sp[q]|
      ensures WellShaped(sp[q][t], shape)
    {
      assert sp[q][t] == xs[gs[q][t]];
    }
  }

  /** How many children the while loop of evolve appends after k founders. */
  function ChildCount(k: nat, maxSize: nat): nat
  {
    if k < maxSize then maxSize - k else 0
  }

  /**
   * The new generation built from the species: the founders of the first
   * max_species species, then offspring up to max_size, every fitness zeroed.
   */
  function Reproduce(sp: seq<seq<Individual>>, maxSize: nat, maxSpecies: nat, shape: Shape, draws: seq<ChildDraw>): (r: seq<Individual>)
    requires |sp| > 0 && (forall q :: 0 <= q < |sp| ==> |sp[q]| > 0) && SpeciesShaped(sp, shape)
    requires !(maxSpecies == 0 && maxSize > 0)
    requires |draws| >= maxSize && forall c :: 0 <= c < |draws| ==> ValidChildDraw(shape, draws[c])
    ensures |r| == Max(maxSize, Min(maxSpecies, |sp|))
    ensures forall i :: 0 <= i < |r| ==> r[i].fitness == 0.0
    ensures Shaped(r, shape)
  {
    var k := Min(maxSpecies, |sp|);
    ResetFitness(Founders(sp, k) + Children(sp, k, shape, draws, ChildCount(k, maxSize)))
  }

  /**
   * evolve when it does not panic: sort, speciate, keep the first max_species
   * founders, fill up to max_size with offspring, and zero every fitness.
   */
  function NextGeneration(xs: seq<Individual>, maxSize: nat, maxSpecies: nat, shape: Shape, draws: seq<ChildDraw>): (r: seq<Individual>)
    requires |xs| > 0 && !(maxSpecies == 0 && maxSize > 0)
    requires Shaped(xs, shape)
    requires |draws| >= maxSize && forall c :: 0 <= c < |draws| ==> ValidChildDraw(shape, draws[c])
    ensures |r| == Max(maxSize, Min(maxSpecies, |Species(SortDesc(xs))|))
    ensures forall i :: 0 <= i < |r| ==> r[i].fitness == 0.0
    ensures Shaped(r, shape)
  {
    SortDescShaped(xs, shape);
    SpeciesOfShaped(SortDesc(xs), shape);
    Reproduce(Species(SortDesc(xs)), maxSize, maxSpecies, shape, draws)
  }

  // ---------------------------------------------------------------------------
  // What the next generation is made of

  lemma ReproduceParts(sp: seq<seq<Individual>>, maxSize: nat, maxSpecies: nat, shape: Shape, draws: seq<ChildDraw>)
    requires |sp| > 0 && (forall q :: 0 <= q < |sp| ==> |sp[q]| > 0) && SpeciesShaped(sp, shape)
    requires !(maxSpecies == 0 && maxSize > 0)
    requires |draws| >= maxSize && forall c :: 0 <= c < |draws| ==> ValidChildDraw(shape, draws[c])
    ensures var k := Min(maxSpecies, |sp|);
      Reproduce(sp, maxSize, maxSpecies, shape, draws) ==
      ResetFitness(Founders(sp, k) + Children(sp, k, shape, draws, ChildCount(k, maxSize)))
  {
  }

  lemma ReproduceFounders(sp: seq<seq<Individual>>, maxSize: nat, maxSpecies: nat, shape: Shape, draws: seq<ChildDraw>)
    requires |sp| > 0 && (forall q :: 0 <= q < |sp| ==> |sp[q]| > 0) && SpeciesShaped(sp, shape)
    requires !(maxSpecies == 0 && maxSize > 0)
    requires |draws| >= maxSize && forall c :: 0 <= c < |draws| ==> ValidChildDraw(shape, draws[c])
    ensures forall q :: 0 <= q < Min(maxSpecies, |sp|) ==>
      Reproduce(sp, maxSize, maxSpecies, shape, draws)[q] == sp[q][0].(fitness := 0.0)
  {
    var k := Min(maxSpecies, |sp|);
    var front := Founders(sp, k);
    var built := front + Children(sp, k, shape, draws, ChildCount(k, maxSize));
    forall q | 0 <= q < k
      ensures Reproduce(sp, maxSize, maxSpecies, shape, draws)[q] == sp[q][0].(fitness := 0.0)
    {
      assert built[q] == front[q];
    }
  }

  lemma ReproduceChildren(sp: seq<seq<Individual>>, maxSize: nat, maxSpecies: nat, shape: Shape, draws: seq<ChildDraw>, c: nat)
    requires |sp| > 0 && (forall q :: 0 <= q < |sp| ==> |sp[q]| > 0) && SpeciesShaped(sp, shape)
    requires !(maxSpecies == 0 && maxSize > 0)
    requires |draws| >= maxSize && forall c :: 0 <= c < |draws| ==> ValidChildDraw(shape, draws[c])
    requires Min(maxSpecies, |sp|) + c < maxSize
    ensures var k := Min(maxSpecies, |sp|);
      c < ChildCount(k, maxSize) &&
      Reproduce(sp, maxSize, maxSpecies, shape, draws)[k + c] == Children(sp, k, shape, draws, ChildCount(k, maxSize))[c].(fitness := 0.0)
  {
    var k := Min(maxSpecies, |sp|);
    ReproduceParts(sp, maxSize, maxSpecies, shape, draws);
    ResetAfter(Founders(sp, k), Children(sp, k, shape, draws, ChildCount(k, maxSize)), c);
  }

  /**
   * Elitism: the first min(max_species, #species) individuals are the species
   * founders of the sorted population, in order, with their weights unchanged.
   */
  lemma NextGenerationFounders(xs: seq<Individual>, maxSize: nat, maxSpecies: nat, shape: Shape, draws: seq<ChildDraw>)
    requires |xs| > 0 && !(maxSpecies == 0 && maxSize > 0)
    requires Shaped(xs, shape)
    requires |draws| >= maxSize && forall c :: 0 <= c < |draws| ==> ValidChildDraw(shape, draws[c])
    ensures var sp := Species(SortDesc(xs));
      var r := NextGeneration(xs, maxSize, maxSpecies, shape, draws);
      forall q :: 0 <= q < Min(maxSpecies, |sp|) ==> |sp[q]| > 0 && r[q] == sp[q][0].(fitness := 0.0)
  {
    SortDescShaped(xs, shape);
    SpeciesOfShaped(SortDesc(xs), shape);
    ReproduceFounders(Species(SortDesc(xs)), maxSize, maxSpecies, shape, draws);
  }

  /**
   * The c-th child after the founders is the parent drawn from species
   * c mod min(#species, max_species), mutated by the c-th draw's mutations,
   * with its fitness reset.
   */
  lemma NextGenerationChildren(xs: seq<Individual>, maxSize: nat, maxSpecies: nat, shape: Shape, draws: seq<ChildDraw>, c: nat)
    requires |xs| > 0 && !(maxSpecies == 0 && maxSize > 0)
    requires Shaped(xs, shape)
    requires |draws| >= maxSize && forall c :: 0 <= c < |draws| ==> ValidChildDraw(shape, draws[c])
    requires Min(maxSpecies, |Species(SortDesc(xs))|) + c < maxSize
    ensures var sp := Species(SortDesc(xs));
      var k := Min(maxSpecies, |sp|);
      var r := NextGeneration(xs, maxSize, maxSpecies, shape, draws);
      0 < k && |sp[c % k]| > 0 && Shaped(sp[c % k], shape) &&
      r[k + c] == Offspring(sp[c % k], shape, draws[c]).(fitness := 0.0)
  {
    SortDescShaped(xs, shape);
    SpeciesOfShaped(SortDesc(xs), shape);
    var sp := Species(SortDesc(xs));
    var k := Min(maxSpecies, |sp|);
    ReproduceChildren(sp, maxSize, maxSpecies, shape, draws, c);
    ChildAt(sp, k, shape, draws, ChildCount(k, maxSize), c);
  }

  /**
   * When max_species >= 1, the first individual of the next generation is the
   * first of the fittest individuals before the call, with its weights intact.
   */
  lemma ChampionSurvives(xs: seq<Individual>, maxSize: nat, maxSpecies: nat, shape: Shape, draws: seq<ChildDraw>, i: nat)
    requires FirstFittest(xs, i) && maxSpecies >= 1
    requires Shaped(xs, shape)
    requires |draws| >= maxSize && forall c :: 0 <= c < |draws| ==> ValidChildDraw(shape, draws[c])
    ensures |NextGeneration(xs, maxSize, maxSpecies, shape, draws)| > 0
    ensures NextGeneration(xs, maxSize, maxSpecies, shape, draws)[0] == xs[i].(fitness := 0.0)
  {
    SortDescHead(xs, i);
    SpeciesNonEmpty(SortDesc(xs));
    NextGenerationFounders(xs, maxSize, maxSpecies, shape, draws);
  }

  /** When max_species does not exceed max_size the next generation has exactly max_size individuals. */
  lemma NextGenerationSize(xs: seq<Individual>, maxSize: nat, maxSpecies: nat, shape: Shape, draws: seq<ChildDraw>)
    requires |xs| > 0 && 0 < maxSpecies <= maxSize
    requires Shaped(xs, shape)
    requires |draws| >= maxSize && forall c :: 0 <= c < |draws| ==> ValidChildDraw(shape, draws[c])
    ensures |NextGeneration(xs, maxSize, maxSpecies, shape, draws)| == maxSize
  {
  }

  /**
   * The parent is at least as fit as both members drawn, and lies in the
   * species: on a species sorted fittest first, min(r1, r2) favours the fitter.
   */
  lemma ParentFitter(specie: seq<Individual>, d: ChildDraw)
    requires |specie| > 0 && Descending(specie)
    ensures Parent(specie, d) in specie
    ensures Parent(specie, d).fitness >= specie[d.first % |specie|].fitness
    ensures Parent(specie, d).fitness >= specie[d.second % |specie|].fitness
  {
  }

  /** The species evolve draws parents from are each sorted fittest first. */
  lemma SpeciesOfSortedDescending(xs: seq<Individual>)
    requires |xs| > 0
    ensures forall q :: 0 <= q < |Species(SortDesc(xs))| ==> Descending(Species(SortDesc(xs))[q])
  {
    SortDescDescending(xs);
    SpeciesSorted(SortDesc(xs));
  }

  // ---------------------------------------------------------------------------
  // The population itself

  /** Clones a parent out of the species and mutates it as many times as drawn. */
  method Breed(specie: seq<Individual>, shape: Shape, d: ChildDraw) returns (child: Individual)
    requires |specie| > 0 && Shaped(specie, shape) && ValidChildDraw(shape, d)
    ensures child == Offspring(specie, shape, d)
  {
    var r1 := d.first % |specie|;
    var r2 := d.second % |specie|;
    child := specie[Min(r1, r2)];
    var parent := child;
    for m := 0 to |d.mutations|
      invariant WellShaped(child, shape)
      invariant child == ApplyMutations(parent, shape, d.mutations[..m])
    {
      ApplyMutationsStep(parent, shape, d.mutations, m);
      child := Mutate(child, shape, d.mutations[m]);
    }
    assert d.mutations[..|d.mutations|] == d.mutations;
  }

  /** The founders of the first max_species species, in order (take, then map to [0]). */
  method TakeFounders(species: seq<seq<Individual>>, maxSpecies: nat) returns (founders: seq<Individual>)
    requires forall q :: 0 <= q < |species| ==> |species[q]| > 0
    ensures founders == Founders(species, Min(maxSpecies, |species|))
  {
    founders := [];
    var q := 0;
    while q < |species| && q < maxSpecies
      invariant 0 <= q <= Min(maxSpecies, |species|)
      invariant founders == Founders(species, q)
    {
      founders := founders + [species[q][0]];
      q := q + 1;
    }
  }

  /**
   * The while loop of evolve: appends offspring, round-robin over the first
   * min(#species, max_species) species, until there are max_size individuals.
   * It stops at the first iteration with a remainder by zero when there are
   * no species to take from, which the flag reports.
   */
  method FillUp(species: seq<seq<Individual>>, founders: seq<Individual>, maxSize: nat, maxSpecies: nat,
                shape: Shape, draws: seq<ChildDraw>) returns (next: seq<Individual>, remainderByZero: bool)
    requires |species| > 0 && forall q :: 0 <= q < |species| ==> |species[q]| > 0
    requires SpeciesShaped(species, shape)
    requires founders == Founders(species, Min(maxSpecies, |species|))
    requires |draws| >= maxSize && forall c :: 0 <= c < |draws| ==> ValidChildDraw(shape, draws[c])
    ensures remainderByZero <==> maxSpecies == 0 && maxSize > 0
    ensures !remainderByZero ==>
      var k := Min(maxSpecies, |species|);
      next == founders + Children(species, k, shape, draws, ChildCount(k, maxSize))
  {
    var k := |founders|;
    next := founders;
    var i := 0;
    while |next| < maxSize
      invariant |next| == k + i && (i == 0 || |next| <= maxSize)
      invariant k == 0 ==> i == 0
      invariant next == founders + Children(species, k, shape, draws, i)
      decreases maxSize - |next|
    {
      var n := Min(|species|, maxSpecies);
      if n == 0 {
        return next, true;
      }
      var child := Breed(species[i % n], shape, draws[i]);
      ChildrenAppend(species, k, shape, draws, i);
      ghost var before := Children(species, k, shape, draws, i);
      assert next + [child] == founders + (before + [child]);
      next := next + [child];
      i := i + 1;
    }
    assert i == ChildCount(k, maxSize);
    remainderByZero := false;
  }

  /** Sets every fitness back to zero, one individual at a time. */
  method ZeroFitness(xs: seq<Individual>) returns (r: seq<Individual>)
    ensures r == ResetFitness(xs)
  {
    r := xs;
    for j := 0 to |xs|
      invariant |r| == |xs|
      invariant forall p :: 0 <= p < j ==> r[p] == xs[p].(fitness := 0.0)
      invariant forall p :: j <= p < |xs| ==> r[p] == xs[p]
    {
      r := r[j := r[j].(fitness := 0.0)];
    }
  }

  class Population {
    var individuals: seq<Individual>
    const maxSize: nat
    const maxSpecies: nat
    const shape: Shape

    ghost predicate Valid()
      reads this
    {
      NonEmptySlots(shape) && Shaped(individuals, shape)
    }

    /** new: max_size fresh random individuals, each drawn by new_random. */
    constructor (maxSize: nat, maxSpecies: nat, shape: Shape, draws: seq<GenomeDraws>)
      requires NonEmptySlots(shape) && |draws| >= maxSize
      requires forall i :: 0 <= i < |draws| ==> GenomeDrawsFit(draws[i], shape)
      ensures this.maxSize == maxSize && this.maxSpecies == maxSpecies && this.shape == shape
      ensures |individuals| == maxSize
      ensures forall i :: 0 <= i < maxSize ==>
        WellShaped(individuals[i], shape) && individuals[i].fitness == 0.0 && InitialWeights(individuals[i]) &&
        individuals[i].input == FromDraws(draws[i].input) && individuals[i].output == FromDraws(draws[i].output) &&
        individuals[i].hidden == HiddenFromDraws(draws[i])
      ensures Valid()
    {
      var xs: seq<Individual> := [];
      for i := 0 to maxSize
        invariant |xs| == i
        invariant forall q :: 0 <= q < i ==>
          WellShaped(xs[q], shape) && xs[q].fitness == 0.0 && InitialWeights(xs[q]) &&
          xs[q].input == FromDraws(draws[q].input) && xs[q].output == FromDraws(draws[q].output) &&
          xs[q].hidden == HiddenFromDraws(draws[q])
      {
        var x := NewRandom(shape, draws[i]);
        xs := xs + [x];
      }
      this.maxSize := maxSize;
      this.maxSpecies := maxSpecies;
      this.shape := shape;
      individuals := xs;
    }

    /**
     * The stable sort by descending fitness, here by insertion: each element
     * goes after every element before it that is at least as fit.
     */
    method SortByFitness()
      modifies this
      ensures individuals == SortDesc(old(individuals))
    {
      var xs := individuals;
      var s := xs;
      var i := 0;
      while i < |xs|
        invariant 0 <= i <= |xs| && |s| == |xs|
        invariant s[..i] == SortDesc(xs[..i])
        invariant s[i..] == xs[i..]
      {
        var x := s[i];
        var p := 0;
        while p < i && s[p].fitness >= x.fitness
          invariant 0 <= p <= i
          invariant forall q :: 0 <= q < p ==> s[q].fitness >= x.fitness
        {
          p := p + 1;
        }
        InsertionStep(xs, s, i, p);
        s := s[..p] + [x] + s[p..i] + s[i + 1..];
        i := i + 1;
      }
      assert s == s[..|xs|] && xs[..|xs|] == xs;
      individuals := s;
    }

    /** speciate: first-match clustering of the individuals, in order. */
    method Speciate() returns (species: seq<seq<Individual>>)
      requires |individuals| > 0
      ensures species == Species(individuals)
    {
      var xs := individuals;
      MembersFirst(xs);
      species := [[xs[0]]];
      ghost var gs: seq<seq<nat>> := [[0]];
      var j := 1;
      while j < |xs|
        invariant 1 <= j <= |xs|
        invariant gs == Groups(xs, j)
        invariant Indexed(gs, |xs|)
        invariant species == Members(xs, gs)
      {
        var k := 0;
        while k < |species| && !Joins(species[k][0], xs[j])
          invariant 0 <= k <= |species|
          invariant FirstMatch(xs, gs, j, k) == FirstMatch(xs, gs, j, 0)
        {
          k := k + 1;
        }
        MembersPlace(xs, gs, j);
        if k < |species| {
          species := species[k := species[k] + [xs[j]]];
        } else {
          species := species + [[xs[j]]];
        }
        gs := Place(xs, gs, j);
        j := j + 1;
      }
    }

    /**
     * evolve: the next generation replaces the individuals, or the call
     * panics, after the sort, on an empty population or on a remainder by
     * zero when max_species is 0 and max_size is not.
     */
    method Evolve(draws: seq<ChildDraw>) returns (outcome: Outcome)
      requires Valid()
      requires |draws| >= maxSize && forall c :: 0 <= c < |draws| ==> ValidChildDraw(shape, draws[c])
      modifies this
      ensures Valid()
      ensures outcome == (if |old(individuals)| == 0 then Panicked(EmptyPopulation)
                          else if maxSpecies == 0 && maxSize > 0 then Panicked(RemainderByZero)
                          else Evolved)
      ensures outcome.Panicked? ==> individuals == SortDesc(old(individuals))
      ensures outcome == Evolved ==> individuals == NextGeneration(old(individuals), maxSize, maxSpecies, shape, draws)
    {
      SortDescShaped(individuals, shape);
      SortByFitness();
      if |individuals| == 0 {
        return Panicked(EmptyPopulation);
      }
      var species := Speciate();
      SpeciesOfShaped(individuals, shape);

      var next := TakeFounders(species, maxSpecies);
      var remainderByZero;
      next, remainderByZero := FillUp(species, next, maxSize, maxSpecies, shape, draws);
      if remainderByZero {
        return Panicked(RemainderByZero);
      }
      next := ZeroFitness(next);
      individuals := next;
      return Evolved;
    }
  }
}
