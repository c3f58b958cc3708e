# Evolution-Rust in Dafny

A model of the neuro-evolution engine in `src/lib.rs` of Evolution-Rust, with proofs about it.

A **genome** (`Individual`) is a fixed-shape feed-forward network with four parts:
- an `INPUTS × SUBLAYERS` input matrix;
- `LAYERS` hidden matrices of size `SUBLAYERS × SUBLAYERS`;
- a `SUBLAYERS × OUTPUTS` output matrix;
- a fitness value, which the caller accumulates.

A **population** holds the genomes with `max_size` and `max_species`. Its `evolve` step does the following, in order:
1. Sorts the genomes by descending fitness, stably.
2. Clusters them into species in one greedy pass with threshold 0.5.
3. Keeps the founder of each of the first `max_species` species.
4. Fills up to `max_size` with mutated clones of parents. The parents are drawn round-robin over the kept species, biased toward fitter members.
5. Zeroes every fitness.

The model is split into six modules:

| file | module | what it holds |
|---|---|---|
| `sequences.dfy` | `Sequences` | `Min`, `Max`, `Range`, `Flatten`, three lemmas about `Flatten` (`FlattenAppend`, `FlattenGrowGroup`, `FlattenGrow`) and `PrefixMultiset` |
| `matrices.dfy` | `Matrices` | matrices as `seq<seq<real>>`; `matrix_similarity`, `random_matrix`, `mutate_matrix`, the row-vector product, `relu` and `sigmoid` |
| `individuals.dfy` | `Individuals` | the genome datatype; `similarity`, `mutate`, `evaluate`, `new_random` |
| `ranking.dfy` | `Ranking` | the stable descending sort that `evolve` applies, as a specification function (`SortDesc`) with its properties |
| `speciation.dfy` | `Speciation` | `speciate` as a specification function (`Species`), together with the invariant of its pass |
| `populations.dfy` | `Populations` | the `Population` class: `new`, the in-place sort, `speciate`, `evolve`; the next generation as a function (`NextGeneration`) and lemmas about it |

How the source is represented:
- **Individuals** are values: the Rust struct is `Clone`, and it is owned by value in the population's `Vec`.
- **The population** is a class whose `individuals` field the methods reassign.
- **The shape** is a `Shape` value (`inputs`, `layers`, `outputs`, `sublayers`). It stands for the const generic parameters and is a constant field of the population.
- **Weights** are `real`.
- **The random number generator** becomes choices the caller supplies. Their ranges are preconditions:
  - `CellDraw`: the coin of one `random_matrix` cell and the weight drawn when the coin comes up true;
  - `Mutation`: the slot, row, column and step of one `mutate`;
  - `ChildDraw`: the two parent positions and the list of mutations for one child of `evolve`.
- **The exponential** inside `sigmoid` is a parameter `exp`. The only thing assumed about it is that it is positive. `SigmoidDecreasing` also assumes it is increasing, and `SigmoidAtZero` and `EvaluateZeroWeightsHalf` assume exp(0) = 1.
- **The panics of `evolve`** are the `Panicked` outcome:
  - `EmptyPopulation`: `speciate` indexes `[0]`;
  - `RemainderByZero`: the round-robin takes `i % min(#species, max_species)`.

Two behaviours of `evolve` (src/lib.rs:184-205) differ from what one might expect, and the model follows the code:
- **Length after `evolve`.** One might expect at most `max_size` genomes. The code keeps `min(max_species, #species)` founders and then only adds children while there are fewer than `max_size`. The length is therefore `max(max_size, min(max_species, #species))`, which exceeds `max_size` when more species are kept than `max_size` allows. `NextGeneration` states the code's length. `NextGenerationSize` shows the result is exactly `max_size` whenever `1 <= max_species <= max_size`.
- **`max_species == 0`.** One might expect it to act as 1. The code divides by zero as soon as a child is needed, that is whenever `max_size > 0`. `Evolve` reports exactly that as `Panicked(RemainderByZero)`.

## Model

| member | source | states |
|---|---|---|
| Matrices.MatrixSimilarity | src/lib.rs:47-58 | the nested accumulator loop returns the sum over all cells of the squared difference of two same-shape matrices, which is never negative |
| Matrices.DistanceSymmetric | src/lib.rs:47-58 | matrix_similarity(a, b) == matrix_similarity(b, a) |
| Matrices.DistanceZeroIff | src/lib.rs:47-58 | for matrices of the same dimensions, the similarity is 0 exactly when the matrices are equal (both directions) |
| Matrices.DistanceSelf | src/lib.rs:47-58 | a matrix is at similarity 0 from itself |
| Matrices.Relu | src/lib.rs:60-62 | same length; positive entries pass unchanged and non-positive ones are halved; the sign of every entry is kept and no entry decreases |
| Matrices.ReluMonotone | src/lib.rs:60-62 | relu is monotone entrywise |
| Matrices.Sigmoid | src/lib.rs:64-66 | 1/(1+exp(x)) lies strictly between 0 and 1 for any positive exponential |
| Matrices.SigmoidAll | src/lib.rs:64-66 | sigmoid keeps the length and puts every entry strictly between 0 and 1 |
| Matrices.SigmoidDecreasing | src/lib.rs:64-66 | with an increasing exponential the activation strictly decreases in its argument (the inverted logistic) |
| Matrices.SigmoidAtZero | src/lib.rs:64-66 | with exp(0) = 1 the activation at 0 is exactly 0.5 |
| Matrices.RandomMatrix | src/lib.rs:68-82 | the zeroed matrix filled in nested loops has the requested dimensions and equals the matrix the coin and weight draws describe; every entry is exactly 0 or lies in [-1, 1]; a cell whose coin came up false stays 0 |
| Matrices.MutateMatrix | src/lib.rs:84-91 | with x < rows, y < cols and a step in [-0.1, 0.1], the mutated matrix keeps its dimensions |
| Matrices.MutateMatrixCells | src/lib.rs:84-91 | cell (x, y) grows by the step and every other cell is unchanged |
| Matrices.MutateMatrixDistance | src/lib.rs:84-91 | the mutated matrix lies at similarity exactly step² from the original |
| Matrices.TimesZero | src/lib.rs:96-101 | the product of any row vector with an all-zero matrix is the zero vector |
| Individuals.Similarity | src/lib.rs:103-112 | the sum of the input, hidden and output matrix similarities is never negative |
| Individuals.SimilaritySymmetric | src/lib.rs:103-112 | similarity is symmetric |
| Individuals.SimilarityZeroIff | src/lib.rs:103-112 | for two genomes of the same shape, similarity is 0 exactly when every matrix is equal (both directions); fitness plays no part |
| Individuals.SimilaritySelf | src/lib.rs:103-112 | a.similarity(a) == 0 |
| Individuals.Mutate | src/lib.rs:114-123 | for a slot l in [0, LAYERS+2) (0 the input matrix, LAYERS+1 the output matrix, otherwise hidden matrix l-1), a cell in range and a step in [-0.1, 0.1], the mutated genome keeps the shape and the fitness |
| Individuals.MutateCells | src/lib.rs:114-123 | that one cell of that one matrix grows by the step; every other cell of every matrix is unchanged |
| Individuals.SlotsNonEmpty | src/lib.rs:114-123 | for a shape with positive INPUTS, OUTPUTS and SUBLAYERS, every slot mutate can draw has at least one row and one column, so neither gen_range(0..INPUT) nor gen_range(0..OUTPUT) is over an empty range |
| Individuals.MutateSimilarity | src/lib.rs:114-123 | a mutated genome lies at similarity exactly step² from the original |
| Individuals.ApplyMutations | src/lib.rs:200-202 | any number of mutations keep the shape and the fitness |
| Individuals.Evaluate | src/lib.rs:96-101 | for inputs of length INPUTS, the forward pass returns OUTPUTS values, each strictly between 0 and 1 |
| Individuals.EvaluateIgnoresFitness | src/lib.rs:96-101 | evaluate does not depend on the fitness |
| Individuals.EvaluateZeroWeights | src/lib.rs:96-101 | with all-zero weights every output equals Sigmoid(0), whatever the inputs |
| Individuals.EvaluateZeroWeightsHalf | src/lib.rs:96-101 | with all-zero weights and exp(0) = 1 every output is 0.5 |
| Individuals.NewRandom | src/lib.rs:125-138 | the genome has the shape; its hidden matrices, then its input matrix, then its output matrix are the random matrices of the successive draws; every weight is 0 or in [-1, 1]; the fitness is 0 |
| Ranking.SortDescDescending | src/lib.rs:182-183 | after the sort the fitness values are non-increasing |
| Ranking.SortDescPermutation | src/lib.rs:182-183 | the sort is a permutation of its input |
| Ranking.SortDescStable | src/lib.rs:182-183 | the sort is stable: for each fitness value, the genomes with that value keep their relative order |
| Ranking.SortDescHead | src/lib.rs:182-183 | the first of the fittest genomes ends up first |
| Ranking.SortDescIdentity | src/lib.rs:182-183 | a list that is already fittest first is left as it is |
| Speciation.FirstMatch | src/lib.rs:170-173 | find returns the first species, in creation order, whose founder is at similarity below 0.5, or none; no earlier species' founder is |
| Speciation.GroupsClustered | src/lib.rs:167-179 | after each genome is placed, the following hold: every species is non-empty; position 0 founds the first species; positions increase within each species, and founders increase across species; each member is within 0.5 of its founder and at 0.5 or more from every earlier founder; every position lies in exactly one species, once |
| Speciation.SpeciesNonEmpty | src/lib.rs:167-168 | at least one species, none empty, and species[0][0] == individuals[0] |
| Speciation.SpeciesPartition | src/lib.rs:167-179 | the concatenation of all species is a permutation of the individuals |
| Speciation.SpeciesInInputOrder | src/lib.rs:169-177 | each species reads the individuals at strictly increasing positions (input order kept), and the positions of all species together partition the population |
| Speciation.SpeciesFirstMatch | src/lib.rs:170-176 | each non-founder is within 0.5 of its own founder and at 0.5 or more from the founder of every earlier species; each founder is at 0.5 or more from every earlier founder |
| Speciation.SpeciesSorted | src/lib.rs:164-179 | on a fitness-sorted population every species is fitness-sorted, so its founder is its fittest member, and the founders are in fitness order |
| Populations.Population.constructor | src/lib.rs:156-162 | for a shape with positive INPUTS, OUTPUTS and SUBLAYERS, new yields exactly max_size genomes, each the new_random genome of its draws: its hidden, input and output matrices are the random matrices those draws describe, fitness 0, every weight 0 or in [-1, 1], all of the population's shape |
| Populations.Population.SortByFitness | src/lib.rs:182-183 | the in-place sort leaves the individuals equal to the stable descending sort of the old ones |
| Populations.Population.Speciate | src/lib.rs:167-179 | the loop that pushes each genome into the first matching species or a new one returns exactly Species(individuals) |
| Populations.Population.Evolve | src/lib.rs:181-211 | the call panics exactly in two cases: with EmptyPopulation on an empty population, or with RemainderByZero when max_species == 0 and max_size > 0; the individuals are then left sorted. Otherwise the individuals become NextGeneration of the old ones. Every individual keeps the population's shape |
| Populations.Reproduce | src/lib.rs:184-210 | from any non-empty list of non-empty species of the population's shape, the new generation has length max(max_size, min(max_species, #species)), every fitness is 0, and every genome keeps the shape |
| Populations.ReproduceFounders | src/lib.rs:185-189 | position q < min(max_species, #species) of the new generation holds the founder of species q with fitness 0 |
| Populations.ReproduceChildren | src/lib.rs:191-205 | position k + c of the new generation, for k = min(max_species, #species) and k + c < max_size, holds the c-th child with fitness 0 |
| Populations.NextGeneration | src/lib.rs:181-211 | the next generation has length max(max_size, min(max_species, #species)), every fitness is 0, and every genome has the population's shape |
| Populations.NextGenerationFounders | src/lib.rs:186-190 | the first min(max_species, #species) genomes are the species founders of the sorted population, in order, with unchanged weights |
| Populations.ChampionSurvives | src/lib.rs:182-190 | with max_species >= 1, result[0] is the first genome of highest fitness before the call, weights unchanged, fitness 0 |
| Populations.NextGenerationChildren | src/lib.rs:192-205 | the c-th child is the parent drawn from species c mod min(#species, max_species), mutated by the c-th draw's 1 to 19 mutations, with fitness 0 |
| Populations.NextGenerationSize | src/lib.rs:192-193 | when 1 <= max_species <= max_size, the next generation has exactly max_size genomes |
| Populations.ParentFitter | src/lib.rs:194-198 | on a species sorted fittest first, the parent at min(r1, r2) belongs to the species and is at least as fit as both drawn members |
| Populations.SpeciesOfSortedDescending | src/lib.rs:182-185 | every species that evolve draws parents from is sorted fittest first |
| Populations.TakeFounders | src/lib.rs:186-190 | take(max_species).map(\|s\| s[0]) yields the first min(max_species, #species) founders, in order |
| Populations.Breed | src/lib.rs:194-202 | the clone of specie[min(r1 mod len, r2 mod len)] with the drawn mutations applied in order |
| Populations.FillUp | src/lib.rs:192-205 | the while loop panics exactly when max_species == 0 and max_size > 0. Otherwise it appends max_size - k children to the k founders, or none when k >= max_size, the c-th child coming from species c mod k |
| Populations.ResetFitness | src/lib.rs:207-209 | every fitness becomes 0 and every weight is kept |
| Populations.ZeroFitness | src/lib.rs:207-209 | the reset loop computes ResetFitness |

## Left out

- Serialisation (`serlialize_matricies` and the `Serialize` derives) is not modelled. It is library plumbing with no evolutionary logic.
- `Population::new_from_individuals` is not part of this model: it is not defined in `src/lib.rs`.
- The examples `examples/space_simulation.rs` and `examples/basic_demonstration.rs` are not modelled. They hold windowing, physics, file I/O and printing.
- Floating point is not modelled. Weights are exact reals, with no rounding, NaN or infinities. The sort key is compared as a real, so the NaN ordering of `total_cmp` does not arise.
- The exponential is a parameter. The model assumes only that it is positive, that it is increasing in `SigmoidDecreasing`, and that exp(0) = 1 in `SigmoidAtZero` and `EvaluateZeroWeightsHalf`.
- The random number generator's statistics are not modelled: neither the 25% density of `gen_bool(0.25)` nor the uniformity of the draws. Only the ranges of the draws are, as preconditions.
- The two parent positions of a child are supplied as any natural numbers and reduced modulo the species size. The caller cannot know the species sizes in advance, so this stands for `gen_range(0..len)`.
- `Matrices.MutateMatrix`, `Individuals.Mutate`: the Rust functions update a matrix in place through `&mut`. The model returns the updated value, which the caller assigns back. Genomes and matrices are never shared, so no aliasing is lost.
- `Populations.Population.SortByFitness`: sorts by insertion, while `sort_by` is a merge sort. Both are stable, and a stable sort's output is unique, so the result is the same.
- A shape with zero INPUTS, OUTPUTS or SUBLAYERS is excluded: the constructor requires, and `Population.Valid()` keeps, `NonEmptySlots(shape)`. For such a shape `mutate` panics whenever it draws a slot with no rows or no columns, since `gen_range(0..0)` panics (src/lib.rs:88-89). `evolve` still runs there when no child is needed. The model does not capture either behaviour for such shapes.
- nalgebra is not modelled. Matrix storage and the product are written directly over `seq<seq<real>>`.
