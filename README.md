# Prefetching proposal tree for one Metropolis chain

This project models `PosteriorTree`, the core of a prefetching sampler for a single
random-walk Metropolis chain (`src/tree.cpp`, declared in `include/tree.h`). A tree
covers every short future of the chain:

- Construction validates the node count `n`. It draws `n` jump offsets in index order
  and fills an index-addressed complete-binary-tree array. The root holds `x_t`. A
  right child (even index) starts from its parent's proposal. A left child (odd index)
  starts from its parent's current value. Every proposal is the node's current value
  plus its own offset.
- `evaluate` writes the log posterior of every proposal into its node.
- `draw` evaluates the tree and then walks it from the root. Each step applies the
  Metropolis rule with one log-uniform variate. On accept the index grows by 2; on
  reject it grows by 1. Each step emits one (value, density) pair.
- `get_thetas` and `get_proposals` return the node fields in index order.

## Layout

- `tree_spec.dfy`, module `TreeSpec`, holds the value-level laws. It has the
  `std::size_t` guard with its wrap-around (`SizeSub`, `RejectsNodeCount`) and the
  `Node` record. It has the parent law (`Parent`) and the law the constructor fills
  the tree by (`TreeLaw`). `ThetaAt` is an independent recursive definition of every
  node's value, followed down the path from the root. `EvaluateAll` says what
  evaluation does to the nodes.
- `walk_spec.dfy`, module `WalkSpec`, defines the walk as values. A `Cursor` is the
  loop state: index, current value and current density. `Step` is one Metropolis
  step. `Walk` is the sequence of cursors after each step. The lemmas give the
  per-step rule, the length bounds, the forced-accept and forced-reject runs, and
  the density/value coupling.
- `posterior_tree.dfy`, module `PosteriorTrees`, holds the class `PosteriorTree`.
  The class state matches `include/tree.h`:
  - `heap` is an `array<Node>` whose densities `Evaluate` writes in place;
  - `xDensity` and `target` are `const` fields, written once by the constructor and
    only read afterwards;
  - the ghost constants `rootValue` and `offsets` record what the tree was built
    from, and the object invariant `Valid()` ties the nodes to them through
    `TreeLaw`.

  The C++ constructor throws, so it is modelled as the static method `Create`.
  `Create` returns `InvalidArgument` exactly when the source throws. Otherwise it
  calls the Dafny constructor, which does the building.

The external collaborators are parameters:

- `posterior: real -> real` is the log posterior;
- `jump: nat -> real` gives the k-th jump offset drawn from the generator;
- `logU: nat -> real` gives the log of the k-th uniform variate drawn during the walk.

Doubles are `real`.

Three points of the code's behaviour are easy to misread, and the model keeps them as
written:

- The walk advances the index by +1 on reject and +2 on accept, not to the child indices
  `2i+1`/`2i+2`. The two agree only at the root.
- So `draw` emits between `(n+1)/2` and `n` pairs (`Draw`, `WalkLength`), not one pair
  per tree level. With `n = 3` and every step rejecting, it emits 3 pairs
  (`WalkAllReject`).
- Only parity is checked at construction. The model does not require `n = 2^L - 1`.

## Model

| member | source | states |
|---|---|---|
| TreeSpec.Node | include/tree.h:33-36 | one tree position: the chain state it assumes accepted, that state plus its offset, and the log density of the proposal |
| TreeSpec.SizeSub | src/tree.cpp:22 | unsigned `size_t` subtraction: the true difference when `a >= b`, and the difference plus 2^64 otherwise |
| TreeSpec.RejectsNodeCount | src/tree.cpp:22 | the constructor's guard `(n_procs - 1) % 2 != 0`, with the `size_t` wrap of `n_procs - 1` |
| TreeSpec.RejectsExactlyEven | src/tree.cpp:22-24 | the guard `(n_procs - 1) % 2 != 0` holds exactly for even `n`; `n = 0` is rejected, since `0 - 1` wraps to an odd value; an accepted `n` is at least 1 |
| PosteriorTrees.PosteriorTree.Valid | include/tree.h:40-42 | the object state: an odd node count, and nodes whose values and proposals obey the tree law for the root value and offsets the tree was built from |
| PosteriorTrees.PosteriorTree.Create | src/tree.cpp:10-28 | the result is `InvalidArgument` iff `n` is even (0 included); otherwise it is a fresh valid tree with `n` nodes, `x_density == e_t`, the given posterior, root value `x_t` and the offsets drawn |
| PosteriorTrees.PosteriorTree.constructor | src/tree.cpp:27-69 | for an accepted `n`: the heap holds exactly `n` nodes, in index order, obeying the tree law for `x_t` and the offsets; `x_density` and `target` are set from the arguments; densities are left unspecified |
| PosteriorTrees.PosteriorTree.DrawOffsets | src/tree.cpp:33-36 | exactly `n` offsets are drawn before any node is built, and offset `j` is the `j`-th draw |
| PosteriorTrees.PosteriorTree.Propagate | src/tree.cpp:38-61 | popping the offsets front to back yields as many (current, proposal) pairs as offsets, and the pairs obey the tree law: the root holds `x_t`, every proposal is its current value plus its own offset, and every node inherits by the index law |
| TreeSpec.Parent | src/tree.cpp:50-56 | the parent of `i >= 1` lies below `i`; `i` is its right child `2p+2` when even and its left child `2p+1` when odd |
| TreeSpec.TreeLaw | src/tree.cpp:38-60 | the law the constructor fills the tree by: equal lengths, the root holds `x_t`, every proposal is its current value plus its own offset, and every other node inherits its parent's proposal (even index) or current value (odd index) |
| TreeSpec.TreeLawExtend | src/tree.cpp:50-60 | appending the next node, whose current value is inherited by the index law and whose proposal adds the next offset, keeps the tree law |
| TreeSpec.TreeLawIsThetaAt | src/tree.cpp:39-60 | whenever the tree law holds, node `i`'s current value is the reference value `ThetaAt(i)` (the state reached along the root-to-`i` path) and its proposal is that value plus offset `i` |
| TreeSpec.ThetaTableObeysTreeLaw | src/tree.cpp:39-60 | conversely, the reference values obey the tree law for every size, so the law determines the tree uniquely |
| TreeSpec.ThreeNodeTree | src/tree.cpp:39-60 | for `n = 3`: current values `[x_t, x_t, x_t + d0]` and proposals `[x_t + d0, x_t + d1, x_t + d0 + d2]` |
| PosteriorTrees.PosteriorTree.GetThetas | src/tree.cpp:75-81 | returns every node's current value, in index order, one per node; it modifies nothing (`const` in include/tree.h:25) |
| PosteriorTrees.PosteriorTree.GetProposals | src/tree.cpp:86-92 | returns every node's proposal, in index order, one per node; it modifies nothing (`const` in include/tree.h:26) |
| TreeSpec.EvaluateAll | src/tree.cpp:101-107 | evaluation keeps the node count, every current value and every proposal, and leaves every node's density equal to the target at its proposal |
| TreeSpec.EvaluatedIsFixedPoint | src/tree.cpp:101-107 | evaluation leaves the nodes unchanged if and only if every density already equals the target at its proposal |
| TreeSpec.EvaluateIdempotent | src/tree.cpp:101-107 | evaluating twice gives the same nodes as evaluating once |
| PosteriorTrees.PosteriorTree.Evaluate | src/tree.cpp:101-107 | the heap becomes the evaluated nodes of the old heap, and the object invariant is kept |
| WalkSpec.Step | src/tree.cpp:139-154 | one step: accept iff `logu <= proposal_density - current_density`; on accept the index grows by 2 and the pair becomes the node's (proposal, proposal_density); on reject the index grows by 1 and the pair is unchanged |
| WalkSpec.Walk | src/tree.cpp:131-159 | the cursors after every step of the `draw` loop from a start cursor, one variate per step, until the index leaves the node array |
| WalkSpec.WalkStepAt | src/tree.cpp:131-158 | step `m` of the walk reads an in-range node and applies the step rule, with variate number `k + m`, to the cursor before it |
| WalkSpec.WalkStopsPastEnd | src/tree.cpp:131 | after the last step the index is past the end of the node array |
| WalkSpec.WalkFollowsStepRule | src/tree.cpp:125-159 | the whole walk, step by step: each step applies the step rule to the previous cursor (starting from the root's `(x, x_density)`) with one fresh variate, and the walk ends at the first index past the end |
| WalkSpec.WalkAppendStep | src/tree.cpp:156-158 | one more loop iteration appends that step's cursor to the walk so far, and its value and density to the two emitted sequences |
| WalkSpec.WalkLength | src/tree.cpp:125-159 | a walk from index `i` takes at least `(n - i + 1) / 2` steps (all accepting) and at most `n - i` (all rejecting) |
| WalkSpec.WalkKeepsDensityCoupling | src/tree.cpp:128-158 | if every node's density is the target at its proposal, and the start density is the target at the start value, then every emitted density is the target at its emitted value |
| WalkSpec.WalkAllReject | src/tree.cpp:149-154 | forced reject: if no variate passes against the start density, the walk visits every remaining index in turn and re-emits the start pair each time |
| WalkSpec.WalkAllAccept | src/tree.cpp:144-148 | forced accept: if no variate is positive and the densities never decrease along the visited indices, every step accepts; step `m` emits node `i + 2m`'s proposal and density, and the walk takes `(n - i + 1) / 2` steps |
| PosteriorTrees.PosteriorTree.Draw | src/tree.cpp:118-163 | evaluates the heap first; the emitted values and densities are those of the walk from the root's `(x, x_density)`; both have the same length, between `(n+1)/2` and `n`; if `x_density == target(x_t)`, every emitted density is the target at its emitted value |

## Left out

- Parallelism: the OpenMP parallel loop of `evaluate` is a sequential loop. Each iteration touches only its own node, so the result is the same.
- Randomness: `std::mt19937`, `normal_distribution` and `uniform_real_distribution` are replaced by the functions `jump` and `logU`. The model keeps the order in which offsets are used (index order) and uses one log-uniform per walk step. Sharing one generator between construction and the walk is not modelled.
- Floating point: doubles are exact reals. There is no rounding, NaN or infinity. The log of a uniform variate outside (0,1) is not modelled.
- Parent index: the source converts it to `float` and back. The model uses exact integer division. A `float` holds every integer up to 2^24 exactly, so the two agree unless a parent index exceeds 2^24, which takes more than 2^25 + 3 nodes.
- Index width: `ii + 2` in `draw` could wrap around as a `size_t` only in a heap of about 2^64 nodes. The model uses unbounded integers there.
- Unused `alpha`: `alpha = min(0, r)` in `draw` is never read. It is not modelled.
- Uninitialised densities: the C++ `Node` constructor leaves `proposal_density` uninitialised. The model stores the placeholder `0.0`, and no contract says anything about a density before `Evaluate`.
- Heap layout: nodes are values in array slots, not heap objects behind `unique_ptr`. No node is shared, so nothing is lost.
- Access: `evaluate` is private in C++. Dafny has no access control here. In the model, `Evaluate` is called only by `Draw`, before the walk.
- PosteriorTrees.PosteriorTree.constructor: requires an odd `n`, because it models only the part of the constructor that runs after the guard. The guard itself, and the thrown error, are modelled by `Create`.
- Sampler and helpers: reading the data file, the chain-growth loop and the posterior closure in `sampler.cpp`, the normal log-density in `src/dist.cpp`, and the demo in `driver.cpp` are not part of this model. `target` is an arbitrary function.
