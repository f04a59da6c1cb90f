# copperhorn in Dafny

A Dafny model of the two evaluators of sparse neural networks in the
copperhorn repository, with proofs that both compute the values that a
recursive, denotational definition assigns to an acyclic network.

A neuron has a bias, sparse input weights (input index to weight) and sparse
hidden weights (hidden neuron id to weight). An organism (a `Network` in
`src/lib.rs`) holds addressable hidden neurons keyed by id, plus an ordered
output layer. Scalars are `real` and ids and indices are `nat`.

- **Sums** (`sums.dfy`): the sum of a finite map's values, defined so that
  it does not depend on the order of the keys. Both engines add up terms
  while iterating a `HashMap` in an unspecified order. Every loop over a map
  picks its next key nondeterministically (`var k :| k in todo`), so each
  contract below holds for every iteration order.
- **Neurons** (`neurons.dfy`): the shared data model and the meaning of a
  network. A `Policy` says whether the bias enters the potential and which
  activation is applied:
  - `src/copperhorn.rs` uses the bias and no activation (`Linear`);
  - `src/lib.rs` ignores the bias and applies `tanh` (`Squashed`).

  `Linear` and `Squashed` are definitions of the two policies, not
  properties. What each engine does with the bias and the activation is
  stated by `Copperhorn.Fire`, `Lib.Fire` and `Neurons.BiasNeverRead`.

  `Value(p, g, xs, id)` is the recursive value of hidden neuron `id`. It is
  defined when `g` is acyclic, which here means some ranking of the neurons
  strictly decreases along every hidden connection. `Solves` states the
  network equations, and `SolutionUnique` proves that on an acyclic network
  their one solution is the map of all values.
- **Copperhorn** (`copperhorn.dfy`): the topological-order engine of
  `src/copperhorn.rs`.
  - `Fire` is `Neuron::fire`.
  - `Visit` and `TopSort` are the depth-first post-order sort.
  - `FireHidden` and `Act` are `Organism::act`: fire the hidden neurons in
    topological order into a cache, then fire the output layer from the
    cache.
- **Lib** (`lib.dfy`): the demand-driven, memoised engine of `src/lib.rs`.
  - `Fire` looks a hidden neuron up in the cortex or computes and stores it.
    It computes output neurons without storing them.
  - `FireDependencies` is `fire`'s loop over the hidden connections.
  - `Output` fires the output layer against one shared cortex.
  - The cortex is passed in and returned rather than mutated.

`tanh` is not defined here. It is a parameter `tanh: real -> real` of the lib
engine, so every property holds for any activation function.

Several lines of `src/copperhorn.rs` do not compile as written:
- `top_sort` iterates the graph itself (lines 100-101), which yields
  `(id, neuron)` pairs rather than ids, and then dereferences the pair;
- `visit` passes the id `i` by value where `visited.contains` and `graph.get`
  expect a reference (lines 114-115);
- `visit` inserts and pushes `*j` (lines 119-120), after the loop that binds
  `j` has ended;
- `act` stores `*i` in the cache (line 78), dereferencing the id that
  `top_sort` hands out by value (line 76).

The evident intent is that:
- `top_sort` visits every key of the graph;
- `visit` looks up and marks the node it was called with, `i`, and pushes
  `i` with its neuron;
- `act` stores each firing under its id.

The model implements that intent and reads each of these lines that way.
There is no as-written behaviour to compare with, so these are not listed as
findings.

## Model

| member | source | states |
|---|---|---|
| Neurons.Neuron | src/copperhorn.rs:18-22 | a neuron is a bias, sparse input weights by input index and sparse hidden weights by hidden id; the same three fields as src/lib.rs:15-19 |
| Neurons.Organism | src/copperhorn.rs:43 | an organism is the hidden neurons keyed by id plus the output layer in order |
| Lib.Network | src/lib.rs:8-11 | a network has the shape of an organism: hidden neurons keyed by id plus the ordered output neurons |
| Lib.NeuronEnum | src/lib.rs:21-24 | `fire` is asked for either a hidden neuron by id or an output neuron given directly |
| Sums.SumRemove | src/copperhorn.rs:28-37 | any key of a map may be added first, so a sum accumulated over a hash map does not depend on the iteration order |
| Neurons.SumInputs | src/copperhorn.rs:28-32 | the input loop, taken in any order, yields the order-free sum over every input connection of input times weight, with an index outside `xs` contributing nothing (the same loop is src/lib.rs:63-67) |
| Neurons.EmptyNeuronPotential | src/copperhorn.rs:26-38 | a neuron with no input and no hidden connections has exactly its bias as potential (0 when the policy ignores the bias) |
| Neurons.OutOfRangeInputIgnored | src/copperhorn.rs:28-32 | an input connection whose index is at least the input length changes nothing: the potential equals that of the neuron without the connection |
| Neurons.AbsentHiddenIgnored | src/copperhorn.rs:33-37 | a hidden connection to an id that has no cached signal changes nothing: the potential equals that of the neuron without the connection |
| Neurons.PotentialAgrees | src/copperhorn.rs:33-37 | only the signals of the ids a neuron connects to affect its potential |
| Neurons.ValueUnfold | src/lib.rs:69-74 | a hidden neuron's value is the activation of its potential against the values of all hidden neurons |
| Neurons.ConsistentInsert | src/copperhorn.rs:78 | storing a neuron's correct value keeps a cache of correct values correct |
| Neurons.AllValuesSolve | src/lib.rs:69-74 | the values of an acyclic network satisfy every neuron's firing equation |
| Neurons.SolutionValue | src/lib.rs:69-80 | any solution of the firing equations gives every hidden neuron its recursive value (induction on depth) |
| Neurons.SolutionUnique | src/lib.rs:69-80 | on an acyclic network a map solves the firing equations if and only if it is the map of all values |
| Neurons.BiasNeverRead | src/lib.rs:61 | under the lib policy the biases of the hidden neurons do not matter: replacing any of them leaves every value unchanged |
| Neurons.ZeroBiasPoliciesAgree | src/copperhorn.rs:26-39 | when every bias is zero, the copperhorn value of a neuron equals its lib value with the identity as activation |
| Copperhorn.Fire | src/copperhorn.rs:26-39 | firing returns the bias plus the order-free sums of in-range input times weight and of cached hidden signal times weight, with no activation; a neuron without connections returns its bias |
| Copperhorn.ChildVisited | src/copperhorn.rs:116-118 | visiting a dependency pushes only neurons shallower than the current one, so the current neuron is still unvisited afterwards |
| Copperhorn.PushDepsFirst | src/copperhorn.rs:119-120 | pushing a neuron whose dependencies are already on the stack keeps every dependency ahead of its dependents |
| Copperhorn.PushSound | src/copperhorn.rs:119-120 | marking and pushing an unvisited neuron whose dependencies are all visited keeps the stack duplicate-free, made of the graph's own neurons, dependency-first, and equal to the visited set |
| Copperhorn.Visit | src/copperhorn.rs:108-123 | `visit` keeps the visited set equal to the ids on the stack and the stack duplicate-free and dependency-first; it only extends the stack; a visited id or an id outside the graph changes nothing; afterwards the id is visited and only neurons no deeper than it were pushed |
| Copperhorn.DistinctCount | src/copperhorn.rs:97-104 | a stack without repeated ids has as many distinct ids as entries |
| Copperhorn.TopSort | src/copperhorn.rs:97-104 | the sort returns every key of the graph exactly once, each paired with the graph's own neuron, with every dependency that is a key placed strictly before its dependent |
| Copperhorn.DepsCached | src/copperhorn.rs:76-78 | when the k-th neuron of a topological order fires, every dependency of it that is a key of the graph is already cached |
| Copperhorn.FiredInOrder | src/copperhorn.rs:76-78 | the k-th neuron of a topological order, fired against the cache of the first k, yields its recursive value |
| Copperhorn.CacheStep | src/copperhorn.rs:76-79 | storing that firing under its id keeps the cache correct and covering exactly the first k + 1 ids of the order |
| Copperhorn.FireHidden | src/copperhorn.rs:71-79 | after the hidden pass the cache has exactly the hidden ids as keys, each mapped to its recursive value |
| Copperhorn.Act | src/copperhorn.rs:69-91 | `act` returns one entry per output neuron, in order, each that neuron's firing against the values of all hidden neurons |
| Lib.AddHidden | src/lib.rs:69-72 | adding the fired signal of one more connection times its weight extends the hidden part of the potential by that connection |
| Lib.DepsShallower | src/lib.rs:69-71 | the recursive firing of a hidden neuron's connections only reaches existing, shallower hidden neurons, so the recursion terminates on an acyclic network |
| Lib.AgreesInsert | src/lib.rs:76-82 | storing a hidden neuron's correct value keeps the cortex correct and leaves every existing entry unchanged |
| Lib.FireDependencies | src/lib.rs:69-72 | firing the hidden connections in any order yields the order-free sum of signal times weight, and the cortex only gains correct entries and loses or changes none |
| Lib.Fire | src/lib.rs:47-83 | a cached hidden id returns its cached value and leaves the cortex unchanged; an uncached hidden id returns its value and stores it under its id; an output neuron returns `tanh` of its bias-free potential; in every case existing entries are kept and the cortex holds only correct values of hidden neurons |
| Lib.Output | src/lib.rs:27-44 | `output` returns one entry per output neuron, in order, each that neuron's value, and the returned cortex holds only correct values of hidden neurons |

## Left out

- `Organism::new` (src/copperhorn.rs:48-66) depends on entropy-seeded randomness from the `rand` crate.
- `f64` rounding and the numerics of `tanh`: sums are exact over `real`, and `tanh` is an arbitrary function parameter.
- Hash-map iteration order is not fixed: every loop over a map chooses its next key nondeterministically, so the results hold for every order.
- The `u32` and `usize` widths of ids and indices: they are `nat`, and neither engine does arithmetic on them, so no wrap-around is involved.
- Networks with cycles: `src/copperhorn.rs` recurses without bound on any cycle among the hidden neurons, because `top_sort` visits every key. `src/lib.rs` recurses without bound only on a cycle that the output layer reaches. Every evaluator here requires `Acyclic`.
- Lib.Output: `Acyclic` and `Closed` are required of the whole hidden network. The source needs them only on the hidden neurons reachable from the output layer (src/lib.rs:33-40, 69-71). A cycle, or a reference to a missing id, among unreachable neurons lets `output` return normally, but is outside this model.
- Copperhorn.Visit: the source has no in-progress mark, so on a cycle it recurses forever; the model requires an acyclic graph instead of modelling that divergence.
- Lib.Fire: a hidden id that is neither cached nor a key of the network panics at `unwrap` (src/lib.rs:57); the model requires every referenced id to exist (`Closed`, and the requires of `Fire` on the fired neuron) instead of modelling the panic.
- Lib.Fire: the contract does not say which ids the cortex gains; that is the set of uncached hidden neurons reachable from the fired neuron.
- Lib.Output: the returned cortex is stated to hold only correct values of hidden neurons; which ids it holds (those reachable from the output layer) is not stated.
- Copperhorn.Act: that `act` does not mutate the organism holds by construction, since the organism is an immutable value; no contract states it.
- The parallel-firing TODOs and the empty test modules have no behaviour to model.
