/**
 The demand-driven engine of src/lib.rs.

 `Fire` evaluates a neuron on request: a hidden neuron is looked up in the
 cortex first and, when absent, computed by recursively firing the hidden
 neurons it reads and then stored in the cortex; an output neuron is computed
 the same way but never stored. The potential starts at zero (the bias is
 never read) and the result is `tanh` of it, so this engine follows the
 `Squashed(tanh)` policy; `tanh` itself is a parameter.

 The cortex is passed in and returned instead of being mutated in place.
 `Fire` is specified against a ghost map `all` that solves the network
 equations (`Solves`); by `SolutionUnique` that map is exactly the values
 of the hidden neurons, which `Output` uses to state its result.
 */
module Lib {
  import opened Sums
  import opened Neurons

  /** `Network` has the same shape as an organism: hidden neurons by id and the output layer. */
  type Network = Organism

  /** Which neuron to fire: a hidden neuron by id, or an output neuron itself. */
  datatype NeuronEnum = HiddenId(id: nat) | OutputNeuron(neuron: Neuron)

  /** Adds the term of connection `j`, whose neuron fired `yj`, to the hidden sum over the
      remaining connections: the result is the hidden sum over all of `w`. */
  method AddHidden(rest: real, yj: real, w: map<nat, real>, j: nat, ghost all: map<nat, real>) returns (s: real)
    requires j in w && j in all && all[j] == yj
    requires rest == Sum(HiddenTerms(w - {j}, all))
    ensures s == Sum(HiddenTerms(w, all))
  {
    var t := HiddenTerms(w, all);
    HiddenTermAt(w, all, j, yj);
    SumRemove(t, j);
    var u := HiddenTerms(w - {j}, all);
    assert (t - {j}).Keys == u.Keys;
    assert forall k :: k in u ==> (t - {j})[k] == u[k];
    assert t - {j} == u;
    s := yj * w[j] + rest;
  }

  /** The dependencies of a hidden neuron are hidden neurons of smaller depth. */
  lemma DepsShallower(hidden: map<nat, Neuron>, id: nat)
    requires Acyclic(hidden) && Closed(hidden) && id in hidden
    ensures forall j :: j in hidden[id].hidden ==> j in hidden && 2 * Depth(hidden, j) + 2 < 2 * Depth(hidden, id) + 1
  {
    forall j | j in hidden[id].hidden
      ensures j in hidden && Depth(hidden, j) < Depth(hidden, id)
    {
      assert DependsOn(hidden, id, j);
    }
  }

  /** Storing the signal `all` gives a neuron keeps the cortex in agreement and keeps every
      existing entry. */
  lemma AgreesInsert(cortex: map<nat, real>, cortex': map<nat, real>, all: map<nat, real>, id: nat)
    requires Agrees(cortex', all) && id in all && id !in cortex
    requires forall k :: k in cortex ==> k in cortex' && cortex'[k] == cortex[k]
    ensures Agrees(cortex'[id := all[id]], all)
    ensures forall k :: k in cortex ==> k in cortex'[id := all[id]] && cortex'[id := all[id]][k] == cortex[k]
  {
  }

  /** Fires `r` with memoisation in the cortex, given the solution `all` of the network
      equations. A cached hidden neuron returns its cached value and leaves the cortex
      alone; otherwise a hidden neuron's result is its signal in `all` and is stored under
      its id, an output neuron's result is `tanh` of its potential against `all`, and no
      existing entry of the cortex changes. */
  method Fire(r: NeuronEnum, xs: seq<real>, hidden: map<nat, Neuron>, cortex: map<nat, real>, tanh: real -> real,
              ghost all: map<nat, real>)
    returns (y: real, cortex': map<nat, real>)
    requires Acyclic(hidden) && Closed(hidden)
    requires Solves(Squashed(tanh), hidden, xs, all)
    requires Agrees(cortex, all)
    requires r.HiddenId? ==> r.id in cortex || r.id in hidden
    requires r.OutputNeuron? ==> RefersInto(r.neuron, hidden)
    ensures Agrees(cortex', all) && cortex'.Keys <= hidden.Keys
    ensures forall k :: k in cortex ==> k in cortex' && cortex'[k] == cortex[k]
    ensures r.HiddenId? && r.id in cortex ==> y == cortex[r.id] && cortex' == cortex
    ensures r.HiddenId? ==> r.id in cortex' && cortex'[r.id] == y && y == all[r.id]
    ensures r.OutputNeuron? ==> y == tanh(Potential(Squashed(tanh), r.neuron, xs, all))
    decreases if r.OutputNeuron? then 1 else 0, if r.HiddenId? && r.id in hidden then 2 * Depth(hidden, r.id) + 2 else 1, 0
  {
    if r.HiddenId? && r.id in cortex {
      return cortex[r.id], cortex;
    }
    var neuron := if r.OutputNeuron? then r.neuron else hidden[r.id];
    ghost var bound := if r.HiddenId? then 2 * Depth(hidden, r.id) + 1 else 0;
    if r.HiddenId? {
      DepsShallower(hidden, r.id);
    }

    var potential := 0.0;
    var inputs := SumInputs(neuron.input, xs);
    var hiddenSum;
    hiddenSum, cortex' := FireDependencies(neuron.hidden, xs, hidden, cortex, tanh, all, r.OutputNeuron?, bound);
    potential := potential + inputs + hiddenSum;
    assert potential == Potential(Squashed(tanh), neuron, xs, all);
    y := tanh(potential);

    if r.HiddenId? {
      assert FiresTo(Squashed(tanh), hidden, xs, all, r.id);
      assert y == all[r.id];
      AgreesInsert(cortex, cortex', all, r.id);
      cortex' := cortex'[r.id := y];
    }
  }

  /** The hidden-connection loop of `fire`: fires every hidden neuron that `w` connects to,
      one at a time in the unspecified order of the map, and accumulates value times weight.
      The result is the hidden part of the potential against `all`, and the cortex only
      gains entries that agree with `all`. `output` and `bound` carry the termination measure
      of the neuron whose connections these are: an output neuron, or a hidden neuron of
      depth d with `bound == 2 * d + 1`, all of whose dependencies are shallower. */
  method FireDependencies(w: map<nat, real>, xs: seq<real>, hidden: map<nat, Neuron>, cortex: map<nat, real>,
                          tanh: real -> real, ghost all: map<nat, real>, ghost output: bool, ghost bound: nat)
    returns (s: real, cortex': map<nat, real>)
    requires Acyclic(hidden) && Closed(hidden)
    requires Solves(Squashed(tanh), hidden, xs, all)
    requires Agrees(cortex, all)
    requires forall j :: j in w ==> j in hidden
    requires !output ==> forall j :: j in w ==> 2 * Depth(hidden, j) + 2 < bound
    ensures Agrees(cortex', all)
    ensures forall k :: k in cortex ==> k in cortex' && cortex'[k] == cortex[k]
    ensures s == Sum(HiddenTerms(w, all))
    decreases if output then 1 else 0, bound, |w|
  {
    if w == map[] {
      SumEmpty(HiddenTerms(w, all));
      return 0.0, cortex;
    }
    var j :| j in w;
    var yj, cortex1 := Fire(HiddenId(j), xs, hidden, cortex, tanh, all);
    var rest;
    rest, cortex' := FireDependencies(w - {j}, xs, hidden, cortex1, tanh, all, output, bound);
    s := AddHidden(rest, yj, w, j, all);
  }

  /** `output`: fires every output neuron in order against one shared cortex. The vector has
      one entry per output neuron, each that neuron's value, and the returned cortex holds
      only correct values of hidden neurons. */
  method Output(network: Network, xs: seq<real>, tanh: real -> real)
    returns (cortex: map<nat, real>, ys: seq<real>)
    requires Acyclic(network.hidden) && Closed(network.hidden)
    requires forall k :: 0 <= k < |network.outputs| ==> RefersInto(network.outputs[k], network.hidden)
    ensures |ys| == |network.outputs|
    ensures forall k :: 0 <= k < |ys| ==> ys[k] == OutputValue(Squashed(tanh), network.hidden, xs, network.outputs[k])
    ensures Consistent(Squashed(tanh), network.hidden, xs, cortex)
  {
    ghost var all := AllValues(Squashed(tanh), network.hidden, xs);
    AllValuesSolve(Squashed(tanh), network.hidden, xs);
    cortex := map[];
    ys := [];
    var k := 0;
    while k < |network.outputs|
      invariant k <= |network.outputs| && |ys| == k
      invariant Agrees(cortex, all)
      invariant forall q :: 0 <= q < k ==> ys[q] == OutputValue(Squashed(tanh), network.hidden, xs, network.outputs[q])
    {
      var y;
      y, cortex := Fire(OutputNeuron(network.outputs[k]), xs, network.hidden, cortex, tanh, all);
      ys := ys + [y];
      k := k + 1;
    }
  }
}
