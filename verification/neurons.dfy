/**
 The data model shared by both engines and the meaning of a network.

 A neuron holds a bias, sparse input weights (input index -> weight) and
 sparse hidden weights (hidden neuron id -> weight); an absent key means
 "no connection". An organism owns a map of addressable hidden neurons and
 an ordered sequence of unaddressable output neurons. Scalars are `real`:
 sums are exact here, where the program works in `f64`.

 The two engines differ in how a neuron turns its accumulated potential
 into an output. A `Policy` records the difference, and `Value` defines,
 for any policy, what a hidden neuron of an acyclic graph evaluates to.
 */
module Neurons {
  import opened Sums

  /** One neuron: bias, input connections and hidden connections. */
  datatype Neuron = Neuron(bias: real, input: map<nat, real>, hidden: map<nat, real>)

  /** Hidden neurons keyed by id, plus the output layer in output-vector order. */
  datatype Organism = Organism(hidden: map<nat, Neuron>, outputs: seq<Neuron>)

  /** Whether the bias enters the potential, and the activation applied to it. */
  datatype Policy = Policy(useBias: bool, act: real -> real)

  /** The policy of src/copperhorn.rs: bias included, no activation. */
  function Linear(): (p: Policy)
    ensures p.useBias && forall x: real :: p.act(x) == x
  {
    Policy(true, x => x)
  }

  /** The policy of src/lib.rs: bias ignored, `tanh` applied (`tanh` is a parameter). */
  function Squashed(tanh: real -> real): (p: Policy)
    ensures !p.useBias && forall x: real :: p.act(x) == tanh(x)
  {
    Policy(false, tanh)
  }

  // ---------------------------------------------------------------------------
  // Graph structure

  /** Hidden neuron `i` reads the output of hidden neuron `j`, both in `g`. */
  ghost predicate DependsOn(g: map<nat, Neuron>, i: nat, j: nat)
  {
    i in g && j in g && j in g[i].hidden
  }

  /** `rank` numbers the neurons of `g` so that every dependency has a smaller number. */
  ghost predicate Ranked(g: map<nat, Neuron>, rank: map<nat, nat>)
  {
    && g.Keys <= rank.Keys
    && forall i, j :: DependsOn(g, i, j) ==> rank[j] < rank[i]
  }

  /** The hidden-connection graph among the neurons of `g` has no cycle (self-loops included). */
  ghost predicate Acyclic(g: map<nat, Neuron>)
  {
    exists rank :: Ranked(g, rank)
  }

  /** Every hidden id the neurons of `g` refer to is itself a neuron of `g`. */
  ghost predicate Closed(g: map<nat, Neuron>)
  {
    forall i, j :: i in g && j in g[i].hidden ==> j in g
  }

  /** Every hidden id neuron `n` refers to is a neuron of `g`. */
  ghost predicate RefersInto(n: Neuron, g: map<nat, Neuron>)
  {
    forall j :: j in n.hidden ==> j in g
  }

  /** A fixed ranking of an acyclic graph. */
  ghost function RankOf(g: map<nat, Neuron>): (rank: map<nat, nat>)
    requires Acyclic(g)
    ensures Ranked(g, rank)
  {
    var rank :| Ranked(g, rank); rank
  }

  /** The depth measure of neuron `id`: dependencies have strictly smaller depth. */
  ghost function Depth(g: map<nat, Neuron>, id: nat): (d: nat)
    requires Acyclic(g) && id in g
    ensures forall j :: DependsOn(g, id, j) ==> RankOf(g)[j] < d
  {
    RankOf(g)[id]
  }

  // ---------------------------------------------------------------------------
  // Potentials

  /** The contribution of every input connection; an index outside `xs` contributes 0. */
  function InputTerms(w: map<nat, real>, xs: seq<real>): (t: map<nat, real>)
    ensures t.Keys == w.Keys
    ensures forall i :: i in t && i < |xs| ==> t[i] == xs[i] * w[i]
    ensures forall i :: i in t && |xs| <= i ==> t[i] == 0.0
  {
    map i | i in w :: if i < |xs| then xs[i] * w[i] else 0.0
  }

  /** The contribution of every hidden connection, reading signals from `hv`;
      an id without a signal contributes 0. */
  function HiddenTerms(w: map<nat, real>, hv: map<nat, real>): (t: map<nat, real>)
    ensures t.Keys == w.Keys
    ensures forall j :: j in t && j in hv ==> t[j] == hv[j] * w[j]
    ensures forall j :: j in t && j !in hv ==> t[j] == 0.0
  {
    map j | j in w :: if j in hv then hv[j] * w[j] else 0.0
  }

  /** The term of a connected id whose signal is `y`. */
  lemma HiddenTermAt(w: map<nat, real>, hv: map<nat, real>, j: nat, y: real)
    requires j in w && j in hv && hv[j] == y
    ensures j in HiddenTerms(w, hv) && HiddenTerms(w, hv)[j] == y * w[j]
  {
  }

  /** The accumulated potential of `n` before activation, given hidden signals `hv`. */
  ghost function Potential(p: Policy, n: Neuron, xs: seq<real>, hv: map<nat, real>): (acc: real)
  {
    (if p.useBias then n.bias else 0.0)
      + Sum(InputTerms(n.input, xs))
      + Sum(HiddenTerms(n.hidden, hv))
  }

  /** Accumulates the input connections of a neuron in the unspecified order of a hash
      map, skipping every index that lies outside `xs` (src/copperhorn.rs:28-32 and
      src/lib.rs:63-67 are the same loop). */
  method SumInputs(w: map<nat, real>, xs: seq<real>) returns (s: real)
    ensures s == Sum(InputTerms(w, xs))
  {
    ghost var t := InputTerms(w, xs);
    s := 0.0;
    var todo := w.Keys;
    SumEmpty(Restrict(t, {}));
    while todo != {}
      invariant todo <= w.Keys
      invariant s == Sum(Restrict(t, w.Keys - todo))
      decreases todo
    {
      var i :| i in todo;
      SumExtend(t, w.Keys - todo, i);
      assert w.Keys - (todo - {i}) == (w.Keys - todo) + {i};
      if i < |xs| {
        s := s + xs[i] * w[i];
      }
      todo := todo - {i};
    }
    assert w.Keys - todo == t.Keys;
    SumRestrictAll(t, t.Keys);
  }

  // ---------------------------------------------------------------------------
  // Denotational meaning

  /** What hidden neuron `id` evaluates to: the activation of its potential, where each
      hidden connection to a neuron of `g` carries that neuron's own value and a
      connection to an id outside `g` carries nothing. */
  ghost function Value(p: Policy, g: map<nat, Neuron>, xs: seq<real>, id: nat): (y: real)
    requires Acyclic(g) && id in g
    decreases Depth(g, id)
  {
    var deps := map j | j in g[id].hidden && j in g :: Value(p, g, xs, j);
    p.act(Potential(p, g[id], xs, deps))
  }

  /** The value of every hidden neuron of `g`. */
  ghost function AllValues(p: Policy, g: map<nat, Neuron>, xs: seq<real>): (vs: map<nat, real>)
    requires Acyclic(g)
    ensures vs.Keys == g.Keys
    ensures forall id :: id in vs ==> vs[id] == Value(p, g, xs, id)
  {
    map id | id in g :: Value(p, g, xs, id)
  }

  /** What an output neuron `n` evaluates to against the hidden neurons of `g`. */
  ghost function OutputValue(p: Policy, g: map<nat, Neuron>, xs: seq<real>, n: Neuron): (y: real)
    requires Acyclic(g)
  {
    p.act(Potential(p, n, xs, AllValues(p, g, xs)))
  }

  /** `cache` records correct values of hidden neurons of `g`, and nothing else. */
  ghost predicate Consistent(p: Policy, g: map<nat, Neuron>, xs: seq<real>, cache: map<nat, real>)
  {
    && Acyclic(g)
    && forall id :: id in cache ==> id in g && cache[id] == Value(p, g, xs, id)
  }

  /** The equation of hidden neuron `id`: its signal in `vals` is the activation of its
      potential against `vals`. */
  ghost predicate FiresTo(p: Policy, g: map<nat, Neuron>, xs: seq<real>, vals: map<nat, real>, id: nat)
  {
    id in g && id in vals && vals[id] == p.act(Potential(p, g[id], xs, vals))
  }

  /** `vals` solves the network equations of `g`: it has a signal for every hidden neuron,
      and each signal is the activation of that neuron's potential against `vals` itself.
      An equation is used only where a proof names it (`FiresTo`), since each one unfolds
      into a potential that mentions further neurons. */
  ghost predicate Solves(p: Policy, g: map<nat, Neuron>, xs: seq<real>, vals: map<nat, real>)
  {
    && vals.Keys == g.Keys
    && forall id {:trigger FiresTo(p, g, xs, vals, id)} :: id in g ==> FiresTo(p, g, xs, vals, id)
  }

  /** Every entry of `cache` is the signal `vals` gives the same id. */
  ghost predicate Agrees(cache: map<nat, real>, vals: map<nat, real>)
  {
    forall id :: id in cache ==> id in vals && cache[id] == vals[id]
  }

  // ---------------------------------------------------------------------------
  // Lemmas

  /** Recording a neuron's correct value keeps a cache consistent. */
  lemma ConsistentInsert(p: Policy, g: map<nat, Neuron>, xs: seq<real>, cache: map<nat, real>, id: nat, y: real)
    requires Consistent(p, g, xs, cache)
    requires id in g && y == Value(p, g, xs, id)
    ensures Consistent(p, g, xs, cache[id := y])
  {
  }

  /** Only the signals of ids that `n` actually connects to matter. */
  lemma PotentialAgrees(p: Policy, n: Neuron, xs: seq<real>, hv1: map<nat, real>, hv2: map<nat, real>)
    requires forall j :: j in n.hidden ==> (j in hv1 <==> j in hv2)
    requires forall j :: j in n.hidden && j in hv1 ==> hv1[j] == hv2[j]
    ensures Potential(p, n, xs, hv1) == Potential(p, n, xs, hv2)
  {
    var t1, t2 := HiddenTerms(n.hidden, hv1), HiddenTerms(n.hidden, hv2);
    assert forall j :: j in t1 ==> t1[j] == t2[j];
    assert t1 == t2;
  }

  /** The value of a hidden neuron is its neuron's potential against the values of all
      hidden neurons: the map of all values is a fixpoint of one firing step. */
  lemma ValueUnfold(p: Policy, g: map<nat, Neuron>, xs: seq<real>, id: nat)
    requires Acyclic(g) && id in g
    ensures Value(p, g, xs, id) == p.act(Potential(p, g[id], xs, AllValues(p, g, xs)))
  {
    var deps := map j | j in g[id].hidden && j in g :: Value(p, g, xs, j);
    PotentialAgrees(p, g[id], xs, deps, AllValues(p, g, xs));
  }

  /** The values of an acyclic network solve its equations. */
  lemma AllValuesSolve(p: Policy, g: map<nat, Neuron>, xs: seq<real>)
    requires Acyclic(g)
    ensures Solves(p, g, xs, AllValues(p, g, xs))
  {
    forall id | id in g
      ensures FiresTo(p, g, xs, AllValues(p, g, xs), id)
    {
      ValueUnfold(p, g, xs, id);
    }
  }

  /** Any solution of the equations of an acyclic network gives hidden neuron `id` its value. */
  lemma {:induction false} SolutionValue(p: Policy, g: map<nat, Neuron>, xs: seq<real>, vals: map<nat, real>, id: nat)
    requires Acyclic(g) && Solves(p, g, xs, vals) && id in g
    ensures vals[id] == Value(p, g, xs, id)
    decreases Depth(g, id)
  {
    assert FiresTo(p, g, xs, vals, id);
    var deps := map j | j in g[id].hidden && j in g :: Value(p, g, xs, j);
    forall j | j in g[id].hidden && j in g
      ensures vals[j] == deps[j]
    {
      assert DependsOn(g, id, j);
      SolutionValue(p, g, xs, vals, j);
    }
    PotentialAgrees(p, g[id], xs, deps, vals);
  }

  /** The equations of an acyclic network have exactly one solution: its values. */
  lemma SolutionUnique(p: Policy, g: map<nat, Neuron>, xs: seq<real>, vals: map<nat, real>)
    requires Acyclic(g)
    ensures Solves(p, g, xs, vals) <==> vals == AllValues(p, g, xs)
  {
    if Solves(p, g, xs, vals) {
      forall id | id in g
        ensures vals[id] == AllValues(p, g, xs)[id]
      {
        SolutionValue(p, g, xs, vals, id);
      }
    }
    if vals == AllValues(p, g, xs) {
      AllValuesSolve(p, g, xs);
    }
  }

  /** A neuron with no connections has exactly its bias as potential (0 when the bias is unused). */
  lemma EmptyNeuronPotential(p: Policy, n: Neuron, xs: seq<real>, hv: map<nat, real>)
    requires n.input == map[] && n.hidden == map[]
    ensures Potential(p, n, xs, hv) == if p.useBias then n.bias else 0.0
  {
    SumEmpty(InputTerms(n.input, xs));
    SumEmpty(HiddenTerms(n.hidden, hv));
  }

  /** An input connection whose index lies outside `xs` changes nothing: the potential is the
      same as without that connection. */
  lemma OutOfRangeInputIgnored(p: Policy, n: Neuron, xs: seq<real>, hv: map<nat, real>, i: nat, w: real)
    requires |xs| <= i
    ensures Potential(p, n.(input := n.input[i := w]), xs, hv)
         == Potential(p, n.(input := n.input - {i}), xs, hv)
  {
    var t := InputTerms(n.input[i := w], xs);
    var u := InputTerms(n.input - {i}, xs);
    SumDropZero(t, i);
    assert (t - {i}).Keys == u.Keys;
    assert forall k :: k in u ==> (t - {i})[k] == u[k];
    assert t - {i} == u;
  }

  /** A hidden connection to an id that has no signal changes nothing: the potential is the
      same as without that connection. */
  lemma AbsentHiddenIgnored(p: Policy, n: Neuron, xs: seq<real>, hv: map<nat, real>, j: nat, w: real)
    requires j !in hv
    ensures Potential(p, n.(hidden := n.hidden[j := w]), xs, hv)
         == Potential(p, n.(hidden := n.hidden - {j}), xs, hv)
  {
    var t := HiddenTerms(n.hidden[j := w], hv);
    var u := HiddenTerms(n.hidden - {j}, hv);
    SumDropZero(t, j);
    assert (t - {j}).Keys == u.Keys;
    assert forall k :: k in u ==> (t - {j})[k] == u[k];
    assert t - {j} == u;
  }

  /** Changing the connections' weights of no neuron leaves the dependency graph, and so
      acyclicity, alone: any ranking of `g` ranks `g'`. */
  lemma SameShapeAcyclic(g: map<nat, Neuron>, g': map<nat, Neuron>)
    requires Acyclic(g) && g'.Keys == g.Keys
    requires forall id :: id in g ==> g'[id].hidden == g[id].hidden
    ensures Acyclic(g') && Ranked(g', RankOf(g))
  {
    assert Ranked(g', RankOf(g));
  }

  /** Without the bias in the policy, the biases of the hidden neurons have no effect on any
      value: replacing every bias leaves every neuron's value unchanged. */
  lemma {:induction false} BiasNeverRead(p: Policy, g: map<nat, Neuron>, g': map<nat, Neuron>, xs: seq<real>, id: nat)
    requires !p.useBias && Acyclic(g) && id in g && g'.Keys == g.Keys
    requires forall k :: k in g ==> g'[k] == g[k].(bias := g'[k].bias)
    ensures Acyclic(g') && Value(p, g', xs, id) == Value(p, g, xs, id)
    decreases Depth(g, id)
  {
    SameShapeAcyclic(g, g');
    var deps := map j | j in g[id].hidden && j in g :: Value(p, g, xs, j);
    var deps' := map j | j in g'[id].hidden && j in g' :: Value(p, g', xs, j);
    forall j | j in g[id].hidden && j in g
      ensures deps'[j] == deps[j]
    {
      assert DependsOn(g, id, j);
      BiasNeverRead(p, g, g', xs, j);
    }
    PotentialAgrees(p, g[id], xs, deps', deps);
    assert Potential(p, g'[id], xs, deps') == Potential(p, g[id], xs, deps');
    assert Value(p, g', xs, id) == p.act(Potential(p, g'[id], xs, deps'));
  }

  /** The two policies meet when every bias is zero: the plain weighted sum equals the
      bias-free sum squashed by the identity. */
  lemma {:induction false} ZeroBiasPoliciesAgree(g: map<nat, Neuron>, xs: seq<real>, id: nat)
    requires Acyclic(g) && id in g
    requires forall k :: k in g ==> g[k].bias == 0.0
    ensures Value(Linear(), g, xs, id) == Value(Squashed(x => x), g, xs, id)
    decreases Depth(g, id)
  {
    var q := Squashed(x => x);
    var deps := map j | j in g[id].hidden && j in g :: Value(Linear(), g, xs, j);
    var deps' := map j | j in g[id].hidden && j in g :: Value(q, g, xs, j);
    forall j | j in g[id].hidden && j in g
      ensures deps[j] == deps'[j]
    {
      assert DependsOn(g, id, j);
      ZeroBiasPoliciesAgree(g, xs, j);
    }
    PotentialAgrees(Linear(), g[id], xs, deps, deps');
  }
}
