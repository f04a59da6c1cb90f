/**
 The topological-order engine of src/copperhorn.rs.

 `TopSort` orders the hidden neurons by a post-order depth-first search
 (`Visit`) so that every neuron follows the neurons it reads; `Act` fires the
 hidden neurons in that order into a cache and then fires the output layer
 from the cache. `Fire` is a plain weighted sum: bias included, no
 activation, which is the `Linear` policy.

 Hash-map iteration order is modelled by nondeterministic choice
 (`var k :| k in todo`), so every contract below holds for every order.
 */
module Copperhorn {
  import opened Sums
  import opened Neurons

  /** A stack entry: a hidden neuron id paired with that neuron. */
  type Entry = (nat, Neuron)

  // ---------------------------------------------------------------------------
  // Neuron::fire

  /** Fires one neuron: bias, plus input weights times in-range inputs, plus hidden
      weights times the cached outputs of those hidden ids that are in the cache. */
  method Fire(n: Neuron, cache: map<nat, real>, xs: seq<real>) returns (acc: real)
    ensures acc == Potential(Linear(), n, xs, cache)
    ensures n.input == map[] && n.hidden == map[] ==> acc == n.bias
  {
    acc := n.bias;
    var s := SumInputs(n.input, xs);
    acc := acc + s;
    ghost var t := HiddenTerms(n.hidden, cache);
    var todo := n.hidden.Keys;
    SumEmpty(Restrict(t, {}));
    while todo != {}
      invariant todo <= n.hidden.Keys
      invariant acc == n.bias + s + Sum(Restrict(t, n.hidden.Keys - todo))
      decreases todo
    {
      var j :| j in todo;
      SumExtend(t, n.hidden.Keys - todo, j);
      assert n.hidden.Keys - (todo - {j}) == (n.hidden.Keys - todo) + {j};
      if j in cache {
        acc := acc + cache[j] * n.hidden[j];
      }
      todo := todo - {j};
    }
    assert n.hidden.Keys - todo == t.Keys;
    SumRestrictAll(t, t.Keys);
    if n.input == map[] && n.hidden == map[] {
      EmptyNeuronPotential(Linear(), n, xs, cache);
    }
  }

  // ---------------------------------------------------------------------------
  // top_sort / visit

  /** The ids on a stack. */
  function Ids(stack: seq<Entry>): (ids: set<nat>)
    ensures forall p :: 0 <= p < |stack| ==> stack[p].0 in ids
    ensures forall id :: id in ids ==> exists p :: 0 <= p < |stack| && stack[p].0 == id
  {
    set p | 0 <= p < |stack| :: stack[p].0
  }

  /** No id is on the stack twice. */
  ghost predicate Distinct(stack: seq<Entry>)
  {
    forall p, q :: 0 <= p < q < |stack| ==> stack[p].0 != stack[q].0
  }

  /** Every entry is a key of the graph, paired with the graph's own neuron for it. */
  ghost predicate FromGraph(graph: map<nat, Neuron>, stack: seq<Entry>)
  {
    forall p :: 0 <= p < |stack| ==> stack[p].0 in graph && stack[p].1 == graph[stack[p].0]
  }

  /** Every hidden dependency of an entry that is a key of the graph sits strictly earlier. */
  ghost predicate DepsFirst(graph: map<nat, Neuron>, stack: seq<Entry>)
  {
    forall p, j :: 0 <= p < |stack| && j in stack[p].1.hidden && j in graph ==>
      exists q :: 0 <= q < p && stack[q].0 == j
  }

  /** The state `visit` keeps between calls: `visited` is the set of ids on the stack,
      and the stack is a duplicate-free topological prefix of the graph. */
  ghost predicate Sound(graph: map<nat, Neuron>, stack: seq<Entry>, visited: set<nat>)
  {
    && visited == Ids(stack)
    && FromGraph(graph, stack)
    && Distinct(stack)
    && DepsFirst(graph, stack)
  }

  /** Extending a stack keeps the ids it already had. */
  lemma IdsGrow(stack: seq<Entry>, stack': seq<Entry>)
    requires |stack| <= |stack'| && stack'[..|stack|] == stack
    ensures Ids(stack) <= Ids(stack')
  {
    forall id | id in Ids(stack)
      ensures id in Ids(stack')
    {
      var p :| 0 <= p < |stack| && stack[p].0 == id;
      assert stack'[p] == stack[p];
    }
  }

  /** Pushing an entry adds exactly its id. */
  lemma IdsPush(stack: seq<Entry>, e: Entry)
    ensures Ids(stack + [e]) == Ids(stack) + {e.0}
  {
    var s := stack + [e];
    forall id | id in Ids(stack)
      ensures id in Ids(s)
    {
      var p :| 0 <= p < |stack| && stack[p].0 == id;
      assert s[p] == stack[p];
    }
    assert s[|stack|] == e;
  }

  /** `stack'` extends `stack`. */
  ghost predicate Prefix(stack: seq<Entry>, stack': seq<Entry>)
  {
    |stack| <= |stack'| && stack'[..|stack|] == stack
  }

  /** Every entry pushed on top of `stack` is a neuron of the graph shallower than `bound`. */
  ghost predicate PushedBelow(graph: map<nat, Neuron>, stack: seq<Entry>, stack': seq<Entry>, bound: nat)
    requires Acyclic(graph)
  {
    forall p :: |stack| <= p < |stack'| ==> stack'[p].0 in graph && Depth(graph, stack'[p].0) < bound
  }

  /** Visiting dependency `j` of `i` pushes only neurons shallower than `i`, so `i` is still
      not on the stack afterwards. */
  lemma ChildVisited(graph: map<nat, Neuron>, i: nat, j: nat, stack: seq<Entry>, before: seq<Entry>, after: seq<Entry>)
    requires Acyclic(graph) && i in graph && j in graph[i].hidden
    requires Prefix(stack, before) && Prefix(before, after)
    requires PushedBelow(graph, stack, before, Depth(graph, i))
    requires j in graph ==> PushedBelow(graph, before, after, Depth(graph, j) + 1)
    requires j !in graph ==> after == before
    requires i !in Ids(stack) && i !in Ids(before)
    ensures Prefix(stack, after)
    ensures PushedBelow(graph, stack, after, Depth(graph, i))
    ensures i !in Ids(after)
  {
    assert after[..|stack|] == before[..|stack|];
    forall p | |stack| <= p < |after|
      ensures after[p].0 in graph && Depth(graph, after[p].0) < Depth(graph, i)
    {
      if p < |before| {
        assert after[p] == before[p];
      } else {
        assert DependsOn(graph, i, j);
      }
    }
    forall p | 0 <= p < |after|
      ensures after[p].0 != i
    {
      if p < |before| {
        assert after[p] == before[p];
      }
    }
  }

  /** Pushing a neuron whose dependencies in the graph are all on the stack keeps every
      dependency before its dependent. */
  lemma PushDepsFirst(graph: map<nat, Neuron>, stack: seq<Entry>, e: Entry)
    requires DepsFirst(graph, stack)
    requires forall j :: j in e.1.hidden && j in graph ==> j in Ids(stack)
    ensures DepsFirst(graph, stack + [e])
  {
    var s := stack + [e];
    forall p, j | 0 <= p < |s| && j in s[p].1.hidden && j in graph
      ensures exists q :: 0 <= q < p && s[q].0 == j
    {
      if p < |stack| {
        assert s[p] == stack[p];
        var q :| 0 <= q < p && stack[q].0 == j;
        assert s[q] == stack[q];
      } else {
        var q :| 0 <= q < |stack| && stack[q].0 == j;
        assert s[q] == stack[q];
      }
    }
  }

  /** Pushing a neuron whose dependencies are all on the stack keeps the stack sound. */
  lemma PushSound(graph: map<nat, Neuron>, stack: seq<Entry>, i: nat)
    requires Sound(graph, stack, Ids(stack))
    requires i in graph && i !in Ids(stack)
    requires forall j :: j in graph[i].hidden && j in graph ==> j in Ids(stack)
    ensures Sound(graph, stack + [(i, graph[i])], Ids(stack) + {i})
  {
    var e := (i, graph[i]);
    var s := stack + [e];
    IdsPush(stack, e);
    PushDepsFirst(graph, stack, e);
    forall p | 0 <= p < |s|
      ensures s[p].0 in graph && s[p].1 == graph[s[p].0]
    {
      if p < |stack| {
        assert s[p] == stack[p];
      }
    }
    forall p, q | 0 <= p < q < |s|
      ensures s[p].0 != s[q].0
    {
      assert s[p] == stack[p];
      if q < |stack| {
        assert s[q] == stack[q];
      }
    }
  }

  /** Depth-first post-order visit of `i`: an already visited id and an id that is not a
      key of the graph are ignored; otherwise every hidden dependency is visited first,
      then `i` is marked visited and pushed with its neuron. Only neurons no deeper
      than `i` are pushed. */
  method Visit(i: nat, graph: map<nat, Neuron>, stack: seq<Entry>, visited: set<nat>)
    returns (stack': seq<Entry>, visited': set<nat>)
    requires Acyclic(graph)
    requires Sound(graph, stack, visited)
    ensures Sound(graph, stack', visited')
    ensures Prefix(stack, stack')
    ensures visited <= visited'
    ensures i in graph ==> i in visited'
    ensures i in visited || i !in graph ==> stack' == stack && visited' == visited
    ensures i in graph ==> PushedBelow(graph, stack, stack', Depth(graph, i) + 1)
    decreases if i in graph then Depth(graph, i) + 1 else 0
  {
    stack', visited' := stack, visited;
    if i !in visited && i in graph {
      var n := graph[i];
      var todo := n.hidden.Keys;
      while todo != {}
        invariant todo <= n.hidden.Keys
        invariant Sound(graph, stack', visited')
        invariant Prefix(stack, stack')
        invariant PushedBelow(graph, stack, stack', Depth(graph, i))
        invariant i !in visited'
        invariant forall j :: j in n.hidden && j !in todo && j in graph ==> j in visited'
        decreases todo
      {
        var j :| j in todo;
        ghost var before := stack';
        stack', visited' := Visit(j, graph, stack', visited');
        ChildVisited(graph, i, j, stack, before, stack');
        IdsGrow(before, stack');
        todo := todo - {j};
      }
      PushSound(graph, stack', i);
      IdsGrow(stack, stack');
      var top := stack';
      visited' := visited' + {i};
      stack' := stack' + [(i, n)];
      assert stack'[..|top|] == top;
      assert stack'[..|stack|] == top[..|stack|];
    }
  }

  /** A duplicate-free stack has as many distinct ids as entries. */
  lemma {:induction false} DistinctCount(stack: seq<Entry>)
    requires Distinct(stack)
    ensures |Ids(stack)| == |stack|
  {
    if stack != [] {
      var init := stack[..|stack| - 1];
      var last := stack[|stack| - 1];
      assert Distinct(init);
      DistinctCount(init);
      assert Ids(stack) == Ids(init) + {last.0};
      assert last.0 !in Ids(init);
    }
  }

  /** Topological sort of the hidden neurons: every key of the graph exactly once, each
      with its own neuron, every dependency inside the graph before its dependents. */
  method TopSort(graph: map<nat, Neuron>) returns (stack: seq<Entry>)
    requires Acyclic(graph)
    ensures FromGraph(graph, stack)
    ensures Distinct(stack)
    ensures DepsFirst(graph, stack)
    ensures Ids(stack) == graph.Keys
    ensures |stack| == |graph|
  {
    stack := [];
    var visited: set<nat> := {};
    var todo := graph.Keys;
    while todo != {}
      invariant todo <= graph.Keys
      invariant Sound(graph, stack, visited)
      invariant graph.Keys - todo <= visited
      decreases todo
    {
      var i :| i in todo;
      stack, visited := Visit(i, graph, stack, visited);
      todo := todo - {i};
    }
    DistinctCount(stack);
  }

  // ---------------------------------------------------------------------------
  // Organism::act

  /** When the k-th neuron of a topological order fires, the cache already holds every
      hidden neuron it reads that is a key of the graph. */
  lemma DepsCached(graph: map<nat, Neuron>, order: seq<Entry>, k: nat, cache: map<nat, real>)
    requires FromGraph(graph, order) && DepsFirst(graph, order)
    requires k < |order|
    requires cache.Keys == Ids(order[..k])
    requires forall id :: id in cache ==> id in graph
    ensures forall j :: j in order[k].1.hidden ==> (j in cache <==> j in graph)
  {
    forall j | j in order[k].1.hidden && j in graph
      ensures j in cache
    {
      var q :| 0 <= q < k && order[q].0 == j;
      assert order[..k][q] == order[q];
    }
  }

  /** When the k-th neuron of a topological order fires, the cache holds the value of every
      neuron before it, so the neuron fires to its own value. */
  lemma FiredInOrder(graph: map<nat, Neuron>, xs: seq<real>, order: seq<Entry>, k: nat, cache: map<nat, real>)
    requires Acyclic(graph) && FromGraph(graph, order) && DepsFirst(graph, order)
    requires k < |order|
    requires cache.Keys == Ids(order[..k])
    requires Consistent(Linear(), graph, xs, cache)
    ensures Potential(Linear(), order[k].1, xs, cache) == Value(Linear(), graph, xs, order[k].0)
  {
    DepsCached(graph, order, k, cache);
    PotentialAgrees(Linear(), order[k].1, xs, cache, AllValues(Linear(), graph, xs));
    ValueUnfold(Linear(), graph, xs, order[k].0);
  }

  /** Storing the k-th firing under its id keeps the cache consistent and covering the
      first k + 1 entries. */
  lemma CacheStep(graph: map<nat, Neuron>, xs: seq<real>, order: seq<Entry>, k: nat, cache: map<nat, real>, y: real)
    requires Acyclic(graph) && FromGraph(graph, order) && DepsFirst(graph, order)
    requires k < |order|
    requires cache.Keys == Ids(order[..k])
    requires Consistent(Linear(), graph, xs, cache)
    requires y == Potential(Linear(), order[k].1, xs, cache)
    ensures cache[order[k].0 := y].Keys == Ids(order[..k + 1])
    ensures Consistent(Linear(), graph, xs, cache[order[k].0 := y])
  {
    FiredInOrder(graph, xs, order, k, cache);
    ConsistentInsert(Linear(), graph, xs, cache, order[k].0, y);
    assert order[..k + 1] == order[..k] + [order[k]];
    IdsPush(order[..k], order[k]);
  }

  /** The hidden pass of `act`: fires the hidden neurons in topological order, each into
      the cache under its id. The cache ends up holding exactly the value of every
      hidden neuron. */
  method FireHidden(graph: map<nat, Neuron>, xs: seq<real>) returns (cache: map<nat, real>)
    requires Acyclic(graph)
    ensures cache.Keys == graph.Keys
    ensures forall id :: id in cache ==> cache[id] == Value(Linear(), graph, xs, id)
  {
    var order := TopSort(graph);
    cache := map[];
    var k := 0;
    while k < |order|
      invariant k <= |order|
      invariant cache.Keys == Ids(order[..k])
      invariant Consistent(Linear(), graph, xs, cache)
    {
      var (i, n) := order[k];
      var y := Fire(n, cache, xs);
      CacheStep(graph, xs, order, k, cache, y);
      cache := cache[i := y];
      k := k + 1;
    }
    assert order[..k] == order;
  }

  /** `act`: the output vector has one entry per output neuron, in order, each the firing
      of that neuron against the values of all hidden neurons. */
  method Act(org: Organism, xs: seq<real>) returns (ys: seq<real>)
    requires Acyclic(org.hidden)
    ensures |ys| == |org.outputs|
    ensures forall k :: 0 <= k < |ys| ==> ys[k] == OutputValue(Linear(), org.hidden, xs, org.outputs[k])
  {
    var cache := FireHidden(org.hidden, xs);
    assert cache == AllValues(Linear(), org.hidden, xs);
    ys := [];
    var k := 0;
    while k < |org.outputs|
      invariant k <= |org.outputs| && |ys| == k
      invariant forall q :: 0 <= q < k ==> ys[q] == OutputValue(Linear(), org.hidden, xs, org.outputs[q])
    {
      var y := Fire(org.outputs[k], cache, xs);
      ys := ys + [y];
      k := k + 1;
    }
  }
}
