/**
 Order-free sums over finite maps.

 Both engines accumulate a weighted sum while iterating over a `HashMap`,
 whose iteration order is unspecified. Over the reals that order does not
 matter, and this module gives the sum a definition that does not depend on
 it: `Sum(m)` adds up the values of `m`, picking the keys in some arbitrary
 but fixed order, and `SumRemove` shows that ANY key may be taken first.
 */
module Sums {

  /** The sum of all values of `m`. */
  ghost function Sum(m: map<nat, real>): (total: real)
    decreases |m|
  {
    if m == map[] then 0.0
    else
      var k :| k in m;
      m[k] + Sum(m - {k})
  }

  /** The part of `m` whose keys lie in `s`. */
  function Restrict(m: map<nat, real>, s: set<nat>): (r: map<nat, real>)
    ensures r.Keys == m.Keys * s
    ensures forall k :: k in r ==> r[k] == m[k]
  {
    map k | k in m && k in s :: m[k]
  }

  /** Any key can be split off a sum first: the sum does not depend on the order of the keys. */
  lemma {:induction false} SumRemove(m: map<nat, real>, k: nat)
    requires k in m
    ensures Sum(m) == m[k] + Sum(m - {k})
    decreases |m|
  {
    var c :| c in m && Sum(m) == m[c] + Sum(m - {c});
    if c != k {
      var mc, mk := m - {c}, m - {k};
      assert k in mc && c in mk;
      SumRemove(mc, k);
      SumRemove(mk, c);
      assert mc - {k} == mk - {c};
    }
  }

  /** A sum over no keys is zero. */
  lemma SumEmpty(m: map<nat, real>)
    requires m.Keys == {}
    ensures Sum(m) == 0.0
  {
    assert m == map[];
  }

  /** Extending a partial sum by one more key adds exactly that key's value. */
  lemma SumExtend(m: map<nat, real>, done: set<nat>, k: nat)
    requires k in m && k !in done
    ensures Sum(Restrict(m, done + {k})) == m[k] + Sum(Restrict(m, done))
  {
    var big := Restrict(m, done + {k});
    SumRemove(big, k);
    assert big - {k} == Restrict(m, done);
  }

  /** A partial sum over every key is the whole sum. */
  lemma SumRestrictAll(m: map<nat, real>, s: set<nat>)
    requires m.Keys <= s
    ensures Sum(Restrict(m, s)) == Sum(m)
  {
    assert Restrict(m, s) == m;
  }

  /** A key whose value is zero can be dropped from a sum. */
  lemma SumDropZero(m: map<nat, real>, k: nat)
    requires k in m && m[k] == 0.0
    ensures Sum(m) == Sum(m - {k})
  {
    SumRemove(m, k);
  }
}
