/** The `objectives` dictionary of both versions: an empty list under the key of every model,
    then each model's nonzero-objective reactions appended under its key. The current version
    keys it by the model itself, the older one by `model.id`; `keyOf` is that choice. */
module Objectives {
  import opened Organisms

  type Terms = seq<(string, real)>

  /** `for model in models: objectives[keyOf(model)] = []`. */
  function EmptyObjectives<K(==)>(ms: seq<Organism>, keyOf: Organism -> K): map<K, Terms> {
    if ms == [] then map[] else EmptyObjectives(ms[..|ms| - 1], keyOf)[keyOf(ms[|ms| - 1]) := []]
  }

  /** The reaction loop over `ms`: each model's terms appended to the list under its key. */
  function AddObjectives<K(==)>(objs: map<K, Terms>, ms: seq<Organism>, keyOf: Organism -> K): map<K, Terms> {
    if ms == [] then objs
    else
      var m := AddObjectives(objs, ms[..|ms| - 1], keyOf);
      var k := keyOf(ms[|ms| - 1]);
      m[k := (if k in m then m[k] else []) + ObjectiveTerms(ms[|ms| - 1].reactions)]
  }

  /** `objectives` once `_populate_ecosystem_model` has run. */
  function ObjectivesOf<K(==)>(ms: seq<Organism>, keyOf: Organism -> K): map<K, Terms> {
    AddObjectives(EmptyObjectives(ms, keyOf), ms, keyOf)
  }

  /** No two models share a key (distinct model ids give this for both keyings). */
  ghost predicate KeysDistinct<K>(ms: seq<Organism>, keyOf: Organism -> K) {
    forall a, b :: 0 <= a < b < |ms| ==> keyOf(ms[a]) != keyOf(ms[b])
  }

  ghost predicate KeyOfSome<K>(ms: seq<Organism>, keyOf: Organism -> K, k: K) {
    exists b :: 0 <= b < |ms| && keyOf(ms[b]) == k
  }

  lemma EmptyObjectivesSnoc<K>(ms: seq<Organism>, keyOf: Organism -> K, i: nat)
    requires i < |ms|
    ensures EmptyObjectives(ms[..i + 1], keyOf) == EmptyObjectives(ms[..i], keyOf)[keyOf(ms[i]) := []]
  {
    assert ms[..i + 1][..i] == ms[..i];
  }

  lemma AddObjectivesSnoc<K>(objs: map<K, Terms>, ms: seq<Organism>, keyOf: Organism -> K, i: nat)
    requires i < |ms|
    ensures var m := AddObjectives(objs, ms[..i], keyOf); var k := keyOf(ms[i]);
      AddObjectives(objs, ms[..i + 1], keyOf) == m[k := (if k in m then m[k] else []) + ObjectiveTerms(ms[i].reactions)]
  {
    assert ms[..i + 1][..i] == ms[..i];
  }

  /** Every model has a key, holding the empty list, and there are no other keys. */
  lemma {:induction false} EmptyObjectivesSpec<K>(ms: seq<Organism>, keyOf: Organism -> K)
    ensures forall k :: k in EmptyObjectives(ms, keyOf) <==> KeyOfSome(ms, keyOf, k)
    ensures forall k :: k in EmptyObjectives(ms, keyOf) ==> EmptyObjectives(ms, keyOf)[k] == []
  {
    if ms != [] {
      var n := |ms| - 1;
      EmptyObjectivesSpec(ms[..n], keyOf);
      forall k ensures k in EmptyObjectives(ms, keyOf) <==> KeyOfSome(ms, keyOf, k) {
        if KeyOfSome(ms[..n], keyOf, k) {
          var b :| 0 <= b < n && keyOf(ms[..n][b]) == k;
          assert ms[..n][b] == ms[b];
        }
        if KeyOfSome(ms, keyOf, k) && k != keyOf(ms[n]) {
          var b :| 0 <= b < |ms| && keyOf(ms[b]) == k;
          assert ms[..n][b] == ms[b];
        }
      }
    }
  }

  /** Appending never removes a key: the ones of `objs` remain and each model adds its own. */
  lemma {:induction false} AddObjectivesKeys<K>(objs: map<K, Terms>, ms: seq<Organism>, keyOf: Organism -> K)
    ensures forall k :: k in AddObjectives(objs, ms, keyOf) <==> k in objs || KeyOfSome(ms, keyOf, k)
  {
    if ms != [] {
      var n := |ms| - 1;
      AddObjectivesKeys(objs, ms[..n], keyOf);
      forall k ensures k in AddObjectives(objs, ms, keyOf) <==> k in objs || KeyOfSome(ms, keyOf, k) {
        if KeyOfSome(ms[..n], keyOf, k) {
          var b :| 0 <= b < n && keyOf(ms[..n][b]) == k;
          assert ms[..n][b] == ms[b];
        }
        if KeyOfSome(ms, keyOf, k) && k != keyOf(ms[n]) {
          var b :| 0 <= b < |ms| && keyOf(ms[b]) == k;
          assert ms[..n][b] == ms[b];
        }
      }
    }
  }

  /** One step of the reaction loop: appending model n's terms under its key leaves the entries
      of the other keys alone. */
  lemma AddObjectivesStep<K>(ms: seq<Organism>, keyOf: Organism -> K, n: nat, b: nat, before: Terms)
    requires KeysDistinct(ms, keyOf) && n < |ms| && b < |ms|
    requires var m := AddObjectives(EmptyObjectives(ms, keyOf), ms[..n], keyOf);
      keyOf(ms[b]) in m && m[keyOf(ms[b])] == before && keyOf(ms[n]) in m && m[keyOf(ms[n])] == []
    ensures var m := AddObjectives(EmptyObjectives(ms, keyOf), ms[..n + 1], keyOf);
      keyOf(ms[b]) in m && m[keyOf(ms[b])] == if b == n then ObjectiveTerms(ms[n].reactions) else before
  {
    AddObjectivesSnoc(EmptyObjectives(ms, keyOf), ms, keyOf, n);
    if b != n {
      assert keyOf(ms[b]) != keyOf(ms[n]) by {
        if b < n { assert 0 <= b < n < |ms|; } else { assert 0 <= n < b < |ms|; }
      }
    }
  }

  /** After the first n models, each model before n holds its own terms, the others none. */
  lemma {:induction false} AddObjectivesAt<K>(ms: seq<Organism>, keyOf: Organism -> K, n: nat, b: nat)
    requires KeysDistinct(ms, keyOf) && n <= |ms| && b < |ms|
    ensures keyOf(ms[b]) in AddObjectives(EmptyObjectives(ms, keyOf), ms[..n], keyOf)
    ensures AddObjectives(EmptyObjectives(ms, keyOf), ms[..n], keyOf)[keyOf(ms[b])] ==
      if b < n then ObjectiveTerms(ms[b].reactions) else []
  {
    if n == 0 {
      EmptyObjectivesSpec(ms, keyOf);
      assert KeyOfSome(ms, keyOf, keyOf(ms[b]));
      assert ms[..0] == [];
    } else {
      AddObjectivesAt(ms, keyOf, n - 1, b);
      AddObjectivesAt(ms, keyOf, n - 1, n - 1);
      AddObjectivesStep(ms, keyOf, n - 1, b, if b < n - 1 then ObjectiveTerms(ms[b].reactions) else []);
    }
  }

  /** `objectives` has a key for every model, including models without an objective, and no
      other; under distinct keys each model's entry is its nonzero-objective reactions in
      native order. */
  lemma ObjectivesOfSpec<K>(ms: seq<Organism>, keyOf: Organism -> K)
    ensures forall k :: k in ObjectivesOf(ms, keyOf) <==> KeyOfSome(ms, keyOf, k)
    ensures KeysDistinct(ms, keyOf) ==>
      forall b :: 0 <= b < |ms| ==>
        keyOf(ms[b]) in ObjectivesOf(ms, keyOf) && ObjectivesOf(ms, keyOf)[keyOf(ms[b])] == ObjectiveTerms(ms[b].reactions)
  {
    EmptyObjectivesSpec(ms, keyOf);
    AddObjectivesKeys(EmptyObjectives(ms, keyOf), ms, keyOf);
    if KeysDistinct(ms, keyOf) {
      forall b | 0 <= b < |ms|
        ensures keyOf(ms[b]) in ObjectivesOf(ms, keyOf)
        ensures ObjectivesOf(ms, keyOf)[keyOf(ms[b])] == ObjectiveTerms(ms[b].reactions)
      {
        AddObjectivesAt(ms, keyOf, |ms|, b);
        assert ms[..|ms|] == ms;
      }
    }
  }
}
