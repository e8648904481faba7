/** The current `EcosystemModel` (mocbapy/EcosystemModel.py): the identity map is keyed by
    (metabolite id, model), `objectives` by the model, and the constructor assembles the
    ecosystem when it is given both the models and the map. */
module EcosystemModel {
  import opened Wrappers
  import opened Matrices
  import opened Organisms
  import opened Pool
  import opened Assembly
  import opened Export
  import opened Scan
  import opened Objectives
  import opened Build

  /** `metabolic_dict[(met_ex.id, model)]`, when that pair is a key. */
  function CurrentKey(dict: map<(string, Organism), string>): Site -> Option<string> {
    (s: Site) => if (s.met, s.model) in dict then Some(dict[(s.met, s.model)]) else None
  }

  /** `objectives` is keyed by the model itself. */
  function ModelKey(o: Organism): Organism { o }

  lemma DistinctModelKeys(ms: seq<Organism>)
    requires DistinctIds(ms)
    ensures KeysDistinct(ms, ModelKey)
  {
  }

  /** A visit is pooled exactly when its (metabolite id, model) pair is a key of the map,
      under the name the map gives it, and each name holds the triples of those visits. */
  lemma CurrentPoolSpec(ms: seq<Organism>, dict: map<(string, Organism), string>, k: string, t: Triple)
    ensures var pool := Group(PoolHits(Sites(ms), CurrentKey(dict)));
      && (k in Keys(pool) <==> exists s :: s in Sites(ms) && (s.met, s.model) in dict && dict[(s.met, s.model)] == k)
      && (t in GroupOf(pool, k) <==>
            exists s :: s in Sites(ms) && (s.met, s.model) in dict && dict[(s.met, s.model)] == k && t == TripleAt(s))
  {
    PoolSpec(Sites(ms), CurrentKey(dict), k, t);
  }

  /** An empty map pools nothing: no pool reactions or metabolites, and `Ssigma` is the
      block-diagonal matrix of the native blocks. */
  lemma EmptyMapNoPool(ms: seq<Organism>)
    requires AlignedNatives(ms)
    ensures Group(PoolHits(Sites(ms), CurrentKey(map[]))) == []
    ensures SysReactions(ms, []) == ConcatMap(ms, ReactionLabels)
    ensures SysMetabolites(ms, []) == ConcatMap(ms, MetaboliteLabels)
    ensures PoolResolvable([], ms) && Ssigma(ms, []) == NativeBlocks(ms)
  {
    PoolHitsNone(Sites(ms), CurrentKey(map[]));
    SsigmaWithoutPool(ms);
  }

  class EcosystemModel {
    var models: Option<seq<Organism>>
    var metabolicDict: Option<map<(string, Organism), string>>
    var pooldict: Option<PoolDict>
    var poolExRxns: Option<seq<string>>
    var poolExMets: Option<seq<string>>
    var ssigma: Option<Matrix>
    var sysreactions: Option<seq<string>>
    var sysmetabolites: Option<seq<string>>
    var lb: Option<seq<real>>
    var ub: Option<seq<real>>
    var objectives: Option<map<Organism, Terms>>

    /** Every derived field is None. */
    ghost predicate Unbuilt()
      reads this
    {
      && pooldict.None? && poolExRxns.None? && poolExMets.None? && ssigma.None?
      && sysreactions.None? && sysmetabolites.None? && lb.None? && ub.None? && objectives.None?
    }

    /** The pool as `_construct_ecosystem_pool` leaves it. */
    ghost predicate Pooled()
      reads this
    {
      && models.Some? && metabolicDict.Some?
      && pooldict == Some(Group(PoolHits(Sites(models.value), CurrentKey(metabolicDict.value))))
    }

    /** Every derived field as `_populate_ecosystem_model` leaves it. */
    ghost predicate Populated()
      reads this
    {
      && models.Some? && pooldict.Some? && AlignedNatives(models.value) && PoolResolvable(pooldict.value, models.value)
      && poolExRxns == Some(PoolReactionLabels(Keys(pooldict.value)))
      && poolExMets == Some(PoolMetaboliteLabels(Keys(pooldict.value)))
      && sysreactions == Some(SysReactions(models.value, Keys(pooldict.value)))
      && sysmetabolites == Some(SysMetabolites(models.value, Keys(pooldict.value)))
      && lb == Some(SysLowerBounds(models.value, Keys(pooldict.value)))
      && ub == Some(SysUpperBounds(models.value, Keys(pooldict.value)))
      && ssigma == Some(Ssigma(models.value, pooldict.value))
      && objectives == Some(ObjectivesOf(models.value, ModelKey))
    }

    /** `__init__`: construction runs only when both the models and the map are given;
        otherwise every derived field stays None. */
    constructor (modelArray: Option<seq<Organism>>, metabolicDict: Option<map<(string, Organism), string>>)
      requires modelArray.Some? && metabolicDict.Some? ==>
        |modelArray.value| > 0 && AlignedNatives(modelArray.value) && ExchangesAreReactions(modelArray.value)
      ensures this.models == modelArray && this.metabolicDict == metabolicDict
      ensures modelArray.Some? && metabolicDict.Some? ==> Pooled() && Populated()
      ensures modelArray.None? || metabolicDict.None? ==> Unbuilt()
    {
      models := modelArray;
      this.metabolicDict := metabolicDict;
      pooldict := None;
      poolExRxns := None;
      poolExMets := None;
      ssigma := None;
      sysreactions := None;
      sysmetabolites := None;
      lb := None;
      ub := None;
      objectives := None;
      new;
      if modelArray.Some? && metabolicDict.Some? {
        ConstructEcosystemPool();
        PopulateEcosystemModel();
      }
    }

    /** `_construct_ecosystem_pool`: the pool of every exchange metabolite the map names. */
    method ConstructEcosystemPool()
      requires models.Some? && metabolicDict.Some?
      modifies this`pooldict
      ensures Pooled()
      ensures ExchangesAreReactions(models.value) ==> PoolResolvable(pooldict.value, models.value)
    {
      var pool := ScanPool(models.value, CurrentKey(metabolicDict.value));
      if ExchangesAreReactions(models.value) {
        ScannedPoolResolvable(models.value, CurrentKey(metabolicDict.value));
      }
      pooldict := Some(pool);
    }

    /** `_populate_ecosystem_model`: labels, bounds, objectives and `Ssigma` from the models
        and the pool. */
    method PopulateEcosystemModel()
      requires models.Some? && pooldict.Some? && |models.value| > 0
      requires AlignedNatives(models.value) && PoolResolvable(pooldict.value, models.value)
      modifies this`poolExRxns, this`poolExMets, this`ssigma, this`sysreactions, this`sysmetabolites,
        this`lb, this`ub, this`objectives
      ensures poolExRxns == Some(PoolReactionLabels(Keys(pooldict.value)))
      ensures poolExMets == Some(PoolMetaboliteLabels(Keys(pooldict.value)))
      ensures sysreactions == Some(SysReactions(models.value, Keys(pooldict.value)))
      ensures sysmetabolites == Some(SysMetabolites(models.value, Keys(pooldict.value)))
      ensures lb == Some(SysLowerBounds(models.value, Keys(pooldict.value)))
      ensures ub == Some(SysUpperBounds(models.value, Keys(pooldict.value)))
      ensures ssigma == Some(Ssigma(models.value, pooldict.value))
      ensures objectives == Some(ObjectivesOf(models.value, ModelKey))
    {
      PopulateLists();
      PopulateCoupling();
    }

    /** The pool lists, the organism lists and `objectives`, then the pool lists appended to
        the system lists. */
    method PopulateLists()
      requires models.Some? && pooldict.Some?
      modifies this`poolExRxns, this`poolExMets, this`sysreactions, this`sysmetabolites,
        this`lb, this`ub, this`objectives
      ensures poolExRxns == Some(PoolReactionLabels(Keys(pooldict.value)))
      ensures poolExMets == Some(PoolMetaboliteLabels(Keys(pooldict.value)))
      ensures sysreactions == Some(SysReactions(models.value, Keys(pooldict.value)))
      ensures sysmetabolites == Some(SysMetabolites(models.value, Keys(pooldict.value)))
      ensures lb == Some(SysLowerBounds(models.value, Keys(pooldict.value)))
      ensures ub == Some(SysUpperBounds(models.value, Keys(pooldict.value)))
      ensures objectives == Some(ObjectivesOf(models.value, ModelKey))
    {
      var exRxns, exMets, poolLb, poolUb := PoolLists(pooldict.value);
      var rxns, mets, l, u, objs := OrganismLists(models.value, ModelKey);
      poolExRxns, poolExMets := Some(exRxns), Some(exMets);
      sysreactions, sysmetabolites := Some(rxns + exRxns), Some(mets + exMets);
      lb, ub := Some(l + poolLb), Some(u + poolUb);
      objectives := Some(objs);
    }

    /** `Ssigma`: the native blocks and `-I` for the pool, then the coupling entries. */
    method PopulateCoupling()
      requires models.Some? && pooldict.Some? && |models.value| > 0
      requires AlignedNatives(models.value) && PoolResolvable(pooldict.value, models.value)
      requires sysreactions == Some(SysReactions(models.value, Keys(pooldict.value)))
      requires sysmetabolites == Some(SysMetabolites(models.value, Keys(pooldict.value)))
      modifies this`ssigma
      ensures ssigma == Some(Ssigma(models.value, pooldict.value))
    {
      var S := CoupledMatrix(models.value, pooldict.value, sysmetabolites.value, sysreactions.value);
      ssigma := Some(S);
    }

    /** `to_vlp`: `Ssigma` as constraint matrix with zero row bounds, the system bounds as
        variable bounds, one maximised objective row per model and no cone. */
    method ToVlp() returns (vlp: Vlp)
      requires Populated() && DistinctIds(models.value)
      ensures vlp == Vlp(None, ssigma.value, ZeroVector(ssigma.value.rows), ZeroVector(ssigma.value.rows),
                         lb.value, ub.value, ObjectiveMatrix(models.value, Keys(pooldict.value)), Maximise,
                         None, None, None)
    {
      var S := ssigma.value;
      DistinctModelKeys(models.value);
      var P := ObjectiveRows(models.value, ModelKey, objectives.value, Keys(pooldict.value), sysreactions.value);
      vlp := Vlp(None, S, ZeroVector(S.rows), ZeroVector(S.rows), lb.value, ub.value, P, Maximise, None, None, None);
    }
  }
}
