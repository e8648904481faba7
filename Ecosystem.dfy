/** The older `EcosystemModel` (Ecosystem.py): the identity map is keyed by metabolite id
    alone, `objectives` by `model.id`, the constructor builds nothing and the two build steps
    are called explicitly. It also carries the static `get_common_mets`. */
module Ecosystem {
  import opened Wrappers
  import opened Matrices
  import opened Organisms
  import opened Pool
  import opened Assembly
  import opened Export
  import opened Scan
  import opened Objectives
  import opened Build

  /** `metabolic_dict[met_ex.id]`, when the id is a key. */
  function LegacyKey(dict: map<string, string>): Site -> Option<string> {
    (s: Site) => if s.met in dict then Some(dict[s.met]) else None
  }

  /** `objectives` is keyed by `model.id`. */
  function IdKey(o: Organism): string { o.id }

  lemma DistinctIdKeys(ms: seq<Organism>)
    requires DistinctIds(ms)
    ensures KeysDistinct(ms, IdKey)
  {
  }

  /** An exchange metabolite is pooled exactly when its id is a key of the map, under the
      name the map gives it, and each name holds the triples of those visits. */
  lemma LegacyPoolSpec(ms: seq<Organism>, dict: map<string, string>, k: string, t: Triple)
    ensures var pool := Group(PoolHits(Sites(ms), LegacyKey(dict)));
      && (k in Keys(pool) <==> exists s :: s in Sites(ms) && s.met in dict && dict[s.met] == k)
      && (t in GroupOf(pool, k) <==> exists s :: s in Sites(ms) && s.met in dict && dict[s.met] == k && t == TripleAt(s))
  {
    PoolSpec(Sites(ms), LegacyKey(dict), k, t);
  }

  /** One step of `get_common_mets`: the first exchange seen for a metabolite id creates its
      dictionary, later ones set the entry of their model. */
  function CommonMetsStep(m: map<string, map<Organism, Reaction>>, s: Site): map<string, map<Organism, Reaction>> {
    if s.met !in m then m[s.met := map[s.model := s.rxn]]
    else m[s.met := m[s.met][s.model := s.rxn]]
  }

  function CommonMetsOf(sites: seq<Site>): map<string, map<Organism, Reaction>> {
    FoldSites(map[], sites, CommonMetsStep)
  }

  /** The exchange of the last visit of metabolite `k` in model `o`, if there is one. */
  function LastExchange(sites: seq<Site>, k: string, o: Organism): Option<Reaction> {
    if sites == [] then None
    else if sites[|sites| - 1].met == k && sites[|sites| - 1].model == o then Some(sites[|sites| - 1].rxn)
    else LastExchange(sites[..|sites| - 1], k, o)
  }

  /** `LastExchange` is the exchange of a visit of `k` in `o` after which there is no other,
      and it is absent exactly when there is no such visit. */
  lemma {:induction false} LastExchangeSpec(sites: seq<Site>, k: string, o: Organism)
    ensures LastExchange(sites, k, o).None? <==>
      forall i :: 0 <= i < |sites| ==> !(sites[i].met == k && sites[i].model == o)
    ensures LastExchange(sites, k, o).Some? ==>
      exists i :: 0 <= i < |sites| && sites[i].met == k && sites[i].model == o &&
        sites[i].rxn == LastExchange(sites, k, o).value &&
        forall j :: i < j < |sites| ==> !(sites[j].met == k && sites[j].model == o)
  {
    if sites != [] {
      var n := |sites| - 1;
      LastExchangeSpec(sites[..n], k, o);
      assert forall i :: 0 <= i < n ==> sites[..n][i] == sites[i];
      if !(sites[n].met == k && sites[n].model == o) && LastExchange(sites, k, o).Some? {
        var i :| 0 <= i < n && sites[..n][i].met == k && sites[..n][i].model == o &&
          sites[..n][i].rxn == LastExchange(sites, k, o).value &&
          forall j :: i < j < n ==> !(sites[..n][j].met == k && sites[..n][j].model == o);
        assert forall j :: i < j < |sites| ==> !(sites[j].met == k && sites[j].model == o);
      }
    }
  }

  /** `get_common_mets` has a key for every visited exchange metabolite id, and no other. */
  lemma {:induction false} CommonMetsKeys(sites: seq<Site>)
    ensures forall k :: k in CommonMetsOf(sites) <==> exists s :: s in sites && s.met == k
  {
    if sites != [] {
      var n := |sites| - 1;
      CommonMetsKeys(sites[..n]);
      assert sites == sites[..n] + [sites[n]];
      FoldSitesSnoc(map[], sites[..n], sites[n], CommonMetsStep);
      var m0 := CommonMetsOf(sites[..n]);
      assert CommonMetsOf(sites) == CommonMetsStep(m0, sites[n]);
      assert CommonMetsOf(sites).Keys == m0.Keys + {sites[n].met};
      forall k ensures k in CommonMetsOf(sites) <==> exists s :: s in sites && s.met == k {
        if exists s :: s in sites[..n] && s.met == k {
          var s :| s in sites[..n] && s.met == k;
          assert s in sites;
        }
        if exists s :: s in sites && s.met == k {
          var s :| s in sites && s.met == k;
          assert s == sites[n] || s in sites[..n];
        }
      }
    }
  }

  /** A last visit of `k` in `o` is a visit of `k`. */
  lemma {:induction false} LastExchangeVisit(sites: seq<Site>, k: string, o: Organism)
    requires LastExchange(sites, k, o).Some?
    ensures exists s :: s in sites && s.met == k
  {
    var n := |sites| - 1;
    if !(sites[n].met == k && sites[n].model == o) {
      LastExchangeVisit(sites[..n], k, o);
      var s :| s in sites[..n] && s.met == k;
      assert s in sites;
    }
  }

  /** Under a metabolite id of `get_common_mets`, a model is a key exactly when it has an
      exchange containing the metabolite, and its value is the last such exchange scanned. */
  lemma {:induction false} CommonMetsAt(sites: seq<Site>, k: string, o: Organism)
    requires k in CommonMetsOf(sites)
    ensures o in CommonMetsOf(sites)[k] <==> LastExchange(sites, k, o).Some?
    ensures o in CommonMetsOf(sites)[k] ==> LastExchange(sites, k, o) == Some(CommonMetsOf(sites)[k][o])
  {
    var n := |sites| - 1;
    var s := sites[n];
    var m0 := CommonMetsOf(sites[..n]);
    assert sites == sites[..n] + [s];
    FoldSitesSnoc(map[], sites[..n], s, CommonMetsStep);
    assert CommonMetsOf(sites) == CommonMetsStep(m0, s);
    if s.met != k {
      CommonMetsAt(sites[..n], k, o);
    } else if s.met !in m0 {
      if o != s.model && LastExchange(sites[..n], k, o).Some? {
        LastExchangeVisit(sites[..n], k, o);
        CommonMetsKeys(sites[..n]);
      }
    } else if o != s.model {
      CommonMetsAt(sites[..n], k, o);
    }
  }

  /** Each value of `get_common_mets` over models is one of that model's exchanges, and it
      contains the metabolite. */
  lemma CommonMetsExchange(ms: seq<Organism>, k: string, o: Organism)
    requires k in CommonMetsOf(Sites(ms)) && o in CommonMetsOf(Sites(ms))[k]
    ensures o in ms
    ensures var e := CommonMetsOf(Sites(ms))[k][o]; e in o.exchanges && exists c :: (k, c) in e.metabolites
  {
    var sites := Sites(ms);
    CommonMetsAt(sites, k, o);
    LastExchangeSpec(sites, k, o);
    var i :| 0 <= i < |sites| && sites[i].met == k && sites[i].model == o &&
      sites[i].rxn == LastExchange(sites, k, o).value &&
      forall j :: i < j < |sites| ==> !(sites[j].met == k && sites[j].model == o);
    SitesSpec(ms);
    assert sites[i] in sites;
    var b :| 0 <= b < |ms| && sites[i] in ModelSites(ms[b], ms[b].exchanges);
    var es := ms[b].exchanges;
    ModelSitesSpec(ms[b], es);
    var j, x :| 0 <= j < |es| && 0 <= x < |es[j].metabolites| &&
      sites[i] == Site(ms[b], es[j], es[j].metabolites[x].0, es[j].metabolites[x].1);
    assert es[j].metabolites[x] in es[j].metabolites;
  }

  class EcosystemModel {
    var models: Option<seq<Organism>>
    var metabolicDict: Option<map<string, string>>
    var pooldict: Option<PoolDict>
    var poolExRxns: Option<seq<string>>
    var poolExMets: Option<seq<string>>
    var ssigma: Option<Matrix>
    var sysreactions: Option<seq<string>>
    var sysmetabolites: Option<seq<string>>
    var lb: Option<seq<real>>
    var ub: Option<seq<real>>
    var objectives: Option<map<string, Terms>>

    /** Every derived field is None. */
    ghost predicate Unbuilt()
      reads this
    {
      && pooldict.None? && poolExRxns.None? && poolExMets.None? && ssigma.None?
      && sysreactions.None? && sysmetabolites.None? && lb.None? && ub.None? && objectives.None?
    }

    /** The pool as `construct_ecosystem_pool` leaves it. */
    ghost predicate Pooled()
      reads this
    {
      && models.Some? && metabolicDict.Some?
      && pooldict == Some(Group(PoolHits(Sites(models.value), LegacyKey(metabolicDict.value))))
    }

    /** Every derived field as `populate_ecosystem_model` leaves it. */
    ghost predicate Populated()
      reads this
    {
      && models.Some? && pooldict.Some? && AlignedNatives(models.value) && PoolResolvable(pooldict.value, models.value)
      && poolExRxns == Some(PoolReactionLabels(Keys(pooldict.value)))
      && poolExMets == Some(PoolMetaboliteLabels(Keys(pooldict.value)))
      && sysreactions == Some(SysReactions(models.value, Keys(pooldict.value)))
      && sysmetabolites == Some(SysMetabolites(models.value, Keys(pooldict.value)))
      && lb == Some(SysLowerBounds(models.value, Keys(pooldict.value)))
      && ub == Some(SysUpperBounds(models.value, Keys(pooldict.value)))
      && ssigma == Some(Ssigma(models.value, pooldict.value))
      && objectives == Some(ObjectivesOf(models.value, IdKey))
    }

    /** `__init__` stores its arguments and builds nothing. */
    constructor (modelArray: Option<seq<Organism>>, metabolicDict: Option<map<string, string>>)
      ensures this.models == modelArray && this.metabolicDict == metabolicDict
      ensures Unbuilt()
    {
      models := modelArray;
      this.metabolicDict := metabolicDict;
      pooldict := None;
      poolExRxns := None;
      poolExMets := None;
      ssigma := None;
      sysreactions := None;
      sysmetabolites := None;
      lb := None;
      ub := None;
      objectives := None;
    }

    /** `construct_ecosystem_pool`: the pool of every exchange metabolite whose id the map
        names; the first triple of a name creates its list, later ones are appended. */
    method ConstructEcosystemPool()
      requires models.Some? && metabolicDict.Some?
      modifies this`pooldict
      ensures Pooled()
      ensures ExchangesAreReactions(models.value) ==> PoolResolvable(pooldict.value, models.value)
    {
      var pool := ScanPool(models.value, LegacyKey(metabolicDict.value));
      if ExchangesAreReactions(models.value) {
        ScannedPoolResolvable(models.value, LegacyKey(metabolicDict.value));
      }
      pooldict := Some(pool);
    }

    /** `populate_ecosystem_model`: labels, bounds, objectives and `Ssigma` from the models
        and the pool. */
    method PopulateEcosystemModel()
      requires models.Some? && pooldict.Some? && |models.value| > 0
      requires AlignedNatives(models.value) && PoolResolvable(pooldict.value, models.value)
      modifies this`poolExRxns, this`poolExMets, this`ssigma, this`sysreactions, this`sysmetabolites,
        this`lb, this`ub, this`objectives
      ensures poolExRxns == Some(PoolReactionLabels(Keys(pooldict.value)))
      ensures poolExMets == Some(PoolMetaboliteLabels(Keys(pooldict.value)))
      ensures sysreactions == Some(SysReactions(models.value, Keys(pooldict.value)))
      ensures sysmetabolites == Some(SysMetabolites(models.value, Keys(pooldict.value)))
      ensures lb == Some(SysLowerBounds(models.value, Keys(pooldict.value)))
      ensures ub == Some(SysUpperBounds(models.value, Keys(pooldict.value)))
      ensures ssigma == Some(Ssigma(models.value, pooldict.value))
      ensures objectives == Some(ObjectivesOf(models.value, IdKey))
    {
      PopulateLists();
      PopulateCoupling();
    }

    /** The pool lists, the organism lists and `objectives`, then the pool lists appended to
        the system lists. */
    method PopulateLists()
      requires models.Some? && pooldict.Some?
      modifies this`poolExRxns, this`poolExMets, this`sysreactions, this`sysmetabolites,
        this`lb, this`ub, this`objectives
      ensures poolExRxns == Some(PoolReactionLabels(Keys(pooldict.value)))
      ensures poolExMets == Some(PoolMetaboliteLabels(Keys(pooldict.value)))
      ensures sysreactions == Some(SysReactions(models.value, Keys(pooldict.value)))
      ensures sysmetabolites == Some(SysMetabolites(models.value, Keys(pooldict.value)))
      ensures lb == Some(SysLowerBounds(models.value, Keys(pooldict.value)))
      ensures ub == Some(SysUpperBounds(models.value, Keys(pooldict.value)))
      ensures objectives == Some(ObjectivesOf(models.value, IdKey))
    {
      var exRxns, exMets, poolLb, poolUb := PoolLists(pooldict.value);
      var rxns, mets, l, u, objs := OrganismLists(models.value, IdKey);
      poolExRxns, poolExMets := Some(exRxns), Some(exMets);
      sysreactions, sysmetabolites := Some(rxns + exRxns), Some(mets + exMets);
      lb, ub := Some(l + poolLb), Some(u + poolUb);
      objectives := Some(objs);
    }

    /** `Ssigma`: the native blocks and `-I` for the pool, then the coupling entries. */
    method PopulateCoupling()
      requires models.Some? && pooldict.Some? && |models.value| > 0
      requires AlignedNatives(models.value) && PoolResolvable(pooldict.value, models.value)
      requires sysreactions == Some(SysReactions(models.value, Keys(pooldict.value)))
      requires sysmetabolites == Some(SysMetabolites(models.value, Keys(pooldict.value)))
      modifies this`ssigma
      ensures ssigma == Some(Ssigma(models.value, pooldict.value))
    {
      var S := CoupledMatrix(models.value, pooldict.value, sysmetabolites.value, sysreactions.value);
      ssigma := Some(S);
    }

    /** The static `get_common_mets`: for each exchange metabolite id, a dictionary from each
        model with an exchange containing it to the last such exchange scanned. */
    static method GetCommonMets(modelList: seq<Organism>) returns (commonMets: map<string, map<Organism, Reaction>>)
      ensures commonMets == CommonMetsOf(Sites(modelList))
    {
      commonMets := FoldScan(modelList, map[], CommonMetsStep);
    }

    /** `to_vlp(filename)`: the filename only when one is given; otherwise as the current
        version, with `P` filled from `objectives[models[i].id]`. */
    method ToVlp(filename: Option<string>) returns (vlp: Vlp)
      requires Populated() && DistinctIds(models.value)
      ensures vlp == Vlp(filename, ssigma.value, ZeroVector(ssigma.value.rows), ZeroVector(ssigma.value.rows),
                         lb.value, ub.value, ObjectiveMatrix(models.value, Keys(pooldict.value)), Maximise,
                         None, None, None)
    {
      var name: Option<string> := None;
      if filename.Some? {
        name := filename;
      }
      var S := ssigma.value;
      DistinctIdKeys(models.value);
      var P := ObjectiveRows(models.value, IdKey, objectives.value, Keys(pooldict.value), sysreactions.value);
      vlp := Vlp(name, S, ZeroVector(S.rows), ZeroVector(S.rows), lb.value, ub.value, P, Maximise, None, None, None);
    }
  }
}
