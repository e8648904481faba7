/** The loops shared by both versions of `EcosystemModel`: the pool scan, the label and
    bound lists, the coupling writes into `Ssigma` and the writes into `P`. Each is proved
    to compute the specification function of its result. */
module Build {
  import opened Wrappers
  import opened Sequences
  import opened Matrices
  import opened Organisms
  import opened Pool
  import opened Assembly
  import opened Export
  import opened Scan
  import opened Objectives

  /** The triple loop over models, exchanges and exchange metabolites: every visit that the
      identity map names appends its triple under that name. */
  method ScanPool(ms: seq<Organism>, key: Site -> Option<string>) returns (pool: PoolDict)
    ensures pool == Group(PoolHits(Sites(ms), key))
  {
    pool := [];
    for i := 0 to |ms|
      invariant pool == Group(PoolHits(Sites(ms[..i]), key))
    {
      SitesSnoc(ms, i);
      pool := ScanModel(pool, Sites(ms[..i]), ms[i], key);
    }
    assert ms[..|ms|] == ms;
  }

  /** The loop over the exchanges of one model, continuing a scan that has visited `sites`. */
  method ScanModel(pool0: PoolDict, ghost sites: seq<Site>, model: Organism, key: Site -> Option<string>)
    returns (pool: PoolDict)
    requires pool0 == Group(PoolHits(sites, key))
    ensures pool == Group(PoolHits(sites + ModelSites(model, model.exchanges), key))
  {
    pool := pool0;
    assert sites + ModelSites(model, model.exchanges[..0]) == sites;
    for j := 0 to |model.exchanges|
      invariant pool == Group(PoolHits(sites + ModelSites(model, model.exchanges[..j]), key))
    {
      ModelSitesExtend(sites, model, j);
      pool := ScanExchange(pool, sites + ModelSites(model, model.exchanges[..j]), model, model.exchanges[j], key);
    }
    assert model.exchanges[..|model.exchanges|] == model.exchanges;
  }

  /** The loop over the metabolites of one exchange reaction. */
  method ScanExchange(pool0: PoolDict, ghost sites: seq<Site>, model: Organism, rxnEx: Reaction, key: Site -> Option<string>)
    returns (pool: PoolDict)
    requires pool0 == Group(PoolHits(sites, key))
    ensures pool == Group(PoolHits(sites + ExchangeSites(model, rxnEx, rxnEx.metabolites), key))
  {
    pool := pool0;
    assert sites + ExchangeSites(model, rxnEx, rxnEx.metabolites[..0]) == sites;
    for k := 0 to |rxnEx.metabolites|
      invariant pool == Group(PoolHits(sites + ExchangeSites(model, rxnEx, rxnEx.metabolites[..k]), key))
    {
      var (metId, coef) := rxnEx.metabolites[k];
      var s := Site(model, rxnEx, metId, coef);
      ExchangeSitesExtend(sites, model, rxnEx, k);
      ScanStep(sites + ExchangeSites(model, rxnEx, rxnEx.metabolites[..k]), s, key);
      match key(s) {
        case Some(metName) =>
          pool := Append(pool, metName, Triple(model, rxnEx.id, coef));
        case None =>
      }
    }
    assert rxnEx.metabolites[..|rxnEx.metabolites|] == rxnEx.metabolites;
  }

  /** The same triple loop filling a dictionary: each visit updates it by `step`. */
  method FoldScan<D>(ms: seq<Organism>, d0: D, step: (D, Site) -> D) returns (d: D)
    ensures d == FoldSites(d0, Sites(ms), step)
  {
    d := d0;
    for i := 0 to |ms|
      invariant d == FoldSites(d0, Sites(ms[..i]), step)
    {
      SitesSnoc(ms, i);
      d := FoldModel(d, d0, Sites(ms[..i]), ms[i], step);
    }
    assert ms[..|ms|] == ms;
  }

  method FoldModel<D>(d1: D, ghost d0: D, ghost sites: seq<Site>, model: Organism, step: (D, Site) -> D) returns (d: D)
    requires d1 == FoldSites(d0, sites, step)
    ensures d == FoldSites(d0, sites + ModelSites(model, model.exchanges), step)
  {
    d := d1;
    assert sites + ModelSites(model, model.exchanges[..0]) == sites;
    for j := 0 to |model.exchanges|
      invariant d == FoldSites(d0, sites + ModelSites(model, model.exchanges[..j]), step)
    {
      ModelSitesExtend(sites, model, j);
      d := FoldExchange(d, d0, sites + ModelSites(model, model.exchanges[..j]), model, model.exchanges[j], step);
    }
    assert model.exchanges[..|model.exchanges|] == model.exchanges;
  }

  method FoldExchange<D>(d1: D, ghost d0: D, ghost sites: seq<Site>, model: Organism, rxnEx: Reaction, step: (D, Site) -> D)
    returns (d: D)
    requires d1 == FoldSites(d0, sites, step)
    ensures d == FoldSites(d0, sites + ExchangeSites(model, rxnEx, rxnEx.metabolites), step)
  {
    d := d1;
    assert sites + ExchangeSites(model, rxnEx, rxnEx.metabolites[..0]) == sites;
    for k := 0 to |rxnEx.metabolites|
      invariant d == FoldSites(d0, sites + ExchangeSites(model, rxnEx, rxnEx.metabolites[..k]), step)
    {
      var (metId, coef) := rxnEx.metabolites[k];
      var s := Site(model, rxnEx, metId, coef);
      ExchangeSitesExtend(sites, model, rxnEx, k);
      FoldSitesSnoc(d0, sites + ExchangeSites(model, rxnEx, rxnEx.metabolites[..k]), s, step);
      d := step(d, s);
    }
    assert rxnEx.metabolites[..|rxnEx.metabolites|] == rxnEx.metabolites;
  }

  /** The loop over the pool keys: the pool reaction and metabolite labels and the open
      bounds of each pool exchange, in key order. */
  method PoolLists(pool: PoolDict) returns (exRxns: seq<string>, exMets: seq<string>, poolLb: seq<real>, poolUb: seq<real>)
    ensures exRxns == PoolReactionLabels(Keys(pool)) && exMets == PoolMetaboliteLabels(Keys(pool))
    ensures poolLb == seq(|pool|, _ => PoolLowerBound) && poolUb == seq(|pool|, _ => PoolUpperBound)
  {
    exRxns, exMets, poolLb, poolUb := [], [], [], [];
    for p := 0 to |pool|
      invariant exRxns == PoolReactionLabels(Keys(pool))[..p] && exMets == PoolMetaboliteLabels(Keys(pool))[..p]
      invariant poolLb == seq(p, _ => PoolLowerBound) && poolUb == seq(p, _ => PoolUpperBound)
    {
      var key := pool[p].0;
      exRxns := exRxns + [Label("EX_" + key, "pool")];
      exMets := exMets + [Label(key, "pool")];
      poolLb := poolLb + [PoolLowerBound];
      poolUb := poolUb + [PoolUpperBound];
    }
  }

  /** `objectives[keyOf(model)] = []` for every model. */
  method InitialObjectives<K(==)>(ms: seq<Organism>, keyOf: Organism -> K) returns (objs: map<K, Terms>)
    ensures objs == EmptyObjectives(ms, keyOf)
  {
    objs := map[];
    for i := 0 to |ms|
      invariant objs == EmptyObjectives(ms[..i], keyOf)
    {
      EmptyObjectivesSnoc(ms, keyOf, i);
      objs := objs[keyOf(ms[i]) := []];
    }
    assert ms[..|ms|] == ms;
  }

  /** `d[k].append(t)` on an entry that already holds `d0[k] + terms`. */
  lemma AppendEntry<K>(d0: map<K, Terms>, k: K, terms: Terms, t: (string, real))
    requires k in d0
    ensures var d := d0[k := d0[k] + terms];
      d[k := d[k] + [t]] == d0[k := d0[k] + (terms + [t])]
  {
    assert d0[k] + terms + [t] == d0[k] + (terms + [t]);
  }

  /** The reaction loop of one model: its labels and bounds are appended to the system lists
      and its nonzero-objective reactions to its entry of `objectives`. */
  method AddReactions<K(==)>(model: Organism, keyOf: Organism -> K,
                             rxns0: seq<string>, lb0: seq<real>, ub0: seq<real>, objs0: map<K, Terms>)
    returns (rxns: seq<string>, lb: seq<real>, ub: seq<real>, objs: map<K, Terms>)
    requires keyOf(model) in objs0
    ensures rxns == rxns0 + ReactionLabels(model)
    ensures lb == lb0 + LowerBounds(model) && ub == ub0 + UpperBounds(model)
    ensures objs == objs0[keyOf(model) := objs0[keyOf(model)] + ObjectiveTerms(model.reactions)]
  {
    var k := keyOf(model);
    var rs := model.reactions;
    rxns, lb, ub, objs := rxns0, lb0, ub0, objs0;
    ghost var terms: Terms := [];
    assert objs0[k] + terms == objs0[k];
    assert objs0[k := objs0[k]] == objs0;
    for j := 0 to |rs|
      invariant rxns == rxns0 + ReactionLabels(model)[..j]
      invariant lb == lb0 + LowerBounds(model)[..j] && ub == ub0 + UpperBounds(model)[..j]
      invariant terms == ObjectiveTerms(rs[..j])
      invariant objs == objs0[k := objs0[k] + terms]
    {
      var r := rs[j];
      ObjectiveTermsStep(rs, j);
      assert ReactionLabels(model)[..j + 1] == ReactionLabels(model)[..j] + [Label(r.id, model.id)];
      assert LowerBounds(model)[..j + 1] == LowerBounds(model)[..j] + [r.lowerBound];
      assert UpperBounds(model)[..j + 1] == UpperBounds(model)[..j] + [r.upperBound];
      rxns := rxns + [Label(r.id, model.id)];
      lb := lb + [r.lowerBound];
      ub := ub + [r.upperBound];
      if r.objectiveCoefficient != 0.0 {
        AppendEntry(objs0, k, terms, (r.id, r.objectiveCoefficient));
        objs := objs[k := objs[k] + [(r.id, r.objectiveCoefficient)]];
        terms := terms + [(r.id, r.objectiveCoefficient)];
      }
    }
    assert rs[..|rs|] == rs;
  }

  /** The metabolite loop of one model. */
  method AddMetabolites(model: Organism, mets0: seq<string>) returns (mets: seq<string>)
    ensures mets == mets0 + MetaboliteLabels(model)
  {
    mets := mets0;
    for j := 0 to |model.metabolites|
      invariant mets == mets0 + MetaboliteLabels(model)[..j]
    {
      assert MetaboliteLabels(model)[..j + 1] == MetaboliteLabels(model)[..j] + [Label(model.metabolites[j], model.id)];
      mets := mets + [Label(model.metabolites[j], model.id)];
    }
  }

  /** The organism loops: labels and bounds model by model, and the `objectives` dictionary. */
  method OrganismLists<K(==)>(ms: seq<Organism>, keyOf: Organism -> K)
    returns (rxns: seq<string>, mets: seq<string>, lb: seq<real>, ub: seq<real>, objs: map<K, Terms>)
    ensures rxns == ConcatMap(ms, ReactionLabels) && mets == ConcatMap(ms, MetaboliteLabels)
    ensures lb == ConcatMap(ms, LowerBounds) && ub == ConcatMap(ms, UpperBounds)
    ensures objs == ObjectivesOf(ms, keyOf)
  {
    rxns, mets, lb, ub := [], [], [], [];
    objs := InitialObjectives(ms, keyOf);
    ghost var empty := objs;
    EmptyObjectivesSpec(ms, keyOf);
    assert forall b :: 0 <= b < |ms| ==> keyOf(ms[b]) in empty by {
      forall b | 0 <= b < |ms| ensures keyOf(ms[b]) in empty {
        assert KeyOfSome(ms, keyOf, keyOf(ms[b]));
      }
    }
    for i := 0 to |ms|
      invariant rxns == ConcatMap(ms[..i], ReactionLabels) && mets == ConcatMap(ms[..i], MetaboliteLabels)
      invariant lb == ConcatMap(ms[..i], LowerBounds) && ub == ConcatMap(ms[..i], UpperBounds)
      invariant objs == AddObjectives(empty, ms[..i], keyOf)
    {
      var model := ms[i];
      assert keyOf(model) in empty;
      AddObjectivesKeys(empty, ms[..i], keyOf);
      AddObjectivesSnoc(empty, ms, keyOf, i);
      ConcatMapSnoc(ms, ReactionLabels, i);
      ConcatMapSnoc(ms, MetaboliteLabels, i);
      ConcatMapSnoc(ms, LowerBounds, i);
      ConcatMapSnoc(ms, UpperBounds, i);
      rxns, lb, ub, objs := AddReactions(model, keyOf, rxns, lb, ub, objs);
      mets := AddMetabolites(model, mets);
    }
    assert ms[..|ms|] == ms;
  }

  /** The coupling loop: starting from `block_diag([native blocks, -eye(|pool|)])`, each
      triple of each pool key writes `-coeff` at (the key's pool row, the triple's reaction
      column), by direct assignment. */
  method CoupledMatrix(ms: seq<Organism>, pool: PoolDict, sysmets: seq<string>, sysrxns: seq<string>) returns (S: Matrix)
    requires |ms| > 0 && AlignedNatives(ms) && PoolResolvable(pool, ms)
    requires sysmets == SysMetabolites(ms, Keys(pool)) && sysrxns == SysReactions(ms, Keys(pool))
    ensures S == Ssigma(ms, pool)
  {
    AddressableSys(ms, pool);
    var base := SsigmaBase(ms, |pool|);
    S := base;
    ghost var ws: seq<Write> := [];
    AddressableTake(pool, sysmets, sysrxns, 0);
    for p := 0 to |pool|
      invariant Addressable(pool[..p], sysmets, sysrxns)
      invariant ws == CouplingWrites(pool[..p], sysmets, sysrxns)
      invariant S == ApplyWrites(base, ws)
    {
      CouplingWritesSnoc(pool, sysmets, sysrxns, p);
      var (met, ts) := pool[p];
      var metIdx := IndexOf(sysmets, Label(met, "pool"));
      S, ws := CoupleGroup(base, ws, metIdx, ts, sysrxns, S);
    }
    assert pool[..|pool|] == pool;
  }

  /** The inner loop of the coupling: the writes of one pool key's triples. */
  method CoupleGroup(ghost base: Matrix, ghost ws0: seq<Write>, row: nat, ts: seq<Triple>, sysrxns: seq<string>, S0: Matrix)
    returns (S: Matrix, ghost ws: seq<Write>)
    requires Valid(base) && row < base.rows && base.cols == |sysrxns|
    requires forall t :: t in ts ==> TripleLabel(t) in sysrxns
    requires InBounds(ws0, base.rows, base.cols) && S0 == ApplyWrites(base, ws0)
    ensures ws == ws0 + GroupWrites(row, ts, sysrxns)
    ensures InBounds(ws, base.rows, base.cols) && S == ApplyWrites(base, ws)
  {
    S, ws := S0, ws0;
    assert ws0 + GroupWrites(row, ts[..0], sysrxns) == ws0;
    for t := 0 to |ts|
      invariant ws == ws0 + GroupWrites(row, ts[..t], sysrxns)
      invariant InBounds(ws, base.rows, base.cols) && S == ApplyWrites(base, ws)
    {
      GroupWritesSnoc(row, ts, sysrxns, t);
      var rxnIdx := IndexOf(sysrxns, TripleLabel(ts[t]));
      var w := Write(row, rxnIdx, -ts[t].coef);
      assert InBounds(ws + [w], base.rows, base.cols);
      ApplyWritesSnoc(base, ws, w);
      S := Assign(S, w);
      ws := ws + [w];
    }
    assert ts[..|ts|] == ts;
  }

  /** The `P` loop of `to_vlp`: for model i, each term `(rxn, coeff)` of its objectives entry
      writes `coeff` at row i, column `sysreactions.index("{rxn}:{model.id}")`. */
  method ObjectiveRows<K(==)>(ms: seq<Organism>, keyOf: Organism -> K, objs: map<K, Terms>,
                              ghost keys: seq<string>, sysrxns: seq<string>) returns (P: Matrix)
    requires KeysDistinct(ms, keyOf) && objs == ObjectivesOf(ms, keyOf)
    requires sysrxns == SysReactions(ms, keys)
    ensures P == ObjectiveMatrix(ms, keys)
  {
    ObjectivesOfSpec(ms, keyOf);
    SysObjectivesAddressable(ms, keys);
    var zero := Zeros(|ms|, |sysrxns|);
    P := zero;
    ghost var ws: seq<Write> := [];
    for i := 0 to |ms|
      invariant ObjectivesAddressable(ms[..i], sysrxns)
      invariant ws == PWrites(ms[..i], sysrxns)
      invariant InBounds(ws, |ms|, |sysrxns|) && P == ApplyWrites(zero, ws)
    {
      AddressablePrefix(ms, sysrxns, i + 1);
      PWritesSnoc(ms, sysrxns, i);
      var terms := objs[keyOf(ms[i])];
      P, ws := ObjectiveRow(zero, ws, i, ms[i], terms, sysrxns, P);
    }
    assert ms[..|ms|] == ms;
  }

  /** The inner loop of the `P` loop: the writes of one model's objective terms. */
  method ObjectiveRow(ghost zero: Matrix, ghost ws0: seq<Write>, row: nat, model: Organism, terms: Terms,
                      sysrxns: seq<string>, P0: Matrix)
    returns (P: Matrix, ghost ws: seq<Write>)
    requires Valid(zero) && row < zero.rows && zero.cols == |sysrxns|
    requires forall t :: t in terms ==> Label(t.0, model.id) in sysrxns
    requires InBounds(ws0, zero.rows, zero.cols) && P0 == ApplyWrites(zero, ws0)
    ensures ws == ws0 + ObjectiveWrites(row, terms, model.id, sysrxns)
    ensures InBounds(ws, zero.rows, zero.cols) && P == ApplyWrites(zero, ws)
  {
    P, ws := P0, ws0;
    assert ws0 + ObjectiveWrites(row, terms[..0], model.id, sysrxns) == ws0;
    for t := 0 to |terms|
      invariant forall u :: u in terms[..t] ==> Label(u.0, model.id) in sysrxns
      invariant ws == ws0 + ObjectiveWrites(row, terms[..t], model.id, sysrxns)
      invariant InBounds(ws, zero.rows, zero.cols) && P == ApplyWrites(zero, ws)
    {
      var (rxn, coeff) := terms[t];
      assert terms[..t + 1] == terms[..t] + [terms[t]];
      assert forall u :: u in terms[..t + 1] ==> u in terms;
      ObjectiveWritesSnoc(row, terms[..t], terms[t], model.id, sysrxns);
      var k := IndexOf(sysrxns, Label(rxn, model.id));
      var w := Write(row, k, coeff);
      assert InBounds(ws + [w], zero.rows, zero.cols);
      ApplyWritesSnoc(zero, ws, w);
      P := Assign(P, w);
      ws := ws + [w];
    }
    assert terms[..|terms|] == terms;
  }
}
