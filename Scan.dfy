/** The order in which both versions of the pool construction visit exchange metabolites:
    model by model, exchange by exchange, metabolite by metabolite. */
module Scan {
  import opened Wrappers
  import opened Sequences
  import opened Organisms
  import opened Pool
  import opened Assembly

  /** One visit of the innermost loop body: the model, the exchange reaction, the
      metabolite id and the exchange's coefficient of that metabolite. */
  datatype Site = Site(model: Organism, rxn: Reaction, met: string, coef: real)

  /** The visits for the metabolites `mets` of exchange `e` of model `o`. */
  function ExchangeSites(o: Organism, e: Reaction, mets: seq<(string, real)>): (r: seq<Site>)
    ensures |r| == |mets|
  {
    if mets == [] then []
    else ExchangeSites(o, e, mets[..|mets| - 1]) + [Site(o, e, mets[|mets| - 1].0, mets[|mets| - 1].1)]
  }

  /** The visits for the exchanges `es` of model `o`. */
  function ModelSites(o: Organism, es: seq<Reaction>): seq<Site> {
    if es == [] then []
    else ModelSites(o, es[..|es| - 1]) + ExchangeSites(o, es[|es| - 1], es[|es| - 1].metabolites)
  }

  /** The visits for all models, in order. */
  function Sites(ms: seq<Organism>): seq<Site> {
    if ms == [] then []
    else Sites(ms[..|ms| - 1]) + ModelSites(ms[|ms| - 1], ms[|ms| - 1].exchanges)
  }

  lemma {:induction false} ExchangeSitesSpec(o: Organism, e: Reaction, mets: seq<(string, real)>)
    ensures forall k :: 0 <= k < |mets| ==> ExchangeSites(o, e, mets)[k] == Site(o, e, mets[k].0, mets[k].1)
  {
    if mets != [] {
      ExchangeSitesSpec(o, e, mets[..|mets| - 1]);
    }
  }

  /** s is the visit of metabolite k of exchange j of model o. */
  ghost predicate VisitOf(s: Site, o: Organism, es: seq<Reaction>) {
    exists j, k :: 0 <= j < |es| && 0 <= k < |es[j].metabolites| &&
      s == Site(o, es[j], es[j].metabolites[k].0, es[j].metabolites[k].1)
  }

  /** A visit of model o's scan comes from one of its exchanges, and every metabolite of every
      exchange is visited. */
  lemma {:induction false} ModelSitesSpec(o: Organism, es: seq<Reaction>)
    ensures forall s :: s in ModelSites(o, es) <==> VisitOf(s, o, es)
  {
    if es != [] {
      var n := |es| - 1;
      var front, tail := ModelSites(o, es[..n]), ExchangeSites(o, es[n], es[n].metabolites);
      ModelSitesSpec(o, es[..n]);
      ExchangeSitesSpec(o, es[n], es[n].metabolites);
      assert ModelSites(o, es) == front + tail;
      forall s ensures s in ModelSites(o, es) <==> VisitOf(s, o, es)
      {
        assert s in ModelSites(o, es) <==> s in front || s in tail;
        if s in front {
          var j, k :| 0 <= j < n && 0 <= k < |es[..n][j].metabolites| &&
            s == Site(o, es[..n][j], es[..n][j].metabolites[k].0, es[..n][j].metabolites[k].1);
          assert es[..n][j] == es[j];
        }
        if s in tail {
          var k :| 0 <= k < |tail| && tail[k] == s;
          assert s == Site(o, es[n], es[n].metabolites[k].0, es[n].metabolites[k].1);
        }
        if VisitOf(s, o, es) {
          var j, k :| 0 <= j < |es| && 0 <= k < |es[j].metabolites| &&
            s == Site(o, es[j], es[j].metabolites[k].0, es[j].metabolites[k].1);
          if j < n {
            assert es[..n][j] == es[j];
            assert VisitOf(s, o, es[..n]);
          } else {
            assert tail[k] == s;
          }
        }
      }
    }
  }

  /** A visit of the whole scan comes from one of the models. */
  lemma {:induction false} SitesSpec(ms: seq<Organism>)
    ensures forall s :: s in Sites(ms) <==> exists b :: 0 <= b < |ms| && s in ModelSites(ms[b], ms[b].exchanges)
  {
    if ms != [] {
      var n := |ms| - 1;
      var front, last := Sites(ms[..n]), ModelSites(ms[n], ms[n].exchanges);
      SitesSpec(ms[..n]);
      assert Sites(ms) == front + last;
      forall s ensures s in Sites(ms) <==> exists b :: 0 <= b < |ms| && s in ModelSites(ms[b], ms[b].exchanges)
      {
        assert s in Sites(ms) <==> s in front || s in last;
        if s in front {
          var b :| 0 <= b < n && s in ModelSites(ms[..n][b], ms[..n][b].exchanges);
          assert ms[..n][b] == ms[b];
        }
        if exists b :: 0 <= b < |ms| && s in ModelSites(ms[b], ms[b].exchanges) {
          var b :| 0 <= b < |ms| && s in ModelSites(ms[b], ms[b].exchanges);
          if b < n {
            assert ms[..n][b] == ms[b];
          }
        }
      }
    }
  }

  /** The scan of a prefix of the models extends by one model's visits. */
  lemma SitesSnoc(ms: seq<Organism>, i: nat)
    requires i < |ms|
    ensures Sites(ms[..i + 1]) == Sites(ms[..i]) + ModelSites(ms[i], ms[i].exchanges)
  {
    assert ms[..i + 1][..i] == ms[..i];
  }

  lemma ModelSitesSnoc(o: Organism, es: seq<Reaction>, j: nat)
    requires j < |es|
    ensures ModelSites(o, es[..j + 1]) == ModelSites(o, es[..j]) + ExchangeSites(o, es[j], es[j].metabolites)
  {
    assert es[..j + 1][..j] == es[..j];
  }

  lemma ExchangeSitesSnoc(o: Organism, e: Reaction, mets: seq<(string, real)>, k: nat)
    requires k < |mets|
    ensures ExchangeSites(o, e, mets[..k + 1]) == ExchangeSites(o, e, mets[..k]) + [Site(o, e, mets[k].0, mets[k].1)]
  {
    assert mets[..k + 1][..k] == mets[..k];
  }

  /** The triple recorded for a visit. */
  function TripleAt(s: Site): Triple {
    Triple(s.model, s.rxn.id, s.coef)
  }

  /** The pool entries of a scan, in order: one `(key, triple)` per visit that the identity map
      `key` names, nothing for the other visits. */
  function PoolHits(sites: seq<Site>, key: Site -> Option<string>): seq<(string, Triple)> {
    if sites == [] then []
    else
      var s := sites[|sites| - 1];
      PoolHits(sites[..|sites| - 1], key) + match key(s) case Some(k) => [(k, TripleAt(s))] case None => []
  }

  lemma PoolHitsSnoc(sites: seq<Site>, s: Site, key: Site -> Option<string>)
    ensures PoolHits(sites + [s], key) ==
      PoolHits(sites, key) + match key(s) case Some(k) => [(k, TripleAt(s))] case None => []
  {
    assert (sites + [s])[..|sites|] == sites;
  }

  /** One more visit: the dictionary gets the visit's triple appended under the name the map
      gives, or stays as it is. */
  lemma ScanStep(sites: seq<Site>, s: Site, key: Site -> Option<string>)
    ensures Group(PoolHits(sites + [s], key)) ==
      match key(s) case Some(k) => Append(Group(PoolHits(sites, key)), k, TripleAt(s)) case None => Group(PoolHits(sites, key))
  {
    PoolHitsSnoc(sites, s, key);
    match key(s) {
      case Some(k) => GroupSnoc(PoolHits(sites, key), (k, TripleAt(s)));
      case None => assert PoolHits(sites + [s], key) == PoolHits(sites, key);
    }
  }

  lemma ExchangeSitesExtend(sites: seq<Site>, o: Organism, e: Reaction, k: nat)
    requires k < |e.metabolites|
    ensures sites + ExchangeSites(o, e, e.metabolites[..k + 1]) ==
      (sites + ExchangeSites(o, e, e.metabolites[..k])) + [Site(o, e, e.metabolites[k].0, e.metabolites[k].1)]
  {
    ExchangeSitesSnoc(o, e, e.metabolites, k);
  }

  lemma ModelSitesExtend(sites: seq<Site>, o: Organism, j: nat)
    requires j < |o.exchanges|
    ensures sites + ModelSites(o, o.exchanges[..j + 1]) ==
      (sites + ModelSites(o, o.exchanges[..j])) + ExchangeSites(o, o.exchanges[j], o.exchanges[j].metabolites)
  {
    ModelSitesSnoc(o, o.exchanges, j);
  }

  /** An entry is produced exactly for each visit the map names, under the name it gives. */
  lemma {:induction false} PoolHitsSpec(sites: seq<Site>, key: Site -> Option<string>)
    ensures forall h :: h in PoolHits(sites, key) <==> exists s :: s in sites && key(s) == Some(h.0) && h.1 == TripleAt(s)
  {
    if sites != [] {
      var n := |sites| - 1;
      PoolHitsSpec(sites[..n], key);
      assert sites == sites[..n] + [sites[n]];
      PoolHitsSnoc(sites[..n], sites[n], key);
      forall h ensures h in PoolHits(sites, key) <==> exists s :: s in sites && key(s) == Some(h.0) && h.1 == TripleAt(s)
      {
        if exists s :: s in sites && key(s) == Some(h.0) && h.1 == TripleAt(s) {
          var s :| s in sites && key(s) == Some(h.0) && h.1 == TripleAt(s);
          if s != sites[n] {
            assert s in sites[..n];
          }
        }
      }
    }
  }

  /** A map that names nothing produces no entries. */
  lemma {:induction false} PoolHitsNone(sites: seq<Site>, key: Site -> Option<string>)
    requires forall s :: s in sites ==> key(s) == None
    ensures PoolHits(sites, key) == []
  {
    if sites != [] {
      assert forall s :: s in sites[..|sites| - 1] ==> s in sites;
      PoolHitsNone(sites[..|sites| - 1], key);
    }
  }

  /** The pool built from a scan: its keys are the names the map gives to visited metabolites,
      and each key holds the triples of those visits, in scan order. */
  lemma PoolSpec(sites: seq<Site>, key: Site -> Option<string>, k: string, t: Triple)
    ensures k in Keys(Group(PoolHits(sites, key))) <==> exists s :: s in sites && key(s) == Some(k)
    ensures t in GroupOf(Group(PoolHits(sites, key)), k) <==> exists s :: s in sites && key(s) == Some(k) && t == TripleAt(s)
  {
    var hits := PoolHits(sites, key);
    PoolHitsSpec(sites, key);
    GroupKeys(hits);
    GroupOfSpec(hits, k);
    TriplesOfMember(hits, k, t);
    if exists s :: s in sites && key(s) == Some(k) {
      var s :| s in sites && key(s) == Some(k);
      assert (k, TripleAt(s)) in hits;
      KeySeqMember(hits, (k, TripleAt(s)));
    }
    if k in KeySeq(hits) {
      var x :| 0 <= x < |hits| && KeySeq(hits)[x] == k;
      assert hits[x] in hits;
    }
  }

  /** A dictionary filled by one update per visit, in scan order (both `get_common_mets`). */
  function FoldSites<D>(d: D, sites: seq<Site>, step: (D, Site) -> D): D {
    if sites == [] then d else step(FoldSites(d, sites[..|sites| - 1], step), sites[|sites| - 1])
  }

  lemma FoldSitesSnoc<D>(d: D, sites: seq<Site>, s: Site, step: (D, Site) -> D)
    ensures FoldSites(d, sites + [s], step) == step(FoldSites(d, sites, step), s)
  {
    assert (sites + [s])[..|sites|] == sites;
  }

  /** Exchange reactions are reactions of their model (cobra's `model.exchanges` is a subset
      of `model.reactions`). */
  ghost predicate ExchangesAreReactions(ms: seq<Organism>) {
    forall b :: 0 <= b < |ms| ==> forall e :: e in ms[b].exchanges ==> e in ms[b].reactions
  }

  /** Every visit names one of the models and one of that model's reactions. */
  lemma SiteResolvable(ms: seq<Organism>, s: Site)
    requires ExchangesAreReactions(ms) && s in Sites(ms)
    ensures Resolvable(TripleAt(s), ms)
  {
    SitesSpec(ms);
    var b :| 0 <= b < |ms| && s in ModelSites(ms[b], ms[b].exchanges);
    var es := ms[b].exchanges;
    ModelSitesSpec(ms[b], es);
    var j, k :| 0 <= j < |es| && 0 <= k < |es[j].metabolites| &&
      s == Site(ms[b], es[j], es[j].metabolites[k].0, es[j].metabolites[k].1);
    assert es[j] in ms[b].reactions;
    var x :| 0 <= x < |ms[b].reactions| && ms[b].reactions[x] == es[j];
    assert ms[b].reactions[x].id == TripleAt(s).rxn;
  }

  /** The pool built from the scan only holds triples the assembly can resolve. */
  lemma ScannedPoolResolvable(ms: seq<Organism>, key: Site -> Option<string>)
    requires ExchangesAreReactions(ms)
    ensures PoolResolvable(Group(PoolHits(Sites(ms), key)), ms)
  {
    var hits := PoolHits(Sites(ms), key);
    var pool := Group(hits);
    GroupContents(hits);
    PoolHitsSpec(Sites(ms), key);
    forall p, t | 0 <= p < |pool| && t in pool[p].1
      ensures Resolvable(t, ms)
    {
      TriplesOfMember(hits, pool[p].0, t);
      var s :| s in Sites(ms) && key(s) == Some(pool[p].0) && t == TripleAt(s);
      SiteResolvable(ms, s);
    }
  }
}
