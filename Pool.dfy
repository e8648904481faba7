/** The pool dictionary: canonical pool name -> ordered list of (model, exchange reaction,
    coefficient) triples. Python dicts keep insertion order, so a dictionary is an ordered
    list of (key, value) pairs with distinct keys. */
module Pool {

  import opened Sequences
  import opened Organisms

  /** `(model, rxn_ex, rxn_ex.get_coefficient(met_ex.id))`; the reaction is kept by its id,
      the only thing the assembly reads from it. */
  datatype Triple = Triple(model: Organism, rxn: string, coef: real)

  type PoolDict = seq<(string, seq<Triple>)>

  /** `pooldict.keys()`, in insertion order. */
  function Keys(pool: PoolDict): (ks: seq<string>)
    ensures |ks| == |pool|
  {
    seq(|pool|, p requires 0 <= p < |pool| => pool[p].0)
  }

  /** `pooldict[k].append(t)` on a `defaultdict(list)`: a missing key is created at the end
      with the list `[t]`; an existing key keeps its place and gets `t` appended. */
  function Append(pool: PoolDict, k: string, t: Triple): (r: PoolDict)
    ensures k in Keys(pool) ==> |r| == |pool| && r[IndexOf(Keys(pool), k)] == (k, pool[IndexOf(Keys(pool), k)].1 + [t])
    ensures k in Keys(pool) ==> forall p :: 0 <= p < |pool| && p != IndexOf(Keys(pool), k) ==> r[p] == pool[p]
    ensures k !in Keys(pool) ==> r == pool + [(k, [t])]
  {
    if k in Keys(pool) then
      var p := IndexOf(Keys(pool), k);
      pool[p := (k, pool[p].1 + [t])]
    else pool + [(k, [t])]
  }

  /** The keys of a list of (key, triple) pairs, in order. */
  function KeySeq(ks: seq<(string, Triple)>): (r: seq<string>)
    ensures |r| == |ks|
  {
    seq(|ks|, x requires 0 <= x < |ks| => ks[x].0)
  }

  /** The dictionary obtained by appending every (key, triple) pair in turn. */
  function Group(ks: seq<(string, Triple)>): PoolDict {
    if ks == [] then [] else Append(Group(ks[..|ks| - 1]), ks[|ks| - 1].0, ks[|ks| - 1].1)
  }

  lemma GroupSnoc(ks: seq<(string, Triple)>, h: (string, Triple))
    ensures Group(ks + [h]) == Append(Group(ks), h.0, h.1)
  {
    assert (ks + [h])[..|ks|] == ks;
  }

  /** The triples paired with key k, in order: an independent, per-key description. */
  function TriplesOf(ks: seq<(string, Triple)>, k: string): seq<Triple> {
    if ks == [] then []
    else TriplesOf(ks[..|ks| - 1], k) + (if ks[|ks| - 1].0 == k then [ks[|ks| - 1].1] else [])
  }

  /** `pooldict[k]`, or the empty list for a key that is absent. */
  function GroupOf(pool: PoolDict, k: string): seq<Triple> {
    if k in Keys(pool) then pool[IndexOf(Keys(pool), k)].1 else []
  }

  lemma KeySeqPrefix(ks: seq<(string, Triple)>, n: nat)
    requires n <= |ks|
    ensures KeySeq(ks[..n]) == KeySeq(ks)[..n]
  {
  }

  /** The dictionary's keys are distinct, and they are exactly the keys that occur. */
  lemma {:induction false} GroupKeys(ks: seq<(string, Triple)>)
    ensures Distinct(Keys(Group(ks)))
    ensures forall k :: k in Keys(Group(ks)) <==> k in KeySeq(ks)
  {
    if ks != [] {
      var n := |ks| - 1;
      var g := Group(ks[..n]);
      GroupKeys(ks[..n]);
      KeySeqPrefix(ks, n);
      assert KeySeq(ks) == KeySeq(ks[..n]) + [ks[n].0];
      if ks[n].0 in Keys(g) {
        assert Keys(Group(ks)) == Keys(g);
      } else {
        assert Keys(Group(ks)) == Keys(g) + [ks[n].0];
      }
    }
  }

  /** Each key's list holds exactly its triples, in the order they were appended. */
  lemma {:induction false} GroupContents(ks: seq<(string, Triple)>)
    ensures forall p :: 0 <= p < |Group(ks)| ==> Group(ks)[p].1 == TriplesOf(ks, Group(ks)[p].0)
  {
    if ks != [] {
      var n := |ks| - 1;
      var g := Group(ks[..n]);
      GroupContents(ks[..n]);
      GroupKeys(ks[..n]);
      assert ks[..n] == ks[..|ks| - 1];
      var k := ks[n].0;
      if k in Keys(g) {
        var q := IndexOf(Keys(g), k);
        forall p | 0 <= p < |Group(ks)|
          ensures Group(ks)[p].1 == TriplesOf(ks, Group(ks)[p].0)
        {
          if p != q {
            assert Keys(g)[p] != Keys(g)[q];
          }
        }
      } else {
        TriplesOfAbsent(ks[..n], k);
        forall p | 0 <= p < |Group(ks)|
          ensures Group(ks)[p].1 == TriplesOf(ks, Group(ks)[p].0)
        {
          if p < |g| {
            assert Keys(g)[p] == g[p].0 && Group(ks)[p] == g[p];
          }
        }
      }
    }
  }

  /** A key that never occurs has no triples. */
  lemma {:induction false} TriplesOfAbsent(ks: seq<(string, Triple)>, k: string)
    requires k !in KeySeq(ks)
    ensures TriplesOf(ks, k) == []
  {
    if ks != [] {
      KeySeqPrefix(ks, |ks| - 1);
      assert KeySeq(ks)[|ks| - 1] == ks[|ks| - 1].0;
      TriplesOfAbsent(ks[..|ks| - 1], k);
    }
  }

  /** `pooldict[k]` is the list of k's triples in appending order, for every key. */
  lemma GroupOfSpec(ks: seq<(string, Triple)>, k: string)
    ensures GroupOf(Group(ks), k) == TriplesOf(ks, k)
  {
    GroupKeys(ks);
    GroupContents(ks);
    if k !in Keys(Group(ks)) {
      TriplesOfAbsent(ks, k);
    }
  }

  /** Every key is among `seen`, and keys come in the order of their first position there. */
  ghost predicate InFirstSeenOrder(keys: seq<string>, seen: seq<string>) {
    && (forall p :: 0 <= p < |keys| ==> keys[p] in seen)
    && (forall p, q :: 0 <= p < q < |keys| ==> IndexOf(seen, keys[p]) < IndexOf(seen, keys[q]))
  }

  /** Seeing one more key keeps first-seen order: a known key stays where it is, a new one goes last. */
  lemma FirstSeenSnoc(keys: seq<string>, seen: seq<string>, k: string)
    requires InFirstSeenOrder(keys, seen)
    requires k in seen ==> k in keys
    ensures InFirstSeenOrder(if k in keys then keys else keys + [k], seen + [k])
  {
    forall p | 0 <= p < |keys|
      ensures IndexOf(seen + [k], keys[p]) == IndexOf(seen, keys[p]) < |seen|
    {
      IndexOfPrefix(seen, [k], keys[p]);
    }
    if k !in keys {
      assert IndexOf(seen + [k], k) == |seen| by {
        assert (seen + [k])[|seen|] == k;
        assert (seen + [k])[..|seen|] == seen;
      }
    }
  }

  /** Keys are laid out in the order in which each was first encountered. */
  lemma {:induction false} GroupOrder(ks: seq<(string, Triple)>)
    ensures InFirstSeenOrder(Keys(Group(ks)), KeySeq(ks))
  {
    if ks != [] {
      var n := |ks| - 1;
      var k := ks[n].0;
      var oldKeys := Keys(Group(ks[..n]));
      GroupOrder(ks[..n]);
      GroupKeys(ks[..n]);
      KeySeqPrefix(ks, n);
      assert KeySeq(ks) == KeySeq(ks[..n]) + [k];
      assert Keys(Group(ks)) == if k in oldKeys then oldKeys else oldKeys + [k];
      FirstSeenSnoc(oldKeys, KeySeq(ks[..n]), k);
    }
  }

  /** A triple is in key k's list exactly when the pair (k, t) was appended. */
  lemma {:induction false} TriplesOfMember(ks: seq<(string, Triple)>, k: string, t: Triple)
    ensures t in TriplesOf(ks, k) <==> (k, t) in ks
  {
    if ks != [] {
      var n := |ks| - 1;
      TriplesOfMember(ks[..n], k, t);
      assert ks == ks[..n] + [ks[n]];
    }
  }

  lemma KeySeqMember(ks: seq<(string, Triple)>, h: (string, Triple))
    requires h in ks
    ensures h.0 in KeySeq(ks)
  {
    var x :| 0 <= x < |ks| && ks[x] == h;
    assert KeySeq(ks)[x] == h.0;
  }
}
