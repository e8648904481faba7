/** The organism models that enter the ecosystem (cobra `Model` objects, read-only here),
    the `"{id}:{owner}"` labels built from them, and concatenation of per-organism lists. */
module Organisms {

  import opened Matrices
  import opened Sequences

  /** A cobra reaction: its id, bounds, objective coefficient and its metabolites with their
      stoichiometric coefficients, in the order `reaction.metabolites` yields them. */
  datatype Reaction = Reaction(
    id: string,
    lowerBound: real,
    upperBound: real,
    objectiveCoefficient: real,
    metabolites: seq<(string, real)>)

  /** A cobra model: id, reactions and metabolite ids in native order, the exchange reactions
      (`model.exchanges`) and the native stoichiometric matrix (metabolites by reactions). */
  datatype Organism = Organism(
    id: string,
    reactions: seq<Reaction>,
    metabolites: seq<string>,
    exchanges: seq<Reaction>,
    s: Matrix)

  /** What cobra guarantees of a model: exchanges are reactions of the model and the native
      matrix is aligned with the metabolite and reaction lists. */
  ghost predicate Consistent(o: Organism) {
    && (forall e :: e in o.exchanges ==> e in o.reactions)
    && Valid(o.s) && o.s.rows == |o.metabolites| && o.s.cols == |o.reactions|
  }

  /** Model ids are pairwise distinct (the source relies on it and does not check it). */
  ghost predicate DistinctIds(ms: seq<Organism>) {
    forall a, b :: 0 <= a < b < |ms| ==> ms[a].id != ms[b].id
  }

  ghost predicate AllConsistent(ms: seq<Organism>) {
    (forall b :: 0 <= b < |ms| ==> Consistent(ms[b])) && DistinctIds(ms)
  }

  /** `"{a}:{b}"`, the format of every system label. */
  function Label(a: string, b: string): string {
    a + ":" + b
  }

  ghost predicate ColonFree(s: string) {
    ':' !in s
  }

  /** Ids that make labels unambiguous: SBML identifiers contain no ':', reaction and
      metabolite ids are unique inside a model, and no model is called "pool". */
  ghost predicate IdsWellFormed(o: Organism) {
    && o.id != "pool"
    && (forall j :: 0 <= j < |o.reactions| ==> ColonFree(o.reactions[j].id))
    && (forall j, k :: 0 <= j < k < |o.reactions| ==> o.reactions[j].id != o.reactions[k].id)
    && (forall j :: 0 <= j < |o.metabolites| ==> ColonFree(o.metabolites[j]))
    && (forall j, k :: 0 <= j < k < |o.metabolites| ==> o.metabolites[j] != o.metabolites[k])
  }

  /** A label determines both its parts when the first one has no ':'. */
  lemma LabelInjective(a: string, b: string, c: string, d: string)
    requires ColonFree(a) && ColonFree(c) && Label(a, b) == Label(c, d)
    ensures a == c && b == d
  {
    var l := Label(a, b);
    assert l[|a|] == ':';
    assert Label(c, d)[|c|] == ':';
    assert forall k :: 0 <= k < |a| ==> l[k] == a[k];
    assert forall k :: 0 <= k < |c| ==> l[k] == c[k];
    assert a == l[..|a|] && c == Label(c, d)[..|c|];
    assert b == l[|a| + 1..] && d == Label(c, d)[|c| + 1..];
  }

  /** Concatenation of `f(x)` over `xs`, in order: the nested append loops of the source. */
  function ConcatMap<A, T>(xs: seq<A>, f: A -> seq<T>): seq<T> {
    if xs == [] then [] else ConcatMap(xs[..|xs| - 1], f) + f(xs[|xs| - 1])
  }

  /** One more element of `xs` contributes its block at the end. */
  lemma ConcatMapSnoc<A, T>(xs: seq<A>, f: A -> seq<T>, i: nat)
    requires i < |xs|
    ensures ConcatMap(xs[..i + 1], f) == ConcatMap(xs[..i], f) + f(xs[i])
  {
    assert xs[..i + 1][..i] == xs[..i];
  }

  /** Element j of block b of a concatenation sits right after the blocks before b. */
  lemma {:induction false} ConcatMapAt<A, T>(xs: seq<A>, f: A -> seq<T>, b: nat, j: nat)
    requires b < |xs| && j < |f(xs[b])|
    ensures |ConcatMap(xs[..b], f)| + j < |ConcatMap(xs, f)|
    ensures ConcatMap(xs, f)[|ConcatMap(xs[..b], f)| + j] == f(xs[b])[j]
  {
    var n := |xs| - 1;
    assert xs[..n][..b] == xs[..b];
    if b < n {
      ConcatMapAt(xs[..n], f, b, j);
    } else {
      assert xs[..b] == xs[..n];
    }
  }

  /** Everything in a concatenation comes from one of the blocks. */
  lemma {:induction false} ConcatMapMember<A, T>(xs: seq<A>, f: A -> seq<T>, v: T)
    requires v in ConcatMap(xs, f)
    ensures exists b :: 0 <= b < |xs| && v in f(xs[b])
  {
    var n := |xs| - 1;
    if v !in f(xs[n]) {
      ConcatMapMember(xs[..n], f, v);
      var b :| 0 <= b < n && v in f(xs[..n][b]);
      assert xs[..n][b] == xs[b];
    }
  }

  /** Sum of `size(x)` over `xs`. */
  function TotalSize<A>(xs: seq<A>, size: A -> nat): nat {
    if xs == [] then 0 else TotalSize(xs[..|xs| - 1], size) + size(xs[|xs| - 1])
  }

  /** The concatenation is as long as the sum of the block sizes. */
  lemma {:induction false} ConcatMapLength<A, T>(xs: seq<A>, f: A -> seq<T>, size: A -> nat)
    requires forall x :: |f(x)| == size(x)
    ensures |ConcatMap(xs, f)| == TotalSize(xs, size)
  {
    if xs != [] {
      ConcatMapLength(xs[..|xs| - 1], f, size);
    }
  }

  /** Block offsets grow with the prefix and block b ends where block b + 1 starts. */
  lemma {:induction false} TotalSizePrefix<A>(xs: seq<A>, size: A -> nat, b: nat, n: nat)
    requires b < n <= |xs|
    ensures TotalSize(xs[..b + 1], size) == TotalSize(xs[..b], size) + size(xs[b])
    ensures TotalSize(xs[..b + 1], size) <= TotalSize(xs[..n], size)
  {
    assert xs[..b + 1][..b] == xs[..b];
    if b + 1 < n {
      TotalSizePrefix(xs, size, b, n - 1);
      assert xs[..n][..n - 1] == xs[..n - 1];
    }
  }

  function ReactionCount(o: Organism): nat { |o.reactions| }

  function MetaboliteCount(o: Organism): nat { |o.metabolites| }

  /** `"{r.id}:{model.id}"` for each reaction, in native order. */
  function ReactionLabels(o: Organism): (r: seq<string>)
    ensures |r| == |o.reactions|
  {
    seq(|o.reactions|, j requires 0 <= j < |o.reactions| => Label(o.reactions[j].id, o.id))
  }

  /** `"{m.id}:{model.id}"` for each metabolite, in native order. */
  function MetaboliteLabels(o: Organism): (r: seq<string>)
    ensures |r| == |o.metabolites|
  {
    seq(|o.metabolites|, j requires 0 <= j < |o.metabolites| => Label(o.metabolites[j], o.id))
  }

  function LowerBounds(o: Organism): (r: seq<real>)
    ensures |r| == |o.reactions|
  {
    seq(|o.reactions|, j requires 0 <= j < |o.reactions| => o.reactions[j].lowerBound)
  }

  function UpperBounds(o: Organism): (r: seq<real>)
    ensures |r| == |o.reactions|
  {
    seq(|o.reactions|, j requires 0 <= j < |o.reactions| => o.reactions[j].upperBound)
  }

  /** `(r.id, coefficient)` for every reaction whose objective coefficient is nonzero. */
  function ObjectiveTerms(rs: seq<Reaction>): seq<(string, real)> {
    if rs == [] then []
    else
      var r := rs[|rs| - 1];
      ObjectiveTerms(rs[..|rs| - 1]) + (if r.objectiveCoefficient != 0.0 then [(r.id, r.objectiveCoefficient)] else [])
  }

  /** Scanning one more reaction appends its term exactly when its coefficient is nonzero. */
  lemma ObjectiveTermsLast(rs: seq<Reaction>)
    requires rs != []
    ensures var r := rs[|rs| - 1];
      if r.objectiveCoefficient != 0.0
      then ObjectiveTerms(rs) == ObjectiveTerms(rs[..|rs| - 1]) + [(r.id, r.objectiveCoefficient)]
      else ObjectiveTerms(rs) == ObjectiveTerms(rs[..|rs| - 1])
  {
  }

  /** `ObjectiveTermsLast` for a prefix of the reactions, as a loop over them uses it. */
  lemma ObjectiveTermsStep(rs: seq<Reaction>, j: nat)
    requires j < |rs|
    ensures ObjectiveTerms(rs[..j + 1]) ==
      ObjectiveTerms(rs[..j]) + if rs[j].objectiveCoefficient != 0.0 then [(rs[j].id, rs[j].objectiveCoefficient)] else []
  {
    assert rs[..j + 1][..j] == rs[..j];
  }

  /** The objective of one organism: its nonzero-objective reactions in native order. */
  lemma {:induction false} ObjectiveTermsSpec(rs: seq<Reaction>)
    ensures forall t :: t in ObjectiveTerms(rs) <==>
      exists j :: 0 <= j < |rs| && rs[j].objectiveCoefficient != 0.0 && t == (rs[j].id, rs[j].objectiveCoefficient)
  {
    if rs != [] {
      var n := |rs| - 1;
      ObjectiveTermsSpec(rs[..n]);
      forall t ensures t in ObjectiveTerms(rs) <==>
        exists j :: 0 <= j < |rs| && rs[j].objectiveCoefficient != 0.0 && t == (rs[j].id, rs[j].objectiveCoefficient)
      {
        if t in ObjectiveTerms(rs[..n]) {
          var j :| 0 <= j < n && rs[..n][j].objectiveCoefficient != 0.0 && t == (rs[..n][j].id, rs[..n][j].objectiveCoefficient);
          assert rs[..n][j] == rs[j];
        }
        if exists j :: 0 <= j < |rs| && rs[j].objectiveCoefficient != 0.0 && t == (rs[j].id, rs[j].objectiveCoefficient) {
          var j :| 0 <= j < |rs| && rs[j].objectiveCoefficient != 0.0 && t == (rs[j].id, rs[j].objectiveCoefficient);
          if j < n {
            assert rs[..n][j] == rs[j];
          }
        }
      }
    }
  }

  /** The exchange metabolite ids of one organism. */
  function ExchangeMetIds(o: Organism): set<string> {
    set e, p | e in o.exchanges && p in e.metabolites :: p.0
  }
}
