/** Helpers of the current version (mocbapy/utilities.py): the identity map built from
    exchange metabolites, the divide-and-conquer sum, solver selection and the layout of
    the base optimisation model `S v = 0, lb <= v <= ub`. */
module Utilities {
  import opened Wrappers
  import opened Matrices
  import opened Organisms
  import opened Pool
  import opened Scan
  import opened Build
  import opened Assembly
  import opened EcosystemModel

  // ---------------------------------------------------------------------------------------
  // get_common_mets

  /** One step of `get_common_mets`: `common_mets[(met_ex.id, model)] = met_ex.id`. */
  function IdentityStep(m: map<(string, Organism), string>, s: Site): map<(string, Organism), string> {
    m[(s.met, s.model) := s.met]
  }

  function IdentityMapOf(sites: seq<Site>): map<(string, Organism), string> {
    FoldSites(map[], sites, IdentityStep)
  }

  /** One key per visited (metabolite id, model) pair and no other, each naming its own
      metabolite id. */
  lemma {:induction false} IdentityMapSpec(sites: seq<Site>)
    ensures forall p :: p in IdentityMapOf(sites) <==> exists s :: s in sites && p == (s.met, s.model)
    ensures forall p :: p in IdentityMapOf(sites) ==> IdentityMapOf(sites)[p] == p.0
  {
    if sites != [] {
      var n := |sites| - 1;
      IdentityMapSpec(sites[..n]);
      assert sites == sites[..n] + [sites[n]];
      FoldSitesSnoc(map[], sites[..n], sites[n], IdentityStep);
      var m0 := IdentityMapOf(sites[..n]);
      assert IdentityMapOf(sites) == IdentityStep(m0, sites[n]);
      forall p ensures p in IdentityMapOf(sites) <==> exists s :: s in sites && p == (s.met, s.model) {
        if exists s :: s in sites[..n] && p == (s.met, s.model) {
          var s :| s in sites[..n] && p == (s.met, s.model);
          assert s in sites;
        }
        if exists s :: s in sites && p == (s.met, s.model) {
          var s :| s in sites && p == (s.met, s.model);
          assert s == sites[n] || s in sites[..n];
        }
      }
    }
  }

  /** `get_common_mets(model_list)`: the identity map over every exchange metabolite of every
      model. */
  method GetCommonMets(modelList: seq<Organism>) returns (commonMets: map<(string, Organism), string>)
    ensures commonMets == IdentityMapOf(Sites(modelList))
  {
    commonMets := FoldScan(modelList, map[], IdentityStep);
  }

  /** With the identity map, every exchange metabolite is pooled under its own id: the pool
      keys are exactly the visited metabolite ids. */
  lemma IdentityMapPoolsAll(ms: seq<Organism>, k: string)
    ensures k in Keys(Group(PoolHits(Sites(ms), CurrentKey(IdentityMapOf(Sites(ms)))))) <==>
      exists s :: s in Sites(ms) && s.met == k
  {
    var dict := IdentityMapOf(Sites(ms));
    IdentityMapSpec(Sites(ms));
    CurrentPoolSpec(ms, dict, k, Triple(Organism("", [], [], [], Zeros(0, 0)), "", 0.0));
    if exists s :: s in Sites(ms) && s.met == k {
      var s :| s in Sites(ms) && s.met == k;
      assert (s.met, s.model) in dict;
    }
  }

  // ---------------------------------------------------------------------------------------
  // sum_from_list

  /** The ordinary left-to-right sum. */
  function Sum(s: seq<real>): real {
    if s == [] then 0.0 else Sum(s[..|s| - 1]) + s[|s| - 1]
  }

  lemma {:induction false} SumConcat(x: seq<real>, y: seq<real>)
    ensures Sum(x + y) == Sum(x) + Sum(y)
  {
    if y != [] {
      var n := |y| - 1;
      assert (x + y)[..|x + y| - 1] == x + y[..n];
      SumConcat(x, y[..n]);
    } else {
      assert x + y == x;
    }
  }

  lemma SumSplit(le: seq<real>, a: nat, m: nat, b: nat)
    requires a <= m <= b <= |le|
    ensures Sum(le[a..b]) == Sum(le[a..m]) + Sum(le[m..b])
  {
    assert le[a..b] == le[a..m] + le[m..b];
    SumConcat(le[a..m], le[m..b]);
  }

  /** `middle = int((a+b)/2)`: for two or more elements it lies strictly inside `[a, b)`. */
  function Middle(a: nat, b: nat): (m: nat)
    requires a + 2 <= b
    ensures a < m < b
  {
    (a + b) / 2
  }

  /** `sum_from_list_p(le, a, b)`: the sum of `le[a..b]`, split at the middle. */
  function SumFromListP(le: seq<real>, a: nat, b: nat): (r: real)
    requires a <= b <= |le|
    ensures r == Sum(le[a..b])
    decreases b - a
  {
    if a == b then 0.0
    else if b - a == 1 then
      assert le[a..b] == [] + [le[a]];
      le[a]
    else
      var middle := Middle(a, b);
      SumSplit(le, a, middle, b);
      SumFromListP(le, a, middle) + SumFromListP(le, middle, b)
  }

  /** `sum_from_list(list_expr)`: the ordinary sum; 0 for the empty list, the element itself
      for a single one. */
  function SumFromList(le: seq<real>): (r: real)
    ensures r == Sum(le)
    ensures |le| == 0 ==> r == 0.0
    ensures |le| == 1 ==> r == le[0]
  {
    assert le[0..|le|] == le;
    assert |le| == 1 ==> le == [] + [le[0]];
    SumFromListP(le, 0, |le|)
  }

  // ---------------------------------------------------------------------------------------
  // _choose_optlang_interfase

  datatype SolverError =
    | NoSolverAvailable                                  // "No solvers available. ..."
    | SolverNotAvailable(solver: string, avail: seq<string>)  // "Solver '...' not available. ..."

  /** `str.lower()` on ASCII letters. */
  function LowerChar(c: char): char {
    if 'A' <= c <= 'Z' then (c as int - 'A' as int + 'a' as int) as char else c
  }

  function Lower(s: string): (r: string)
    ensures |r| == |s|
    ensures forall i :: 0 <= i < |r| ==> !('A' <= r[i] <= 'Z')
  {
    seq(|s|, i requires 0 <= i < |s| => LowerChar(s[i]))
  }

  /** Lower-casing twice is lower-casing once. */
  lemma LowerIdempotent(s: string)
    ensures Lower(Lower(s)) == Lower(s)
  {
    var once := Lower(s);
    forall i | 0 <= i < |once|
      ensures Lower(once)[i] == once[i]
    {
      assert !('A' <= once[i] <= 'Z');
    }
  }

  /** `[sol.lower() for sol, exist in available_solvers.iteritems() if exist]`. */
  function Avail(solvers: seq<(string, bool)>): seq<string> {
    if solvers == [] then []
    else
      var front := Avail(solvers[..|solvers| - 1]);
      var (sol, exist) := solvers[|solvers| - 1];
      if exist then front + [Lower(sol)] else front
  }

  /** The available list holds the lower-cased names of exactly the installed solvers. */
  lemma {:induction false} AvailSpec(solvers: seq<(string, bool)>)
    ensures forall x :: x in Avail(solvers) <==>
      exists i :: 0 <= i < |solvers| && solvers[i].1 && Lower(solvers[i].0) == x
  {
    if solvers != [] {
      var n := |solvers| - 1;
      AvailSpec(solvers[..n]);
      forall x ensures x in Avail(solvers) <==> exists i :: 0 <= i < |solvers| && solvers[i].1 && Lower(solvers[i].0) == x {
        if exists i :: 0 <= i < n && solvers[..n][i].1 && Lower(solvers[..n][i].0) == x {
          var i :| 0 <= i < n && solvers[..n][i].1 && Lower(solvers[..n][i].0) == x;
          assert solvers[..n][i] == solvers[i];
        }
        if exists i :: 0 <= i < |solvers| && solvers[i].1 && Lower(solvers[i].0) == x {
          var i :| 0 <= i < |solvers| && solvers[i].1 && Lower(solvers[i].0) == x;
          if i < n {
            assert solvers[..n][i] == solvers[i];
          }
        }
      }
    }
  }

  /** Every available name is already lower-case. */
  lemma AvailLower(solvers: seq<(string, bool)>)
    ensures forall x :: x in Avail(solvers) ==> Lower(x) == x
  {
    AvailSpec(solvers);
    forall x | x in Avail(solvers)
      ensures Lower(x) == x
    {
      var i :| 0 <= i < |solvers| && solvers[i].1 && Lower(solvers[i].0) == x;
      LowerIdempotent(solvers[i].0);
    }
  }

  /** `_choose_optlang_interfase(solver)`: the installed solver named by the request, compared
      case-insensitively, or the first installed solver when there is no request; the result
      is the name under which cobra registers that interface. */
  function ChooseOptlangInterfase(solver: Option<string>, available: seq<(string, bool)>): (r: Result<string, SolverError>)
    ensures solver.None? && Avail(available) == [] ==> r == Failure(NoSolverAvailable)
    ensures solver.None? && Avail(available) != [] ==> r == Success(Avail(available)[0])
    ensures solver.Some? ==> (r.Success? <==> Lower(solver.value) in Avail(available))
    ensures solver.Some? && r.Success? ==> r.value == Lower(solver.value)
    ensures solver.Some? && r.Failure? ==> r.error == SolverNotAvailable(Lower(solver.value), Avail(available))
    ensures r.Success? ==> exists i :: 0 <= i < |available| && available[i].1 && Lower(available[i].0) == r.value
  {
    var avail := Avail(available);
    AvailSpec(available);
    AvailLower(available);
    if solver.None? && |avail| == 0 then Failure(NoSolverAvailable)
    else
      var requested := if solver.Some? then solver.value else avail[0];
      var name := Lower(requested);
      if name !in avail then Failure(SolverNotAvailable(name, avail))
      else Success(name)
  }

  // ---------------------------------------------------------------------------------------
  // build_base_opt_model

  datatype Direction = Max | Min

  /** `interfase.Variable(rxn, lb=..., ub=...)`. */
  datatype Variable = Variable(name: string, lb: real, ub: real)

  /** `interfase.Constraint(sum_from_list(terms), lb, ub)`; a term (j, c) stands for
      `flux_variables[j] * c`, and the expression is the sum of the terms. */
  datatype LinearConstraint = LinearConstraint(terms: seq<(nat, real)>, lb: real, ub: real)

  /** The parts of the optlang model that `build_base_opt_model` sets; an empty objective
      expression is the constant 0. */
  datatype OptModel = OptModel(
    interfase: string, name: string,
    variables: seq<Variable>, constraints: seq<LinearConstraint>,
    objective: seq<(nat, real)>, direction: Direction)

  datatype BuildError =
    | SolverFailure(cause: SolverError)
    | ShapeMismatch   // one of the two `assert`s on the shape of `Ssigma`

  /** `[flux_variables[j] * S[i, j] for j in range(n) if S[i, j] != 0]`, over the first n columns. */
  function RowTerms(S: Matrix, i: nat, n: nat): seq<(nat, real)>
    requires Valid(S) && i < S.rows && n <= S.cols
  {
    if n == 0 then []
    else RowTerms(S, i, n - 1) + if At(S, i, n - 1) != 0.0 then [(n - 1, At(S, i, n - 1))] else []
  }

  /** Row i's constraint uses exactly the columns with a nonzero entry, each with that entry,
      in increasing column order. */
  lemma {:induction false} RowTermsSpec(S: Matrix, i: nat, n: nat)
    requires Valid(S) && i < S.rows && n <= S.cols
    ensures forall t :: t in RowTerms(S, i, n) <==> t.0 < n && At(S, i, t.0) != 0.0 && t.1 == At(S, i, t.0)
    ensures forall p, q :: 0 <= p < q < |RowTerms(S, i, n)| ==> RowTerms(S, i, n)[p].0 < RowTerms(S, i, n)[q].0
  {
    if n > 0 {
      RowTermsSpec(S, i, n - 1);
      var front := RowTerms(S, i, n - 1);
      assert forall p :: 0 <= p < |front| ==> front[p] in front;
    }
  }

  /** The flux variables: one per system reaction label, with its bounds. */
  function FluxVariables(sysreactions: seq<string>, lb: seq<real>, ub: seq<real>): (vs: seq<Variable>)
    requires |lb| >= |sysreactions| && |ub| >= |sysreactions|
    ensures |vs| == |sysreactions|
  {
    seq(|sysreactions|, i requires 0 <= i < |sysreactions| => Variable(sysreactions[i], lb[i], ub[i]))
  }

  /** The mass-balance constraints: one equality `row . v = 0` per row of `S`. */
  function MassBalance(S: Matrix): (cs: seq<LinearConstraint>)
    requires Valid(S)
    ensures |cs| == S.rows
  {
    seq(S.rows, i requires 0 <= i < S.rows => LinearConstraint(RowTerms(S, i, S.cols), 0.0, 0.0))
  }

  /** `build_base_opt_model(ecomodel, solver)` on the fields `Ssigma`, `sysreactions`,
      `sysmetabolites`, `lb` and `ub` of an ecosystem. */
  method BuildBaseOptModel(ssigma: Matrix, sysreactions: seq<string>, sysmetabolites: seq<string>,
                           lb: seq<real>, ub: seq<real>, solver: Option<string>, available: seq<(string, bool)>)
    returns (r: Result<OptModel, BuildError>)
    requires Valid(ssigma) && |lb| >= |sysreactions| && |ub| >= |sysreactions|
    ensures ChooseOptlangInterfase(solver, available).Failure? ==>
      r == Failure(SolverFailure(ChooseOptlangInterfase(solver, available).error))
    ensures ChooseOptlangInterfase(solver, available).Success? ==>
      if ssigma.rows != |sysmetabolites| || ssigma.cols != |sysreactions| then r == Failure(ShapeMismatch)
      else r == Success(OptModel(ChooseOptlangInterfase(solver, available).value, "Base Solver Model",
                                 FluxVariables(sysreactions, lb, ub), MassBalance(ssigma), [], Max))
  {
    var interfase := ChooseOptlangInterfase(solver, available);
    if interfase.Failure? {
      return Failure(SolverFailure(interfase.error));
    }
    var m, n := ssigma.rows, ssigma.cols;
    if m != |sysmetabolites| || n != |sysreactions| {
      return Failure(ShapeMismatch);
    }
    var fluxVariables := FluxVariablesOf(sysreactions, lb, ub);
    var constraints := MassBalanceOf(ssigma);
    r := Success(OptModel(interfase.value, "Base Solver Model", fluxVariables, constraints, [], Max));
  }

  /** The loop creating the flux variables. */
  method FluxVariablesOf(sysreactions: seq<string>, lb: seq<real>, ub: seq<real>) returns (fluxVariables: seq<Variable>)
    requires |lb| >= |sysreactions| && |ub| >= |sysreactions|
    ensures fluxVariables == FluxVariables(sysreactions, lb, ub)
  {
    fluxVariables := [];
    for i := 0 to |sysreactions|
      invariant fluxVariables == FluxVariables(sysreactions, lb, ub)[..i]
    {
      fluxVariables := fluxVariables + [Variable(sysreactions[i], lb[i], ub[i])];
    }
    assert FluxVariables(sysreactions, lb, ub)[..|sysreactions|] == FluxVariables(sysreactions, lb, ub);
  }

  /** The loop over the rows of `S`, one equality constraint each. */
  method MassBalanceOf(S: Matrix) returns (constraints: seq<LinearConstraint>)
    requires Valid(S)
    ensures constraints == MassBalance(S)
  {
    constraints := [];
    for i := 0 to S.rows
      invariant constraints == MassBalance(S)[..i]
    {
      var termsConst := RowTermsOf(S, i);
      constraints := constraints + [LinearConstraint(termsConst, 0.0, 0.0)];
    }
    assert MassBalance(S)[..S.rows] == MassBalance(S);
  }

  /** The list comprehension of one row, as a loop over the columns. */
  method RowTermsOf(S: Matrix, i: nat) returns (terms: seq<(nat, real)>)
    requires Valid(S) && i < S.rows
    ensures terms == RowTerms(S, i, S.cols)
  {
    terms := [];
    for j := 0 to S.cols
      invariant terms == RowTerms(S, i, j)
    {
      if S.data[i][j] != 0.0 {
        terms := terms + [(j, S.data[i][j])];
      }
    }
  }

  /** On an assembled ecosystem the shape assertions hold and every reaction label has both
      bounds, so only solver selection can fail. */
  lemma AssembledShapes(ms: seq<Organism>, pool: PoolDict)
    requires AlignedNatives(ms) && PoolResolvable(pool, ms)
    ensures Ssigma(ms, pool).rows == |SysMetabolites(ms, Keys(pool))|
    ensures Ssigma(ms, pool).cols == |SysReactions(ms, Keys(pool))|
    ensures |SysLowerBounds(ms, Keys(pool))| == |SysUpperBounds(ms, Keys(pool))| == |SysReactions(ms, Keys(pool))|
  {
  }
}
