/** The procedures of the current version (mocbapy/procedures.py): the same identity map and
    solver selection as the utilities, and the multi-objective flux variability analysis
    `mo_fva` on a gurobi model, with the optimiser itself as an oracle. */
module Procedures {
  import opened Wrappers
  import opened Organisms
  import opened Scan
  import opened Utilities

  /** `get_common_mets(model_list)`: the same loop as the utilities' copy. */
  method GetCommonMets(modelList: seq<Organism>) returns (commonMets: map<(string, Organism), string>)
    ensures forall p :: p in commonMets <==> exists s :: s in Sites(modelList) && p == (s.met, s.model)
    ensures forall p :: p in commonMets ==> commonMets[p] == p.0
  {
    commonMets := Utilities.GetCommonMets(modelList);
    IdentityMapSpec(Sites(modelList));
  }

  /** `_choose_optlang_interfase(solver)`: the same selection as the utilities' copy. */
  function ChooseOptlangInterfase(solver: Option<string>, available: seq<(string, bool)>): (r: Result<string, SolverError>)
    ensures solver.None? && Avail(available) == [] ==> r == Failure(NoSolverAvailable)
    ensures solver.None? && Avail(available) != [] ==> r == Success(Avail(available)[0])
    ensures solver.Some? ==> (r.Success? <==> Lower(solver.value) in Avail(available))
    ensures solver.Some? && r.Success? ==> r.value == Lower(solver.value)
    ensures solver.Some? && r.Failure? ==> r.error == SolverNotAvailable(Lower(solver.value), Avail(available))
    ensures r.Success? ==> r.value in Avail(available)
  {
    Utilities.ChooseOptlangInterfase(solver, available)
  }

  // ---------------------------------------------------------------------------------------
  // The gurobi model that mo_fva works on

  datatype Sense = Minimize | Maximize

  /** The objective: the constant 0 or a single variable with a sense. */
  datatype GrbObjective = Constant0 | VarObjective(variable: string, sense: Sense)

  /** A linear constraint `lower <= sum of coef * var <= upper` and the handle gurobi returns
      for it; `None` is an absent side. */
  datatype GrbConstr = GrbConstr(handle: nat, terms: seq<(string, real)>, lower: Option<real>, upper: Option<real>)

  /** `model.optimize()` followed by reading `flux.x` of the objective variable: the optimal
      value for the variables, constraints and objective given, or `None` when gurobi finds no
      solution (reading `x` then raises). */
  type Oracle = (seq<string>, seq<GrbConstr>, GrbObjective) -> Option<real>

  function Handles(cs: seq<GrbConstr>): set<nat> {
    set c | c in cs :: c.handle
  }

  /** `model.remove(cs)`: the constraints whose handle is not among the removed ones. */
  function Without(cs: seq<GrbConstr>, hs: set<nat>): seq<GrbConstr> {
    if cs == [] then []
    else Without(cs[..|cs| - 1], hs) + if cs[|cs| - 1].handle in hs then [] else [cs[|cs| - 1]]
  }

  lemma {:induction false} WithoutConcat(xs: seq<GrbConstr>, ys: seq<GrbConstr>, hs: set<nat>)
    ensures Without(xs + ys, hs) == Without(xs, hs) + Without(ys, hs)
  {
    if ys == [] {
      assert xs + ys == xs;
    } else {
      var n := |ys| - 1;
      assert (xs + ys)[..|xs + ys| - 1] == xs + ys[..n];
      WithoutConcat(xs, ys[..n], hs);
    }
  }

  /** Removing handles that none of the constraints has changes nothing, and removing all of
      theirs leaves none. */
  lemma {:induction false} WithoutSpec(cs: seq<GrbConstr>, hs: set<nat>)
    ensures (forall c :: c in cs ==> c.handle !in hs) ==> Without(cs, hs) == cs
    ensures (forall c :: c in cs ==> c.handle in hs) ==> Without(cs, hs) == []
  {
    if cs != [] {
      var n := |cs| - 1;
      assert forall c :: c in cs[..n] ==> c in cs;
      WithoutSpec(cs[..n], hs);
      assert cs == cs[..n] + [cs[n]];
    }
  }

  /** The model's state as far as `mo_fva` reads and changes it. */
  class GurobiModel {
    var vars: seq<string>        // `VarName` of `getVars()`, in order
    var constrs: seq<GrbConstr>
    var objective: GrbObjective
    var nextHandle: nat          // the handle the next added constraint receives

    /** Every constraint's handle was given out before. */
    ghost predicate Valid()
      reads this
    {
      forall c :: c in constrs ==> c.handle < nextHandle
    }

    /** `addConstr(var >= lower)`. */
    method AddConstr(name: string, lower: real) returns (c: GrbConstr)
      requires Valid()
      modifies this
      ensures Valid()
      ensures c == GrbConstr(old(nextHandle), [(name, 1.0)], Some(lower), None)
      ensures constrs == old(constrs) + [c] && nextHandle == old(nextHandle) + 1
      ensures vars == old(vars) && objective == old(objective)
    {
      c := GrbConstr(nextHandle, [(name, 1.0)], Some(lower), None);
      constrs := constrs + [c];
      nextHandle := nextHandle + 1;
    }

    /** `remove(cs)`. */
    method Remove(cs: seq<GrbConstr>)
      requires Valid()
      modifies this
      ensures Valid()
      ensures constrs == Without(old(constrs), Handles(cs))
      ensures vars == old(vars) && objective == old(objective) && nextHandle == old(nextHandle)
    {
      WithoutSubset(constrs, Handles(cs));
      constrs := Without(constrs, Handles(cs));
    }

    /** `setObjective(...)`. */
    method SetObjective(o: GrbObjective)
      modifies this
      ensures objective == o
      ensures vars == old(vars) && constrs == old(constrs) && nextHandle == old(nextHandle)
    {
      objective := o;
    }
  }

  lemma {:induction false} WithoutSubset(cs: seq<GrbConstr>, hs: set<nat>)
    ensures forall c :: c in Without(cs, hs) ==> c in cs
  {
    if cs != [] {
      WithoutSubset(cs[..|cs| - 1], hs);
      assert forall c :: c in cs[..|cs| - 1] ==> c in cs;
    }
  }

  // ---------------------------------------------------------------------------------------
  // mo_fva

  datatype FvaError =
    | NoSolverSelected                // 'No solver selected'
    | NoBaseModel                     // "base model not given"
    | NoRestrictions                  // "No restrictions given"
    | NotImplemented(solver: string)  // 'solver {} interfase not implemented'
    | NoSolution(rxn: string, dir: string)  // reading `flux.x` without a solution
    | UnknownVariable(name: string)   // `getVarByName` gives None and using it raises

  /** `var >= value*alpha` for each `(obj_id, value)` of `fba`, with the handles from `h` on. */
  function BoundConstraints(fba: seq<(string, real)>, alpha: real, h: nat): (cs: seq<GrbConstr>)
    ensures |cs| == |fba|
  {
    seq(|fba|, i requires 0 <= i < |fba| => GrbConstr(h + i, [(fba[i].0, 1.0)], Some(Scaled(fba[i].1, alpha)), None))
  }

  /** `value*alpha`. */
  function Scaled(value: real, alpha: real): real {
    value * alpha
  }

  function DirName(sense: Sense): string {
    if sense == Maximize then "maximum" else "minimum"
  }

  /** Every `fba` key names a variable of the model. */
  ghost predicate FbaKnown(fba: seq<(string, real)>, vars: seq<string>) {
    forall i :: 0 <= i < |fba| ==> fba[i].0 in vars
  }

  /** Every listed reaction names a variable of the model. */
  ghost predicate Known(rs: seq<string>, vars: seq<string>) {
    forall x :: x in rs ==> x in vars
  }

  /** The objective-constraint loop. A key that names no variable makes `var >= value*alpha`
      raise before its constraint is added; the constraints added before it stay. */
  method AddBounds(model: GurobiModel, fba: seq<(string, real)>, alpha: real) returns (r: Result<seq<GrbConstr>, FvaError>)
    requires model.Valid()
    modifies model
    ensures model.Valid()
    ensures model.vars == old(model.vars) && model.objective == old(model.objective)
    ensures r.Success? <==> FbaKnown(fba, model.vars)
    ensures r.Success? ==> (r.value == BoundConstraints(fba, alpha, old(model.nextHandle)) &&
      model.constrs == old(model.constrs) + r.value && model.nextHandle == old(model.nextHandle) + |fba|)
    ensures r.Failure? ==> exists j :: (0 <= j < |fba| && fba[j].0 !in model.vars &&
      (forall i :: 0 <= i < j ==> fba[i].0 in model.vars) && r.error == UnknownVariable(fba[j].0) &&
      model.constrs == old(model.constrs) + BoundConstraints(fba, alpha, old(model.nextHandle))[..j] &&
      model.nextHandle == old(model.nextHandle) + j)
  {
    var newCons := [];
    for i := 0 to |fba|
      invariant model.Valid()
      invariant forall k :: 0 <= k < i ==> fba[k].0 in model.vars
      invariant newCons == BoundConstraints(fba, alpha, old(model.nextHandle))[..i]
      invariant model.constrs == old(model.constrs) + newCons
      invariant model.nextHandle == old(model.nextHandle) + i
      invariant model.vars == old(model.vars) && model.objective == old(model.objective)
    {
      var (objId, value) := fba[i];
      if objId !in model.vars {
        return Failure(UnknownVariable(objId));
      }
      var c := model.AddConstr(objId, Scaled(value, alpha));
      ghost var all := BoundConstraints(fba, alpha, old(model.nextHandle));
      assert all[i] == c;
      assert all[..i + 1] == all[..i] + [all[i]];
      newCons := newCons + [c];
    }
    assert BoundConstraints(fba, alpha, old(model.nextHandle))[..|fba|] == BoundConstraints(fba, alpha, old(model.nextHandle));
    r := Success(newCons);
  }

  /** The solution of `rxn` under `sense` with the constraints `constrs`. */
  function Solve(oracle: Oracle, vars: seq<string>, constrs: seq<GrbConstr>, rxn: string, sense: Sense): Option<real> {
    oracle(vars, constrs, VarObjective(rxn, sense))
  }

  /** `t` is `table` with the value of every reaction of `rs` under `sense` stored in its row
      under the direction's name. */
  ghost predicate ScanRows(t: map<string, map<string, real>>, table: map<string, map<string, real>>, rs: seq<string>,
                           oracle: Oracle, vars: seq<string>, constrs: seq<GrbConstr>, sense: Sense) {
    t.Keys == table.Keys && (forall x :: x in rs ==> Solve(oracle, vars, constrs, x, sense).Some?) &&
    forall x :: x in table ==>
      t[x] == (if x in rs then table[x][DirName(sense) := Solve(oracle, vars, constrs, x, sense).value] else table[x])
  }

  /** Every reaction of `rs[..j]` names a variable and has a solution under `sense`. */
  ghost predicate SolvedPrefix(rs: seq<string>, j: nat, oracle: Oracle, vars: seq<string>, constrs: seq<GrbConstr>, sense: Sense) {
    forall i :: 0 <= i < j && i < |rs| ==> rs[i] in vars && Solve(oracle, vars, constrs, rs[i], sense).Some?
  }

  /** The scan stopped at reaction `j` with error `e`, leaving objective `obj` (`obj0` before
      the scan): every earlier reaction names a variable and has a solution; a known `rs[j]`
      has no solution and is the objective set; an unknown one raises before its
      `setObjective`, leaving the objective of the reaction before it. */
  ghost predicate ScanStopped(rs: seq<string>, j: nat, e: FvaError, obj: GrbObjective, obj0: GrbObjective,
                              oracle: Oracle, vars: seq<string>, constrs: seq<GrbConstr>, sense: Sense) {
    j < |rs| && SolvedPrefix(rs, j, oracle, vars, constrs, sense) &&
    (rs[j] in vars ==> e == NoSolution(rs[j], DirName(sense)) &&
                       Solve(oracle, vars, constrs, rs[j], sense).None? && obj == VarObjective(rs[j], sense)) &&
    (rs[j] !in vars ==> e == UnknownVariable(rs[j]) &&
                        obj == if j == 0 then obj0 else VarObjective(rs[j - 1], sense))
  }

  /** Storing the value of one more reaction extends the rows by that reaction. */
  lemma ScanRowsStep(t: map<string, map<string, real>>, table: map<string, map<string, real>>, rs: seq<string>, rxn: string,
                     v: real, oracle: Oracle, vars: seq<string>, constrs: seq<GrbConstr>, sense: Sense)
    requires ScanRows(t, table, rs, oracle, vars, constrs, sense) && rxn in table
    requires Solve(oracle, vars, constrs, rxn, sense) == Some(v)
    ensures ScanRows(t[rxn := t[rxn][DirName(sense) := v]], table, rs + [rxn], oracle, vars, constrs, sense)
  {
  }

  /** One reaction of the scan: look up its variable, make it the objective under `sense`,
      optimise and read the variable's value. An unknown name raises before `setObjective`. */
  method OptimizeOne(model: GurobiModel, rxn: string, sense: Sense, oracle: Oracle) returns (x: Result<real, FvaError>)
    modifies model
    ensures model.vars == old(model.vars) && model.constrs == old(model.constrs) && model.nextHandle == old(model.nextHandle)
    ensures rxn !in model.vars ==> x == Failure(UnknownVariable(rxn)) && model.objective == old(model.objective)
    ensures rxn in model.vars ==> model.objective == VarObjective(rxn, sense)
    ensures rxn in model.vars ==> (x.Success? <==> Solve(oracle, model.vars, model.constrs, rxn, sense).Some?)
    ensures x.Success? ==> Solve(oracle, model.vars, model.constrs, rxn, sense) == Some(x.value)
    ensures rxn in model.vars && x.Failure? ==> x.error == NoSolution(rxn, DirName(sense))
  {
    if rxn !in model.vars {
      return Failure(UnknownVariable(rxn));
    }
    model.SetObjective(VarObjective(rxn, sense));
    var v := oracle(model.vars, model.constrs, model.objective);
    if v.None? {
      return Failure(NoSolution(rxn, DirName(sense)));
    }
    x := Success(v.value);
  }

  /** One direction of the scan: every reaction optimised in turn and its value stored under
      the direction's name, stopping at the first that names no variable (before its
      `setObjective`) or has no solution. */
  method ScanDirection(model: GurobiModel, reactions: seq<string>, sense: Sense, table: map<string, map<string, real>>,
                       oracle: Oracle) returns (r: Result<map<string, map<string, real>>, FvaError>)
    requires forall x :: x in reactions ==> x in table
    modifies model
    ensures model.vars == old(model.vars) && model.constrs == old(model.constrs) && model.nextHandle == old(model.nextHandle)
    ensures r.Success? <==> forall x :: x in reactions ==> x in model.vars && Solve(oracle, model.vars, model.constrs, x, sense).Some?
    ensures r.Success? ==> ScanRows(r.value, table, reactions, oracle, model.vars, model.constrs, sense)
    ensures r.Success? && reactions != [] ==> model.objective == VarObjective(reactions[|reactions| - 1], sense)
    ensures r.Success? && reactions == [] ==> model.objective == old(model.objective)
    ensures r.Failure? ==> exists j :: ScanStopped(reactions, j, r.error, model.objective, old(model.objective),
                                                 oracle, model.vars, model.constrs, sense)
  {
    var fvaRes := table;
    for j := 0 to |reactions|
      invariant model.vars == old(model.vars) && model.constrs == old(model.constrs) && model.nextHandle == old(model.nextHandle)
      invariant SolvedPrefix(reactions, j, oracle, model.vars, model.constrs, sense)
      invariant ScanRows(fvaRes, table, reactions[..j], oracle, model.vars, model.constrs, sense)
      invariant j > 0 ==> model.objective == VarObjective(reactions[j - 1], sense)
      invariant j == 0 ==> model.objective == old(model.objective)
    {
      var rxn := reactions[j];
      var x := OptimizeOne(model, rxn, sense, oracle);
      if x.Failure? {
        assert ScanStopped(reactions, j, x.error, model.objective, old(model.objective),
                           oracle, model.vars, model.constrs, sense);
        return Failure(x.error);
      }
      assert rxn in reactions;
      ScanRowsStep(fvaRes, table, reactions[..j], rxn, x.value, oracle, model.vars, model.constrs, sense);
      assert reactions[..j + 1] == reactions[..j] + [rxn];
      fvaRes := fvaRes[rxn := fvaRes[rxn][DirName(sense) := x.value]];
    }
    assert reactions[..|reactions|] == reactions;
    assert forall x :: x in reactions ==> exists i :: 0 <= i < |reactions| && reactions[i] == x;
    r := Success(fvaRes);
  }

  /** The table `mo_fva` returns: one row per reaction, with its minimum and maximum under
      the objective constraints. */
  ghost predicate FvaTable(t: map<string, map<string, real>>, reactions: seq<string>, oracle: Oracle,
                           vars: seq<string>, constrs: seq<GrbConstr>) {
    (forall x :: x in t <==> x in reactions) &&
    forall x :: x in reactions ==>
      Solve(oracle, vars, constrs, x, Minimize).Some? && Solve(oracle, vars, constrs, x, Maximize).Some? &&
      t[x] == map["minimum" := Solve(oracle, vars, constrs, x, Minimize).value,
                  "maximum" := Solve(oracle, vars, constrs, x, Maximize).value]
  }

  /** Every reaction has a solution in both directions. */
  ghost predicate AllSolved(reactions: seq<string>, oracle: Oracle, vars: seq<string>, constrs: seq<GrbConstr>) {
    forall x :: x in reactions ==>
      Solve(oracle, vars, constrs, x, Minimize).Some? && Solve(oracle, vars, constrs, x, Maximize).Some?
  }

  /** Minimising and then maximising every reaction of `rs`, starting from an empty row for
      each, leaves both values in every row. */
  lemma TwoPasses(rs: seq<string>, oracle: Oracle, vars: seq<string>, constrs: seq<GrbConstr>,
                  t0: map<string, map<string, real>>, t1: map<string, map<string, real>>, t2: map<string, map<string, real>>)
    requires forall x :: x in t0 <==> x in rs
    requires forall x :: x in t0 ==> t0[x] == map[]
    requires AllSolved(rs, oracle, vars, constrs)
    requires ScanRows(t1, t0, rs, oracle, vars, constrs, Minimize)
    requires ScanRows(t2, t1, rs, oracle, vars, constrs, Maximize)
    ensures FvaTable(t2, rs, oracle, vars, constrs)
  {
  }

  /** What the gurobi branch of `mo_fva` does to a model with variables `vars`, constraints
      `constrs0`, next handle `h0` and objective `obj0`, leaving `constrs1`, `h1` and `obj1`:
      it succeeds exactly when every `fba` key and every reaction names a variable and every
      reaction has both solutions, and then returns the table and restores the constraints;
      an unknown `fba` key stops it at the first such key, with the constraints for the keys
      before it left in place; otherwise the objective constraints stay in place on failure,
      which is an unknown reaction or a reaction without a solution, its objective left set. */
  ghost predicate FvaOutcome(r: Result<map<string, map<string, real>>, FvaError>, fba: seq<(string, real)>,
                             rs: seq<string>, alpha: real, oracle: Oracle, vars: seq<string>,
                             constrs0: seq<GrbConstr>, h0: nat, obj0: GrbObjective,
                             constrs1: seq<GrbConstr>, h1: nat, obj1: GrbObjective) {
    var during := During(constrs0, fba, alpha, h0);
    && (r.Success? <==> FbaKnown(fba, vars) && Known(rs, vars) && AllSolved(rs, oracle, vars, during))
    && (r.Success? ==> FvaTable(r.value, rs, oracle, vars, during) && constrs1 == constrs0 &&
                       h1 == h0 + |fba| && obj1 == Constant0)
    && (!FbaKnown(fba, vars) ==> exists j :: (0 <= j < |fba| && fba[j].0 !in vars &&
          (forall i :: 0 <= i < j ==> fba[i].0 in vars) && r == Failure(UnknownVariable(fba[j].0)) &&
          constrs1 == constrs0 + BoundConstraints(fba, alpha, h0)[..j] && h1 == h0 + j && obj1 == obj0))
    && (FbaKnown(fba, vars) && r.Failure? ==> (constrs1 == during && h1 == h0 + |fba| &&
          ((r.error.UnknownVariable? && r.error.name in rs && r.error.name !in vars) ||
           (r.error.NoSolution? && r.error.rxn in rs && obj1.VarObjective? && obj1.variable == r.error.rxn))))
  }

  /** The gurobi branch of `mo_fva` once the reactions are known. */
  method RunFva(model: GurobiModel, fba: seq<(string, real)>, rs: seq<string>, alpha: real, oracle: Oracle)
    returns (r: Result<map<string, map<string, real>>, FvaError>)
    requires model.Valid()
    modifies model
    ensures model.vars == old(model.vars) && model.Valid()
    ensures FvaOutcome(r, fba, rs, alpha, oracle, model.vars, old(model.constrs), old(model.nextHandle),
                       old(model.objective), model.constrs, model.nextHandle, model.objective)
  {
    var fvaRes := map x | x in rs :: map[];
    var added := AddBounds(model, fba, alpha);
    if added.Failure? {
      return Failure(added.error);
    }
    var newCons := added.value;
    var minimum := ScanDirection(model, rs, Minimize, fvaRes, oracle);
    if minimum.Failure? {
      return Failure(minimum.error);
    }
    var maximum := ScanDirection(model, rs, Maximize, minimum.value, oracle);
    if maximum.Failure? {
      return Failure(maximum.error);
    }
    TwoPasses(rs, oracle, model.vars, model.constrs, fvaRes, minimum.value, maximum.value);
    RemoveRestores(old(model.constrs), newCons, old(model.nextHandle));
    model.Remove(newCons);
    model.SetObjective(Constant0);
    r := Success(maximum.value);
  }

  /** The `alpha` of `mo_fva`, 0.9 when the caller gives none. */
  function Alpha(alpha: Option<real>): (a: real)
    ensures alpha.None? ==> a == 0.9
    ensures alpha.Some? ==> a == alpha.value
  {
    if alpha.Some? then alpha.value else 0.9
  }

  /** The constraints while the scan runs: the model's own and the objective constraints. */
  function During(constrs: seq<GrbConstr>, fba: seq<(string, real)>, alpha: real, h: nat): seq<GrbConstr> {
    constrs + BoundConstraints(fba, alpha, h)
  }

  /** `mo_fva(base_model, fba, reactions, alpha, solver)`: with gurobi, adds one constraint
      `var >= value*alpha` per entry of `fba`, minimises and then maximises every reaction
      (all variables when `reactions` is absent) in turn, removes the added constraints and
      resets the objective to 0. */
  method MoFva(baseModel: GurobiModel?, fba: Option<seq<(string, real)>>, reactions: Option<seq<string>>,
               alpha: Option<real>, solver: Option<string>, oracle: Oracle)
    returns (r: Result<map<string, map<string, real>>, FvaError>)
    requires baseModel != null ==> baseModel.Valid()
    modifies baseModel
    ensures solver.None? ==> r == Failure(NoSolverSelected)
    ensures solver.Some? && solver.value != "gurobi" ==> r == Failure(NotImplemented(solver.value))
    ensures solver == Some("gurobi") && baseModel == null ==> r == Failure(NoBaseModel)
    ensures baseModel != null && (solver != Some("gurobi") || fba.None?) ==> unchanged(baseModel)
    ensures solver == Some("gurobi") && baseModel != null && fba.None? ==> r == Failure(NoRestrictions)
    ensures solver == Some("gurobi") && baseModel != null && fba.Some? ==>
      var rs := if reactions.Some? then reactions.value else old(baseModel.vars);
      baseModel.vars == old(baseModel.vars) && baseModel.Valid() &&
      FvaOutcome(r, fba.value, rs, Alpha(alpha), oracle, baseModel.vars, old(baseModel.constrs),
                 old(baseModel.nextHandle), old(baseModel.objective),
                 baseModel.constrs, baseModel.nextHandle, baseModel.objective)
  {
    if solver.None? {
      return Failure(NoSolverSelected);
    }
    if solver.value != "gurobi" {
      return Failure(NotImplemented(solver.value));
    }
    if baseModel == null {
      return Failure(NoBaseModel);
    }
    // `isinstance` builds a RuntimeError without raising it; `update` and `setParam` change
    // nothing modelled here.
    if fba.None? {
      return Failure(NoRestrictions);
    }
    var rs := if reactions.Some? then reactions.value else baseModel.vars;
    r := RunFva(baseModel, fba.value, rs, Alpha(alpha), oracle);
  }

  /** Removing the added objective constraints brings back exactly the constraints from before. */
  lemma RemoveRestores(before: seq<GrbConstr>, added: seq<GrbConstr>, h: nat)
    requires forall c :: c in before ==> c.handle < h
    requires forall c :: c in added ==> c.handle >= h
    ensures Without(before + added, Handles(added)) == before
  {
    WithoutConcat(before, added, Handles(added));
    WithoutSpec(before, Handles(added));
    WithoutSpec(added, Handles(added));
  }
}
