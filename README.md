# mocbapy ecosystem assembly, modelled in Dafny

mocbapy builds a multi-objective model of a microbial community out of N genome-scale
organism models. Each organism's exchange metabolites are connected through a shared
**pool** compartment. The result is one block-structured stoichiometric system `Ssigma`
with these parts:

- the organism reactions, one block per organism;
- one pool exchange reaction `EX_{k}:pool` per pool metabolite `{k}:pool`;
- the system bounds `lb`/`ub`;
- one objective row per organism.

The system is exported as a vector linear program (a `vlpProblem` for bensolve).

This project models that pipeline in both versions of the source:

- **Current version**, `mocbapy/EcosystemModel.py` (module `EcosystemModel`). The identity
  map is keyed by (metabolite id, model), objectives are keyed by the model itself, and
  `__init__` builds the whole system when it is given both models and a map.
- **Older version**, `Ecosystem.py` (module `Ecosystem`). The map is keyed by metabolite id
  only, objectives are keyed by `model.id`, and the two build steps are called explicitly.
  It also has a static `get_common_mets`.

It also models helpers from the current version:

- `mocbapy/utilities.py` (module `Utilities`):
  - the identity map `get_common_mets`;
  - the divide-and-conquer `sum_from_list`;
  - the solver-selection rule `_choose_optlang_interfase`;
  - the variable and constraint layout of `build_base_opt_model`.
- `mocbapy/procedures.py` (module `Procedures`): the same two helpers, and the guards and
  constraint bookkeeping of the gurobi `mo_fva`. The optimiser is an oracle parameter.

How the modules fit together:

- **The shared specification.** Both classes are proved against one set of functions:
  - `Scan.Sites` is the order in which the triple loop visits (model, exchange, metabolite).
  - `Pool.Group` is the dictionary filled by "append or create".
  - These functions give the labels and bounds: `Assembly.SysReactions`, `SysMetabolites`,
    `SysLowerBounds` and `SysUpperBounds`.
  - `Assembly.Ssigma` is the assembled matrix, and `Export.ObjectiveMatrix` is `P`.
  - `Objectives.ObjectivesOf` is the objectives dictionary, generic over its key.
- **The loops.** They are methods in `Build`, each proved equal to one of these functions.
- **The properties.** The lemmas beside each function state what the source promises: the
  layout, uniqueness of labels, block offsets, the pool rows and the objective placement.
- **The matrices.** They are values (`Matrices.Matrix`). An in-place cell assignment is a
  `Write`, and `ApplyWrites`/`LastWrite` give its "last write wins" meaning.

Inputs the source takes from elsewhere are parameters of the model:

- cobra's models, with their native stoichiometric matrices;
- optlang's list of installed solvers;
- the gurobi optimiser.

## Model

| member | source | states |
|---|---|---|
| Sequences.IndexOf | mocbapy/EcosystemModel.py:69 | `list.index(x)`: a position holding x with no earlier occurrence, so the first one; it requires x to be present, because an absent x raises `ValueError` |
| Organisms.LabelInjective | mocbapy/EcosystemModel.py:49 | a label `"{a}:{b}"` whose first part has no `:` determines both parts |
| Organisms.ObjectiveTermsSpec | mocbapy/EcosystemModel.py:53-54 | a `(r.id, coef)` term is in an organism's objective list exactly when some reaction has that id and that nonzero coefficient |
| Organisms.ConcatMapAt | mocbapy/EcosystemModel.py:47-56 | in the model-by-model lists, element j of model b's block sits right after the blocks of the earlier models |
| Pool.Append | mocbapy/EcosystemModel.py:26 | `pooldict[k].append(t)`: a missing key is created at the end with `[t]`; an existing key keeps its place and gets `t` at the end; every other entry is unchanged |
| Pool.GroupKeys | mocbapy/EcosystemModel.py:20-27 | the pool's keys are distinct and are exactly the names that occur |
| Pool.GroupContents | mocbapy/EcosystemModel.py:20-27 | each key's list holds exactly the triples appended under it, in appending order |
| Pool.GroupOfSpec | mocbapy/EcosystemModel.py:20-27 | `pooldict[k]` is k's triples in appending order, and empty for an absent key |
| Pool.GroupOrder | mocbapy/EcosystemModel.py:35-37 | keys, and so the pool labels, come in the order in which each was first encountered |
| Pool.TriplesOfMember | mocbapy/EcosystemModel.py:26 | a triple is in key k's list exactly when it was appended under k |
| Matrices.Zeros | mocbapy/EcosystemModel.py:146 | `lil_matrix((q, n))` / `zeros`: the requested shape, every entry 0 |
| Matrices.NegIdentity | mocbapy/EcosystemModel.py:66 | `-eye(n)`: n by n, -1 on the diagonal, 0 elsewhere |
| Matrices.BlockDiag2At | mocbapy/EcosystemModel.py:66 | `block_diag([a, b])`: `a` top left, `b` bottom right at offset (a.rows, a.cols), zero off the diagonal blocks |
| Matrices.BlockDiag2Empty | mocbapy/EcosystemModel.py:66 | `block_diag([a, -eye(0)])` is `a` |
| Matrices.Assign | mocbapy/EcosystemModel.py:73 | `S[i, j] = v` changes exactly cell (i, j), to v |
| Matrices.ApplyWritesAt | mocbapy/EcosystemModel.py:67-73 | after a sequence of assignments each cell holds the value of the last write to it, or its old value when none |
| Scan.ModelSitesSpec | mocbapy/EcosystemModel.py:22-23 | one model's scan visits every metabolite of every exchange, and nothing else |
| Scan.SitesSpec | mocbapy/EcosystemModel.py:21-23 | every visit of the whole scan belongs to one of the models |
| Scan.PoolHitsSpec | mocbapy/EcosystemModel.py:24-26 | a (name, triple) entry comes from exactly a visit the map names, under the name it gives |
| Scan.PoolHitsNone | mocbapy/EcosystemModel.py:24 | a map that names no visit produces no pool entries |
| Scan.PoolSpec | mocbapy/EcosystemModel.py:20-27 | the pool's keys are the names the map gives to visited metabolites; each key holds exactly the triples (model, exchange, coefficient) of those visits |
| Scan.ScannedPoolResolvable | mocbapy/EcosystemModel.py:26 | every pooled triple names one of the models and one of that model's reactions |
| Build.ScanPool | mocbapy/EcosystemModel.py:20-27 | the triple loop builds the pool of the scan, in scan order |
| Build.ScanModel | mocbapy/EcosystemModel.py:22-26 | the exchange loop of one model continues the pool with that model's visits |
| Build.ScanExchange | mocbapy/EcosystemModel.py:23-26 | the metabolite loop of one exchange continues the pool with its visits |
| Build.FoldScan | mocbapy/utilities.py:48-53 | the same triple loop filling a dictionary applies one update per visit, in scan order |
| Build.PoolLists | mocbapy/EcosystemModel.py:31-39 | the pool key loop gives `EX_{k}:pool` and `{k}:pool` for each key in key order, with bounds -1000 / 1000 |
| Build.InitialObjectives | mocbapy/EcosystemModel.py:44-46 | `objectives[model] = []` for every model |
| Build.AddReactions | mocbapy/EcosystemModel.py:48-54 | one model's reaction loop appends its labels and bounds and adds its nonzero-objective terms to its own entry only |
| Build.AddMetabolites | mocbapy/EcosystemModel.py:55-56 | one model's metabolite loop appends its labels |
| Build.OrganismLists | mocbapy/EcosystemModel.py:40-56 | the organism loops give the labels and bounds model by model and the objectives dictionary |
| Build.CoupledMatrix | mocbapy/EcosystemModel.py:62-73 | for a non-empty model list, the coupling loops from `block_diag([natives, -eye])` give `Ssigma` |
| Build.CoupleGroup | mocbapy/EcosystemModel.py:70-73 | one pool key's inner loop performs its triples' writes in order |
| Build.ObjectiveRows | mocbapy/EcosystemModel.py:146-153 | the `P` loop gives the objective matrix |
| Build.ObjectiveRow | mocbapy/EcosystemModel.py:149-153 | model i's terms write `coeff` at row i, at the column of `"{rxn}:{model.id}"` |
| Assembly.SysReactions | mocbapy/EcosystemModel.py:47-57 | `sysreactions` has as many entries as all organisms have reactions, plus one per pool key |
| Assembly.SysMetabolites | mocbapy/EcosystemModel.py:55-58 | `sysmetabolites` has as many entries as all organisms have metabolites, plus one per pool key |
| Assembly.SysLowerBounds | mocbapy/EcosystemModel.py:51-59 | `lb` is as long as `sysreactions` |
| Assembly.SysUpperBounds | mocbapy/EcosystemModel.py:52-60 | `ub` is as long as `sysreactions` |
| Assembly.OrganismReactionAt | mocbapy/EcosystemModel.py:47-52 | reaction j of model b is `"{r.id}:{model.id}"` at index (number of reactions of the models before b) + j, with its native bounds in `lb`/`ub` |
| Assembly.OrganismMetaboliteAt | mocbapy/EcosystemModel.py:55-56 | metabolite i of model b is `"{m.id}:{model.id}"` at its block offset plus i |
| Assembly.PoolEntryAt | mocbapy/EcosystemModel.py:35-60 | pool key p gives `EX_{k}:pool` right after all organism reactions, bounds -1000 / 1000, and `{k}:pool` right after all organism metabolites |
| Assembly.SysReactionsDistinct | mocbapy/EcosystemModel.py:49-57 | with well-formed ids, every reaction label is unique |
| Assembly.SysMetabolitesDistinct | mocbapy/EcosystemModel.py:56-58 | with well-formed ids, every metabolite label is unique |
| Assembly.ReactionColumn | mocbapy/EcosystemModel.py:71-72 | `sysreactions.index("{r.id}:{model.id}")` finds reaction j of model b at its block offset |
| Assembly.PoolRow | mocbapy/EcosystemModel.py:68-69 | `sysmetabolites.index("{k}:pool")` finds pool key p right after all organism metabolites |
| Assembly.NativeBlocks | mocbapy/EcosystemModel.py:62-64 | the block-diagonal matrix of the native matrices has one row per organism metabolite and one column per organism reaction |
| Assembly.NativeBlocksAt | mocbapy/EcosystemModel.py:62-64 | each native matrix sits at its block offset and the rest of its rows is zero |
| Assembly.Ssigma | mocbapy/EcosystemModel.py:62-73 | `Ssigma` has one row per `sysmetabolites` label and one column per `sysreactions` label |
| Assembly.SsigmaWithoutPool | mocbapy/EcosystemModel.py:66 | with an empty pool there are no pool labels and `Ssigma` is the block-diagonal native matrix |
| Assembly.SsigmaCell | mocbapy/EcosystemModel.py:66-73 | every cell holds the last coupling write to it, or the `block_diag` entry |
| Assembly.SsigmaOrganismRow | mocbapy/EcosystemModel.py:62-73 | an organism row holds its native matrix in its own block of columns and 0 in every other column, pool columns included |
| Assembly.SsigmaPoolBlock | mocbapy/EcosystemModel.py:66-73 | the pool block is `-I`: in each pool column, pool row p holds -1 at its own column and 0 elsewhere |
| Assembly.SsigmaPoolCoupling | mocbapy/EcosystemModel.py:67-73 | in an organism column, pool row p holds minus the coefficient of the last triple of key p at that column, and 0 where there is none |
| Assembly.TripleAtColumn | mocbapy/EcosystemModel.py:70-71 | the label lookup of a triple gives the column of reaction j of model b exactly when the triple names that reaction of that model |
| Assembly.LastCoefColumn | mocbapy/EcosystemModel.py:68-73 | the last coefficient written at the column of reaction j of model b is that of the last triple naming that reaction of that model |
| Assembly.SsigmaPoolCouplingAt | mocbapy/EcosystemModel.py:67-73 | in the column of reaction j of model b, pool row p holds minus the coefficient of the last triple of key p naming that model and reaction, and 0 where there is none |
| Export.ZeroVector | mocbapy/EcosystemModel.py:142-143 | `zeros((1, m))[0]`: m zeros |
| Export.ObjectiveMatrix | mocbapy/EcosystemModel.py:146 | `P` is q by n |
| Export.ObjectiveMatrixAt | mocbapy/EcosystemModel.py:146-153 | `P[i, k]` is the objective coefficient exactly at model i's reactions, in its own block of columns, and 0 everywhere else |
| Objectives.EmptyObjectivesSpec | mocbapy/EcosystemModel.py:44-46 | every model has a key holding the empty list, and there are no other keys |
| Objectives.AddObjectivesKeys | mocbapy/EcosystemModel.py:47-54 | the reaction loop adds no key beyond the models' own |
| Objectives.ObjectivesOfSpec | mocbapy/EcosystemModel.py:44-54 | `objectives` has a key for every model, objective or not, and no other; with distinct keys each entry is the model's nonzero-objective terms in native order |
| EcosystemModel.DistinctModelKeys | mocbapy/EcosystemModel.py:46 | distinct model ids make the model keys distinct |
| EcosystemModel.CurrentPoolSpec | mocbapy/EcosystemModel.py:20-27 | a visit is pooled exactly when `(met.id, model)` is a key of `metabolic_dict`, under the name it maps to; each name holds the triples of those visits |
| EcosystemModel.EmptyMapNoPool | mocbapy/EcosystemModel.py:24-66 | an empty `metabolic_dict` gives no pool: no pool labels and a purely block-diagonal `Ssigma` |
| EcosystemModel.EcosystemModel.constructor | mocbapy/EcosystemModel.py:103-120 | both inputs given (with at least one model): the pool is built and every derived field is populated; otherwise every derived field stays None |
| EcosystemModel.EcosystemModel.ConstructEcosystemPool | mocbapy/EcosystemModel.py:18-27 | `_pooldict` is the pool of the scan under the (metabolite id, model) map, and every triple resolves |
| EcosystemModel.EcosystemModel.PopulateEcosystemModel | mocbapy/EcosystemModel.py:29-73 | for a non-empty model list, every derived field equals its specification: pool labels, system labels, bounds, `objectives` and `Ssigma` |
| EcosystemModel.EcosystemModel.PopulateLists | mocbapy/EcosystemModel.py:31-60 | the list fields and `objectives` equal their specifications |
| EcosystemModel.EcosystemModel.PopulateCoupling | mocbapy/EcosystemModel.py:62-73 | for a non-empty model list, `Ssigma` equals its specification |
| EcosystemModel.EcosystemModel.ToVlp | mocbapy/EcosystemModel.py:127-157 | `B = Ssigma`, `a = b = 0` of length m, `l = lb`, `s = ub`, `P` as specified, `opt_dir = -1` and no cone |
| Ecosystem.DistinctIdKeys | Ecosystem.py:65 | distinct model ids make the `model.id` keys distinct |
| Ecosystem.LegacyPoolSpec | Ecosystem.py:36-46 | a visit is pooled exactly when `met.id` is a key of `metabolic_dict`, under `metabolic_dict[met.id]`; each name holds the triples of those visits in scan order |
| Ecosystem.LastExchangeSpec | Ecosystem.py:104-107 | the last exchange of metabolite k in model o is absent exactly when there is no such visit; otherwise no later visit of k in o follows it |
| Ecosystem.CommonMetsKeys | Ecosystem.py:100-108 | `get_common_mets` has a key for exactly the visited exchange metabolite ids |
| Ecosystem.LastExchangeVisit | Ecosystem.py:104-107 | a last exchange of k is a visit of k |
| Ecosystem.CommonMetsAt | Ecosystem.py:100-108 | under metabolite k, model o is a key exactly when it has an exchange containing k, and its value is the last-scanned one |
| Ecosystem.CommonMetsExchange | Ecosystem.py:100-108 | each value is one of that model's exchanges and contains the metabolite |
| Ecosystem.EcosystemModel.constructor | Ecosystem.py:18-32 | `__init__` stores its two arguments and every derived field is None |
| Ecosystem.EcosystemModel.ConstructEcosystemPool | Ecosystem.py:34-46 | `_pooldict` is the pool of the scan under the metabolite-id map, and every triple resolves |
| Ecosystem.EcosystemModel.PopulateEcosystemModel | Ecosystem.py:48-89 | once the pool is built and for a non-empty model list, every derived field equals its specification, with objectives keyed by `model.id` |
| Ecosystem.EcosystemModel.PopulateLists | Ecosystem.py:50-79 | the list fields and `objectives` equal their specifications |
| Ecosystem.EcosystemModel.PopulateCoupling | Ecosystem.py:80-89 | for a non-empty model list, `Ssigma` equals its specification |
| Ecosystem.EcosystemModel.GetCommonMets | Ecosystem.py:97-108 | the result is the fold of the "create or set" step over the scan |
| Ecosystem.EcosystemModel.ToVlp | Ecosystem.py:109-141 | the filename only when given; `B`, `a`, `b`, `l`, `s`, `P`, `opt_dir` and the cone as in the current version |
| Utilities.IdentityMapSpec | mocbapy/utilities.py:48-53 | exactly one key `(m.id, model)` per visited exchange metabolite of a model, and its value is `m.id` |
| Utilities.GetCommonMets | mocbapy/utilities.py:43-53 | the result is the identity map of the scan |
| Utilities.IdentityMapPoolsAll | mocbapy/utilities.py:43-53 | with this map the pool keys are exactly the visited metabolite ids |
| Utilities.SumConcat | mocbapy/utilities.py:107 | the sum of a concatenation is the sum of the sums |
| Utilities.Middle | mocbapy/utilities.py:106 | for `b - a >= 2`, `int((a+b)/2)` lies strictly between a and b |
| Utilities.SumFromListP | mocbapy/utilities.py:99-107 | `sum_from_list_p(le, a, b)` is the ordinary sum of `le[a..b]` |
| Utilities.SumFromList | mocbapy/utilities.py:97-109 | the ordinary sum; 0 for the empty list and the element itself for one element |
| Utilities.Lower | mocbapy/utilities.py:32 | `lower()` keeps the length and leaves no upper-case ASCII letter |
| Utilities.LowerIdempotent | mocbapy/utilities.py:25-32 | lower-casing an already lower-cased name changes nothing |
| Utilities.AvailSpec | mocbapy/utilities.py:25 | `avail` holds the lower-cased names of exactly the installed solvers |
| Utilities.AvailLower | mocbapy/utilities.py:25-32 | every available name is already lower-case |
| Utilities.ChooseOptlangInterfase | mocbapy/utilities.py:24-35 | no request and no solver: error; no request: the first available solver; a request succeeds exactly when its lower-cased name is available, with that name, and otherwise fails naming it |
| Utilities.RowTermsSpec | mocbapy/utilities.py:125 | row i's terms are exactly the columns j with `Ssigma[i, j] != 0`, each with that entry, in increasing j |
| Utilities.FluxVariables | mocbapy/utilities.py:120-121 | one variable per reaction label |
| Utilities.MassBalance | mocbapy/utilities.py:124-127 | one constraint per row of `Ssigma` |
| Utilities.BuildBaseOptModel | mocbapy/utilities.py:112-130 | solver failure propagates; a shape mismatch fails the assertions; otherwise one variable per label with its bounds, one `= 0` constraint per row on its nonzero columns, and the objective 0, maximised |
| Utilities.FluxVariablesOf | mocbapy/utilities.py:120-122 | the variable loop gives `Variable(rxn, lb[i], ub[i])` in label order |
| Utilities.MassBalanceOf | mocbapy/utilities.py:124-127 | the row loop gives one equality constraint per row |
| Utilities.RowTermsOf | mocbapy/utilities.py:125 | the column loop gives the row's nonzero terms |
| Utilities.AssembledShapes | mocbapy/utilities.py:116-120 | on an assembled ecosystem both shape assertions hold and `lb`/`ub` cover every label |
| Procedures.GetCommonMets | mocbapy/procedures.py:31-41 | one key `(m.id, model)` with value `m.id` for exactly the visited exchange metabolites |
| Procedures.ChooseOptlangInterfase | mocbapy/procedures.py:12-23 | no request: the first available solver, or `NoSolverAvailable` when none is installed; with one: its lower-cased name exactly when that is available, else `SolverNotAvailable` with that name and the available list |
| Procedures.WithoutConcat | mocbapy/procedures.py:88 | removing constraints from a concatenation removes them from each part |
| Procedures.WithoutSpec | mocbapy/procedures.py:88 | removing handles no constraint has changes nothing; removing all their handles leaves none |
| Procedures.WithoutSubset | mocbapy/procedures.py:88 | removal only keeps constraints that were there |
| Procedures.GurobiModel.AddConstr | mocbapy/procedures.py:77 | `addConstr(var >= lower)` appends one one-sided constraint with a fresh handle and changes nothing else |
| Procedures.GurobiModel.Remove | mocbapy/procedures.py:88 | `remove(cs)` drops exactly the constraints with those handles |
| Procedures.GurobiModel.SetObjective | mocbapy/procedures.py:84 | `setObjective` replaces only the objective |
| Procedures.BoundConstraints | mocbapy/procedures.py:75-77 | one constraint per `fba` entry |
| Procedures.AddBounds | mocbapy/procedures.py:74-78 | succeeds exactly when every `fba` key names a variable, and then appends one constraint `var >= value*alpha` per entry in `fba` order; otherwise fails with `UnknownVariable` at the first unknown key, keeping the constraints added before it; nothing else changes |
| Procedures.OptimizeOne | mocbapy/procedures.py:82-87 | an unknown name fails with `UnknownVariable` and leaves the objective; a known one becomes the objective under the direction and its solution is returned, or `NoSolution` when there is none |
| Procedures.ScanDirection | mocbapy/procedures.py:79-87 | each reaction is optimised in turn, with its value stored under the direction's name; it succeeds exactly when every reaction names a variable and has a solution, and otherwise stops at the first that does not, with `UnknownVariable` or `NoSolution` and the objective that leaves |
| Procedures.TwoPasses | mocbapy/procedures.py:73-87 | the minimising and then the maximising pass give every listed reaction a row with both values |
| Procedures.RemoveRestores | mocbapy/procedures.py:74-88 | removing the added constraints restores exactly the constraint set from before |
| Procedures.RunFva | mocbapy/procedures.py:73-90 | success exactly when every `fba` key and every reaction names a variable and every reaction is solvable both ways under the added constraints; then one row per reaction with its minimum and maximum, the constraints restored and the objective 0; an unknown `fba` key fails with `UnknownVariable` and keeps only the constraints before it; other failures (`UnknownVariable` or `NoSolution` for a listed reaction) keep all added constraints |
| Procedures.Alpha | mocbapy/procedures.py:50 | 0.9 when the caller gives no `alpha`, otherwise the given value |
| Procedures.MoFva | mocbapy/procedures.py:50-93 | errors for no solver, a solver other than `'gurobi'`, no base model and no `fba`, with the model untouched; `reactions` defaults to all variables and `alpha` to 0.9; otherwise the outcome of `RunFva` |

## Left out

- **Solving, and how reals are represented.**
  - bensolve, the optlang solvers and gurobi are not modelled. `mo_fva` takes the optimiser as
    an oracle function of the model state.
  - Coefficients, bounds and values are mathematical reals, not IEEE doubles.
- **Inputs taken as given.** cobra's `create_stoichiometric_matrix` and
  `to_array_based_model` are not modelled. Each organism carries its native matrix as an input.
  The model assumes, and does not check, what cobra guarantees:
  - exchanges are reactions of their model;
  - the native matrix is aligned with the metabolite and reaction lists;
  - a reaction's coefficient of a metabolite is the one being iterated.
- **Broken and out-of-scope members.** These are not modelled:
  - `EcosystemModel.build_base_opt_model` (mocbapy/EcosystemModel.py:75-93). It names an
    undefined `ecosystem_model` and an unimported helper.
  - `add_comparment` in both versions. It calls `.add` on a list or reads an attribute that
    does not exist.
  - The optlang `mo_fva` of mocbapy/utilities.py:62-94, which is driven entirely by the solver.
  - `draw3d`, mocbapy/Paretogrids.py and mocbapy/draw.py (plotting and float grids), and
    `create_model` / `mo_fba`, which only forward to the constructor and bensolve.
- **Side effects.** `print`, `tqdm` and `warn` are not modelled. Neither are gurobi's
  `update()` and `setParam(LogToConsole)`, which change no state that the model reads.
- EcosystemModel.EcosystemModel.constructor: requires a non-empty model list when both inputs
  are given. With `model_array=[]` the build runs, and `block_diag([])`
  (mocbapy/EcosystemModel.py:62-64) raises `ValueError`. That error is not modelled.
- EcosystemModel.EcosystemModel.PopulateEcosystemModel: requires a non-empty model list, for
  the same `block_diag([])` `ValueError`, which is not modelled.
- EcosystemModel.EcosystemModel.PopulateCoupling: requires a non-empty model list, for the
  same reason.
- Ecosystem.EcosystemModel.PopulateCoupling: requires a non-empty model list. The legacy
  `block_diag([...])` (Ecosystem.py:81) raises `ValueError` on an empty one; that error is not
  modelled.
- Build.CoupledMatrix: requires a non-empty model list. `block_diag` of no blocks raises in
  the source; the matrix functions of the model would give a 0×0 matrix there instead.
- Ecosystem.EcosystemModel.ConstructEcosystemPool: requires both `models` and
  `metabolic_dict`. The public step can be called after an `__init__` that stored None:
  - `for model in self.models` with None raises `TypeError` (Ecosystem.py:37);
  - `met_ex.id in self.metabolic_dict` with None raises `TypeError` (Ecosystem.py:40);
  - a None map with models that have no exchange metabolite completes with `_pooldict = {}`.
  None of these three cases is modelled.
- Ecosystem.EcosystemModel.PopulateEcosystemModel: requires the pool to have been built and a
  non-empty model list. Calling it before `construct_ecosystem_pool` raises `AttributeError`
  at `self._pooldict.keys()` (Ecosystem.py:54), and an empty model list raises `ValueError`
  at `block_diag` (Ecosystem.py:81). Neither error is modelled.
- EcosystemModel.EcosystemModel.ToVlp: requires `Populated()`. On an object whose fields are
  still None, `self.Ssigma.shape` (mocbapy/EcosystemModel.py:139) raises `AttributeError`;
  that error is not modelled.
- Ecosystem.EcosystemModel.ToVlp: requires `Populated()` for the same reason. On an unbuilt
  object `self.Ssigma.shape` (Ecosystem.py:123) raises `AttributeError`; that error is not
  modelled.
- **`to_vlp` in the current version.** Its `**kwargs` are forwarded to `vlpProblem` and are
  not represented. The modelled record leaves the name absent.
- **Object identity.** Python compares models by identity. The model uses structural equality
  of `Organism` values, so two structurally equal models are one model here. Distinct model ids
  are a precondition wherever labels must be unique, because the source relies on them and does
  not check them.
- **Dictionary order.**
  - The dictionaries returned by both `get_common_mets` are Dafny maps, so the insertion order
    of their keys is not modelled.
  - The `OrderedDict` `objectives` is also a map. Its order is never read: `to_vlp` looks it up
    model by model.
  - The pool dictionary is ordered, because its key order fixes the pool labels. The model
    assumes insertion-ordered dictionaries, as in Python 3.7 and later (CPython 3.6). The
    `iteritems` calls below are Python 2, where `dict(pooldict)` (mocbapy/EcosystemModel.py:27)
    and `pooldict=dict()` (Ecosystem.py:36) iterate in hash order. There the pool labels
    would come in some permutation of the first-seen order that `Pool.GroupOrder` states;
    that order is not modelled.
- **Matrix updates.** `lil_matrix` updates in place are modelled as values. Each assignment
  in a loop replaces the matrix value with the one that has that cell written. Aliasing of the
  scipy objects is not captured.
- **Python 2 `iteritems`.**
  - `_choose_optlang_interfase` iterates `optlang.available_solvers.iteritems()`, and `mo_fva`
    iterates `fba.iteritems()`. That is Python 2 dictionary iteration.
  - The model takes the available solvers and `fba` as sequences of pairs in iteration order.
  - Under Python 3 both calls would raise `AttributeError`. That is not modelled.
- **Lower-casing.** `str.lower` is modelled on ASCII letters only.
- Utilities.ChooseOptlangInterfase: returns the solver's name, not the interface object. The
  lookup `list_solvers.solvers[solver]` in cobra's registry is not modelled.
- Procedures.ChooseOptlangInterfase: the same as the utilities copy, of which it is a
  duplicate in the source.
- Utilities.BuildBaseOptModel:
  - It takes the five fields of an ecosystem it reads rather than the object.
  - It requires `lb`/`ub` to be at least as long as `sysreactions`. A shorter list raises
    `IndexError` in the source, and cannot happen on an assembled ecosystem (see
    `Utilities.AssembledShapes`).
  - A constraint's expression is kept as its list of terms. `sum_from_list` over them is
    modelled on reals (`Utilities.SumFromList`), not on optlang expressions.
- Utilities.SumFromListP: models `int((a+b)/2)` as integer division. For non-negative indices
  this is the same as long as `a + b` is exactly representable as a double.
- Procedures.MoFva:
  - An `fba` key or a listed reaction that names no variable makes `getVarByName` return None.
    The model fails with `UnknownVariable` at that name. For a reaction it assumes the failure
    happens at `setObjective(None, …)`, before the objective changes; if gurobi accepted a None
    objective, `flux.x` would still raise, but the objective left behind would differ.
  - An absent `alpha` is the omitted argument, so 0.9 applies. An explicit `alpha=None`, which
    makes `value*alpha` raise in the source, is not modelled.
  - It does not distinguish a gurobi model from any other object. The source builds a
    `RuntimeError` for a non-gurobi `base_model` but never raises it, so such a model is not
    rejected there either.
- **What the code does when a step fails.**
  - A direction without a solution makes `mo_fva` fail as a whole, at the first reaction
    without a solution. The added constraints stay in place and the objective stays on that
    reaction. No per-reaction infeasibility result is kept.
  - The current `__init__` only warns when an input is missing. It leaves every derived field
    None and raises nothing.
- **The legacy pool's "create" branch.** `if met_name not in pooldict` in Ecosystem.py:42-45 is
  the `k !in Keys(pool)` case of `Pool.Append`. Both versions share that one definition.
