/** The assembled ecosystem system, shared by both versions of the pipeline: system labels,
    bounds, the block-structured matrix `Ssigma` with its pool coupling, and the objective
    matrix `P` of the exported vector linear program. Each is a specification function that
    the imperative loops of the two `EcosystemModel` classes are proved to compute. */
module Assembly {

  import opened Wrappers
  import opened Sequences
  import opened Matrices
  import opened Organisms
  import opened Pool

  /** Bounds given to every pool exchange reaction: open exchange. */
  const PoolLowerBound: real := -1000.0
  const PoolUpperBound: real := 1000.0

  /** `"EX_{key}:pool"` for each pool key. */
  function PoolReactionLabels(keys: seq<string>): (r: seq<string>)
    ensures |r| == |keys|
  {
    seq(|keys|, p requires 0 <= p < |keys| => Label("EX_" + keys[p], "pool"))
  }

  /** `"{key}:pool"` for each pool key. */
  function PoolMetaboliteLabels(keys: seq<string>): (r: seq<string>)
    ensures |r| == |keys|
  {
    seq(|keys|, p requires 0 <= p < |keys| => Label(keys[p], "pool"))
  }

  function NumReactions(ms: seq<Organism>): nat { TotalSize(ms, ReactionCount) }

  function NumMetabolites(ms: seq<Organism>): nat { TotalSize(ms, MetaboliteCount) }

  /** `sysreactions`: organism reaction labels model by model, then the pool reactions;
      Σ|reactions| + |pool| entries. */
  function SysReactions(ms: seq<Organism>, keys: seq<string>): (r: seq<string>)
    ensures |r| == NumReactions(ms) + |keys|
  {
    ConcatMapLength(ms, ReactionLabels, ReactionCount);
    ConcatMap(ms, ReactionLabels) + PoolReactionLabels(keys)
  }

  /** `sysmetabolites`, laid out the same way. */
  function SysMetabolites(ms: seq<Organism>, keys: seq<string>): (r: seq<string>)
    ensures |r| == NumMetabolites(ms) + |keys|
  {
    ConcatMapLength(ms, MetaboliteLabels, MetaboliteCount);
    ConcatMap(ms, MetaboliteLabels) + PoolMetaboliteLabels(keys)
  }

  /** `lb`, aligned with `sysreactions`. */
  function SysLowerBounds(ms: seq<Organism>, keys: seq<string>): (r: seq<real>)
    ensures |r| == NumReactions(ms) + |keys|
  {
    ConcatMapLength(ms, LowerBounds, ReactionCount);
    ConcatMap(ms, LowerBounds) + seq(|keys|, _ => PoolLowerBound)
  }

  /** `ub`, aligned with `sysreactions`. */
  function SysUpperBounds(ms: seq<Organism>, keys: seq<string>): (r: seq<real>)
    ensures |r| == NumReactions(ms) + |keys|
  {
    ConcatMapLength(ms, UpperBounds, ReactionCount);
    ConcatMap(ms, UpperBounds) + seq(|keys|, _ => PoolUpperBound)
  }

  /** Reaction j of model b sits at column `NumReactions(ms[..b]) + j`, with its native bounds. */
  lemma OrganismReactionAt(ms: seq<Organism>, keys: seq<string>, b: nat, j: nat)
    requires b < |ms| && j < |ms[b].reactions|
    ensures NumReactions(ms[..b]) + j < NumReactions(ms)
    ensures SysReactions(ms, keys)[NumReactions(ms[..b]) + j] == Label(ms[b].reactions[j].id, ms[b].id)
    ensures SysLowerBounds(ms, keys)[NumReactions(ms[..b]) + j] == ms[b].reactions[j].lowerBound
    ensures SysUpperBounds(ms, keys)[NumReactions(ms[..b]) + j] == ms[b].reactions[j].upperBound
  {
    ConcatMapAt(ms, ReactionLabels, b, j);
    ConcatMapAt(ms, LowerBounds, b, j);
    ConcatMapAt(ms, UpperBounds, b, j);
    ConcatMapLength(ms[..b], ReactionLabels, ReactionCount);
    ConcatMapLength(ms[..b], LowerBounds, ReactionCount);
    ConcatMapLength(ms[..b], UpperBounds, ReactionCount);
    ConcatMapLength(ms, ReactionLabels, ReactionCount);
  }

  /** Metabolite i of model b sits at row `NumMetabolites(ms[..b]) + i`. */
  lemma OrganismMetaboliteAt(ms: seq<Organism>, keys: seq<string>, b: nat, i: nat)
    requires b < |ms| && i < |ms[b].metabolites|
    ensures NumMetabolites(ms[..b]) + i < NumMetabolites(ms)
    ensures SysMetabolites(ms, keys)[NumMetabolites(ms[..b]) + i] == Label(ms[b].metabolites[i], ms[b].id)
  {
    ConcatMapAt(ms, MetaboliteLabels, b, i);
    ConcatMapLength(ms[..b], MetaboliteLabels, MetaboliteCount);
    ConcatMapLength(ms, MetaboliteLabels, MetaboliteCount);
  }

  /** Pool key p gives reaction `NumReactions(ms) + p` with bounds [-1000, 1000] and
      metabolite `NumMetabolites(ms) + p`. */
  lemma PoolEntryAt(ms: seq<Organism>, keys: seq<string>, p: nat)
    requires p < |keys|
    ensures SysReactions(ms, keys)[NumReactions(ms) + p] == Label("EX_" + keys[p], "pool")
    ensures SysLowerBounds(ms, keys)[NumReactions(ms) + p] == -1000.0
    ensures SysUpperBounds(ms, keys)[NumReactions(ms) + p] == 1000.0
    ensures SysMetabolites(ms, keys)[NumMetabolites(ms) + p] == Label(keys[p], "pool")
  {
    ConcatMapLength(ms, ReactionLabels, ReactionCount);
    ConcatMapLength(ms, LowerBounds, ReactionCount);
    ConcatMapLength(ms, UpperBounds, ReactionCount);
    ConcatMapLength(ms, MetaboliteLabels, MetaboliteCount);
  }

  /** What makes every label unique: well-formed ids, distinct model ids, and distinct pool
      keys without ':'. */
  ghost predicate LabelsWellFormed(ms: seq<Organism>, keys: seq<string>) {
    && DistinctIds(ms)
    && (forall b :: 0 <= b < |ms| ==> IdsWellFormed(ms[b]))
    && Distinct(keys)
    && (forall p :: 0 <= p < |keys| ==> ColonFree(keys[p]))
  }

  /** A label of one organism's block is `Label(x, o.id)` with a colon-free first part. */
  lemma BlockLabelOwner(o: Organism, f: Organism -> seq<string>, v: string)
    requires f == ReactionLabels || f == MetaboliteLabels
    requires IdsWellFormed(o) && v in f(o)
    ensures exists x :: ColonFree(x) && v == Label(x, o.id)
  {
    var j :| 0 <= j < |f(o)| && f(o)[j] == v;
    if f == ReactionLabels {
      assert v == Label(o.reactions[j].id, o.id);
    } else {
      assert v == Label(o.metabolites[j], o.id);
    }
  }

  /** Organism labels name their model: a label of model b's block carries b's id. */
  lemma OrganismLabelOwner(ms: seq<Organism>, f: Organism -> seq<string>, v: string)
    requires f == ReactionLabels || f == MetaboliteLabels
    requires forall b :: 0 <= b < |ms| ==> IdsWellFormed(ms[b])
    requires v in ConcatMap(ms, f)
    ensures exists b, x :: 0 <= b < |ms| && ColonFree(x) && v == Label(x, ms[b].id)
  {
    ConcatMapMember(ms, f, v);
    var b :| 0 <= b < |ms| && v in f(ms[b]);
    BlockLabelOwner(ms[b], f, v);
  }

  /** The labels of one organism's block have no duplicates. */
  lemma BlockLabelsDistinct(o: Organism, f: Organism -> seq<string>)
    requires f == ReactionLabels || f == MetaboliteLabels
    requires IdsWellFormed(o)
    ensures Distinct(f(o))
  {
    forall j, k | 0 <= j < k < |f(o)|
      ensures f(o)[j] != f(o)[k]
    {
      if f == ReactionLabels {
        if f(o)[j] == f(o)[k] {
          LabelInjective(o.reactions[j].id, o.id, o.reactions[k].id, o.id);
        }
      } else {
        if f(o)[j] == f(o)[k] {
          LabelInjective(o.metabolites[j], o.id, o.metabolites[k], o.id);
        }
      }
    }
  }

  /** The organism part of the reaction (metabolite) labels has no duplicates. */
  lemma {:induction false} OrganismLabelsDistinct(ms: seq<Organism>, f: Organism -> seq<string>)
    requires f == ReactionLabels || f == MetaboliteLabels
    requires DistinctIds(ms) && forall b :: 0 <= b < |ms| ==> IdsWellFormed(ms[b])
    ensures Distinct(ConcatMap(ms, f))
  {
    if ms != [] {
      var n := |ms| - 1;
      var o := ms[n];
      assert forall b :: 0 <= b < n ==> ms[..n][b] == ms[b];
      OrganismLabelsDistinct(ms[..n], f);
      BlockLabelsDistinct(o, f);
      forall v | v in ConcatMap(ms[..n], f)
        ensures v !in f(o)
      {
        OrganismLabelOwner(ms[..n], f, v);
        var b, x :| 0 <= b < n && ColonFree(x) && v == Label(x, ms[b].id);
        if v in f(o) {
          BlockLabelOwner(o, f, v);
          var y :| ColonFree(y) && v == Label(y, o.id);
          LabelInjective(x, ms[b].id, y, o.id);
        }
      }
      DistinctConcat(ConcatMap(ms[..n], f), f(o));
    }
  }

  lemma ExPrefixColonFree(k: string)
    requires ColonFree(k)
    ensures ColonFree("EX_" + k)
  {
    assert forall x :: 0 <= x < |"EX_" + k| ==> ("EX_" + k)[x] == if x < 3 then "EX_"[x] else k[x - 3];
  }

  /** Every reaction label is unique (the organism labels carry their model's id, pool labels
      carry "pool"). */
  lemma SysReactionsDistinct(ms: seq<Organism>, keys: seq<string>)
    requires LabelsWellFormed(ms, keys)
    ensures Distinct(SysReactions(ms, keys))
  {
    var org, pool := ConcatMap(ms, ReactionLabels), PoolReactionLabels(keys);
    OrganismLabelsDistinct(ms, ReactionLabels);
    forall p, q | 0 <= p < q < |pool|
      ensures pool[p] != pool[q]
    {
      ExPrefixColonFree(keys[p]);
      ExPrefixColonFree(keys[q]);
      assert keys[p] == ("EX_" + keys[p])[3..] && keys[q] == ("EX_" + keys[q])[3..];
      assert keys[p] != keys[q];
      if pool[p] == pool[q] {
        LabelInjective("EX_" + keys[p], "pool", "EX_" + keys[q], "pool");
      }
    }
    forall v | v in org
      ensures v !in pool
    {
      OrganismLabelOwner(ms, ReactionLabels, v);
      var b, x :| 0 <= b < |ms| && ColonFree(x) && v == Label(x, ms[b].id);
      if v in pool {
        var p :| 0 <= p < |pool| && pool[p] == v;
        ExPrefixColonFree(keys[p]);
        LabelInjective(x, ms[b].id, "EX_" + keys[p], "pool");
      }
    }
    DistinctConcat(org, pool);
  }

  /** Every metabolite label is unique. */
  lemma SysMetabolitesDistinct(ms: seq<Organism>, keys: seq<string>)
    requires LabelsWellFormed(ms, keys)
    ensures Distinct(SysMetabolites(ms, keys))
  {
    var org, pool := ConcatMap(ms, MetaboliteLabels), PoolMetaboliteLabels(keys);
    OrganismLabelsDistinct(ms, MetaboliteLabels);
    forall p, q | 0 <= p < q < |pool|
      ensures pool[p] != pool[q]
    {
      assert pool[p] == Label(keys[p], "pool") && pool[q] == Label(keys[q], "pool");
      assert keys[p] != keys[q];
      if pool[p] == pool[q] {
        LabelInjective(keys[p], "pool", keys[q], "pool");
      }
    }
    forall v | v in org
      ensures v !in pool
    {
      OrganismLabelOwner(ms, MetaboliteLabels, v);
      var b, x :| 0 <= b < |ms| && ColonFree(x) && v == Label(x, ms[b].id);
      if v in pool {
        var p :| 0 <= p < |pool| && pool[p] == v;
        LabelInjective(x, ms[b].id, keys[p], "pool");
      }
    }
    DistinctConcat(org, pool);
  }

  /** The label lookup `sysreactions.index("{r.id}:{model.id}")` finds reaction j of model b
      at its block offset. */
  lemma ReactionColumn(ms: seq<Organism>, keys: seq<string>, b: nat, j: nat)
    requires LabelsWellFormed(ms, keys) && b < |ms| && j < |ms[b].reactions|
    ensures Label(ms[b].reactions[j].id, ms[b].id) in SysReactions(ms, keys)
    ensures IndexOf(SysReactions(ms, keys), Label(ms[b].reactions[j].id, ms[b].id)) == NumReactions(ms[..b]) + j
  {
    OrganismReactionAt(ms, keys, b, j);
    SysReactionsDistinct(ms, keys);
    IndexOfDistinct(SysReactions(ms, keys), NumReactions(ms[..b]) + j);
  }

  /** The label lookup `sysmetabolites.index("{key}:pool")` finds pool key p right after all
      organism metabolites. */
  lemma PoolRow(ms: seq<Organism>, keys: seq<string>, p: nat)
    requires LabelsWellFormed(ms, keys) && p < |keys|
    ensures Label(keys[p], "pool") in SysMetabolites(ms, keys)
    ensures IndexOf(SysMetabolites(ms, keys), Label(keys[p], "pool")) == NumMetabolites(ms) + p
  {
    PoolEntryAt(ms, keys, p);
    SysMetabolitesDistinct(ms, keys);
    IndexOfDistinct(SysMetabolites(ms, keys), NumMetabolites(ms) + p);
  }

  // ----- The stoichiometric matrix Ssigma -----

  /** Every native matrix is valid and aligned with its organism's metabolites and reactions. */
  ghost predicate AlignedNatives(ms: seq<Organism>) {
    forall b :: 0 <= b < |ms| ==>
      Valid(ms[b].s) && ms[b].s.rows == |ms[b].metabolites| && ms[b].s.cols == |ms[b].reactions|
  }

  lemma AlignedPrefix(ms: seq<Organism>, n: nat)
    requires AlignedNatives(ms) && n <= |ms|
    ensures AlignedNatives(ms[..n])
  {
    assert forall x :: 0 <= x < n ==> ms[..n][x] == ms[x];
  }

  /** `block_diag([native S of each model])`, in model order. */
  function NativeBlocks(ms: seq<Organism>): (m: Matrix)
    requires AlignedNatives(ms)
    ensures Valid(m) && m.rows == NumMetabolites(ms) && m.cols == NumReactions(ms)
  {
    if ms == [] then Zeros(0, 0)
    else
      var n := |ms| - 1;
      AlignedPrefix(ms, n);
      BlockDiag2(NativeBlocks(ms[..n]), ms[n].s)
  }

  /** The entry that the native blocks hold at row `NumMetabolites(ms[..b]) + i`, column c. */
  ghost predicate BlockEntry(ms: seq<Organism>, m: Matrix, b: nat, i: nat, c: nat)
    requires AlignedNatives(ms) && b < |ms| && i < |ms[b].metabolites|
    requires Valid(m) && NumMetabolites(ms[..b]) + i < m.rows && c < m.cols
  {
    At(m, NumMetabolites(ms[..b]) + i, c) ==
      if NumReactions(ms[..b]) <= c < NumReactions(ms[..b]) + |ms[b].reactions|
      then At(ms[b].s, i, c - NumReactions(ms[..b])) else 0.0
  }

  /** Each organism's native matrix sits at its block offset; the rest of its rows is zero. */
  lemma {:induction false} NativeBlocksAt(ms: seq<Organism>, b: nat, i: nat, c: nat)
    requires AlignedNatives(ms) && b < |ms| && i < |ms[b].metabolites| && c < NumReactions(ms)
    ensures NumMetabolites(ms[..b]) + i < NumMetabolites(ms)
    ensures BlockEntry(ms, NativeBlocks(ms), b, i, c)
    decreases |ms|, 2
  {
    var n := |ms| - 1;
    if b < n {
      TotalSizePrefix(ms, MetaboliteCount, b, n);
      TotalSizePrefix(ms, ReactionCount, b, n);
      NativeBlocksEarlier(ms, b, i, c);
    } else {
      NativeBlocksLast(ms, i, c);
    }
  }

  /** The last block of `NativeBlocksAt`. */
  lemma NativeBlocksLast(ms: seq<Organism>, i: nat, c: nat)
    requires AlignedNatives(ms) && |ms| > 0 && i < |ms[|ms| - 1].metabolites| && c < NumReactions(ms)
    ensures NumMetabolites(ms[..|ms| - 1]) + i < NumMetabolites(ms)
    ensures BlockEntry(ms, NativeBlocks(ms), |ms| - 1, i, c)
  {
    var n := |ms| - 1;
    var front := ms[..n];
    AlignedPrefix(ms, n);
    var a := NativeBlocks(front);
    var r0 := NumMetabolites(front);
    var c0 := NumReactions(front);
    assert NumMetabolites(ms) == r0 + |ms[n].metabolites|;
    assert NumReactions(ms) == c0 + |ms[n].reactions|;
    assert a.rows == r0 && a.cols == c0;
    BlockDiag2At(NativeBlocks(front), ms[n].s, NumMetabolites(front) + i, c);
  }

  /** The inductive step of `NativeBlocksAt` for a block before the last one. */
  lemma {:induction false} NativeBlocksEarlier(ms: seq<Organism>, b: nat, i: nat, c: nat)
    requires AlignedNatives(ms) && b + 1 < |ms| && i < |ms[b].metabolites| && c < NumReactions(ms)
    requires NumMetabolites(ms[..b]) + |ms[b].metabolites| <= NumMetabolites(ms[..|ms| - 1])
    requires NumReactions(ms[..b]) + |ms[b].reactions| <= NumReactions(ms[..|ms| - 1])
    ensures NumMetabolites(ms[..b]) + i < NumMetabolites(ms)
    ensures BlockEntry(ms, NativeBlocks(ms), b, i, c)
    decreases |ms|, 1
  {
    var n := |ms| - 1;
    var front := ms[..n];
    AlignedPrefix(ms, n);
    assert front[b] == ms[b];
    assert front[..b] == ms[..b];
    var a := NativeBlocks(front);
    BlockDiag2At(a, ms[n].s, NumMetabolites(ms[..b]) + i, c);
    if c < a.cols {
      NativeBlocksAt(front, b, i, c);
    }
  }

  /** `block_diag([native blocks, -eye(|pool|)])`, before the pool coupling is written. */
  function SsigmaBase(ms: seq<Organism>, poolSize: nat): (m: Matrix)
    requires AlignedNatives(ms)
    ensures Valid(m) && m.rows == NumMetabolites(ms) + poolSize && m.cols == NumReactions(ms) + poolSize
  {
    BlockDiag2(NativeBlocks(ms), NegIdentity(poolSize))
  }

  /** The organism part of the base is the native block-diagonal matrix, padded with zeros. */
  lemma SsigmaBaseOrganism(ms: seq<Organism>, poolSize: nat, r: nat, c: nat)
    requires AlignedNatives(ms)
    requires r < NumMetabolites(ms) && c < NumReactions(ms) + poolSize
    ensures At(SsigmaBase(ms, poolSize), r, c) == if c < NumReactions(ms) then At(NativeBlocks(ms), r, c) else 0.0
  {
    BlockDiag2At(NativeBlocks(ms), NegIdentity(poolSize), r, c);
  }

  /** The pool part of the base: zero below the organisms, `-I` in the pool corner. */
  lemma SsigmaBasePool(ms: seq<Organism>, poolSize: nat, p: nat, c: nat)
    requires AlignedNatives(ms)
    requires p < poolSize && c < NumReactions(ms) + poolSize
    ensures At(SsigmaBase(ms, poolSize), NumMetabolites(ms) + p, c) ==
      if c == NumReactions(ms) + p then -1.0 else 0.0
  {
    BlockDiag2At(NativeBlocks(ms), NegIdentity(poolSize), NumMetabolites(ms) + p, c);
  }

  /** The triple's model is one of the models and its reaction is one of that model's. */
  ghost predicate Resolvable(t: Triple, ms: seq<Organism>) {
    t.model in ms && exists j :: 0 <= j < |t.model.reactions| && t.model.reactions[j].id == t.rxn
  }

  ghost predicate PoolResolvable(pool: PoolDict, ms: seq<Organism>) {
    forall p :: 0 <= p < |pool| ==> forall t :: t in pool[p].1 ==> Resolvable(t, ms)
  }

  /** The label `"{reaction.id}:{model.id}"` of a triple. */
  function TripleLabel(t: Triple): string {
    Label(t.rxn, t.model.id)
  }

  /** A resolvable triple's label is found among the organism reaction labels. */
  lemma ResolvableLabel(ms: seq<Organism>, keys: seq<string>, t: Triple)
    requires Resolvable(t, ms)
    ensures TripleLabel(t) in SysReactions(ms, keys)
    ensures IndexOf(SysReactions(ms, keys), TripleLabel(t)) < NumReactions(ms)
  {
    var b :| 0 <= b < |ms| && ms[b] == t.model;
    var j :| 0 <= j < |t.model.reactions| && t.model.reactions[j].id == t.rxn;
    ConcatMapAt(ms, ReactionLabels, b, j);
    var org := ConcatMap(ms, ReactionLabels);
    assert TripleLabel(t) in org;
    IndexOfPrefix(org, PoolReactionLabels(keys), TripleLabel(t));
    ConcatMapLength(ms, ReactionLabels, ReactionCount);
  }

  /** Every label the coupling loop looks up is present. */
  ghost predicate Addressable(pool: PoolDict, sysmets: seq<string>, sysrxns: seq<string>) {
    forall p :: 0 <= p < |pool| ==>
      Label(pool[p].0, "pool") in sysmets && forall t :: t in pool[p].1 ==> TripleLabel(t) in sysrxns
  }

  lemma AddressableSys(ms: seq<Organism>, pool: PoolDict)
    requires PoolResolvable(pool, ms)
    ensures Addressable(pool, SysMetabolites(ms, Keys(pool)), SysReactions(ms, Keys(pool)))
  {
    forall p | 0 <= p < |pool|
      ensures Label(pool[p].0, "pool") in SysMetabolites(ms, Keys(pool))
      ensures forall t :: t in pool[p].1 ==> TripleLabel(t) in SysReactions(ms, Keys(pool))
    {
      PoolEntryAt(ms, Keys(pool), p);
      forall t | t in pool[p].1
        ensures TripleLabel(t) in SysReactions(ms, Keys(pool))
      {
        ResolvableLabel(ms, Keys(pool), t);
      }
    }
  }

  /** `Ssigma[met_idx, rxn_idx] = -coeff` for each triple of one group, in order. */
  function GroupWrites(row: nat, ts: seq<Triple>, sysrxns: seq<string>): (ws: seq<Write>)
    requires forall t :: t in ts ==> TripleLabel(t) in sysrxns
    ensures forall k :: 0 <= k < |ws| ==> ws[k].row == row && ws[k].col < |sysrxns|
  {
    if ts == [] then []
    else
      var n := |ts| - 1;
      assert forall t :: t in ts[..n] ==> t in ts;
      GroupWrites(row, ts[..n], sysrxns) + [Write(row, IndexOf(sysrxns, TripleLabel(ts[n])), -ts[n].coef)]
  }

  /** All writes of the coupling loop: group by group in key order. */
  function CouplingWrites(pool: PoolDict, sysmets: seq<string>, sysrxns: seq<string>): (ws: seq<Write>)
    requires Addressable(pool, sysmets, sysrxns)
    ensures InBounds(ws, |sysmets|, |sysrxns|)
  {
    if pool == [] then []
    else
      var n := |pool| - 1;
      assert Addressable(pool[..n], sysmets, sysrxns) by {
        assert forall p :: 0 <= p < n ==> pool[..n][p] == pool[p];
      }
      CouplingWrites(pool[..n], sysmets, sysrxns)
        + GroupWrites(IndexOf(sysmets, Label(pool[n].0, "pool")), pool[n].1, sysrxns)
  }

  lemma AddressableTake(pool: PoolDict, sysmets: seq<string>, sysrxns: seq<string>, n: nat)
    requires Addressable(pool, sysmets, sysrxns) && n <= |pool|
    ensures Addressable(pool[..n], sysmets, sysrxns)
  {
    assert forall p :: 0 <= p < n ==> pool[..n][p] == pool[p];
  }

  lemma GroupWritesSnoc(row: nat, ts: seq<Triple>, sysrxns: seq<string>, t: nat)
    requires t < |ts| && forall u :: u in ts ==> TripleLabel(u) in sysrxns
    ensures forall u :: u in ts[..t + 1] ==> TripleLabel(u) in sysrxns
    ensures GroupWrites(row, ts[..t + 1], sysrxns) ==
      GroupWrites(row, ts[..t], sysrxns) + [Write(row, IndexOf(sysrxns, TripleLabel(ts[t])), -ts[t].coef)]
  {
    assert forall u :: u in ts[..t + 1] ==> u in ts;
    assert ts[..t + 1][..t] == ts[..t];
  }

  /** One more pool key contributes its group's writes at the end. */
  lemma CouplingWritesSnoc(pool: PoolDict, sysmets: seq<string>, sysrxns: seq<string>, p: nat)
    requires Addressable(pool, sysmets, sysrxns) && p < |pool|
    ensures Addressable(pool[..p], sysmets, sysrxns) && Addressable(pool[..p + 1], sysmets, sysrxns)
    ensures CouplingWrites(pool[..p + 1], sysmets, sysrxns) ==
      CouplingWrites(pool[..p], sysmets, sysrxns) + GroupWrites(IndexOf(sysmets, Label(pool[p].0, "pool")), pool[p].1, sysrxns)
  {
    AddressableTake(pool, sysmets, sysrxns, p);
    AddressableTake(pool, sysmets, sysrxns, p + 1);
    assert pool[..p + 1][..p] == pool[..p];
    assert pool[..p + 1][p] == pool[p];
  }

  /** `Ssigma` as `_populate_ecosystem_model` leaves it. */
  function Ssigma(ms: seq<Organism>, pool: PoolDict): (m: Matrix)
    requires AlignedNatives(ms) && PoolResolvable(pool, ms)
    ensures Valid(m)
    ensures m.rows == |SysMetabolites(ms, Keys(pool))| && m.cols == |SysReactions(ms, Keys(pool))|
  {
    AddressableSys(ms, pool);
    ApplyWrites(SsigmaBase(ms, |pool|),
      CouplingWrites(pool, SysMetabolites(ms, Keys(pool)), SysReactions(ms, Keys(pool))))
  }

  /** Without a pool there are no pool labels and `Ssigma` is purely block-diagonal. */
  lemma SsigmaWithoutPool(ms: seq<Organism>)
    requires AlignedNatives(ms)
    ensures SysReactions(ms, []) == ConcatMap(ms, ReactionLabels)
    ensures SysMetabolites(ms, []) == ConcatMap(ms, MetaboliteLabels)
    ensures PoolResolvable([], ms) && Ssigma(ms, []) == NativeBlocks(ms)
  {
    assert ConcatMap(ms, ReactionLabels) + [] == ConcatMap(ms, ReactionLabels);
    assert ConcatMap(ms, MetaboliteLabels) + [] == ConcatMap(ms, MetaboliteLabels);
    BlockDiag2Empty(NativeBlocks(ms), NegIdentity(0));
  }

  /** The value of a cell that may have been overwritten: the write, else the old value. */
  function ValueOr(v: Option<real>, old_: real): real {
    match v case Some(x) => x case None => old_
  }

  /** A cell of Ssigma holds the last coupling write to it, or else the base's entry. */
  lemma SsigmaCell(ms: seq<Organism>, pool: PoolDict, r: nat, c: nat)
    requires AlignedNatives(ms) && PoolResolvable(pool, ms)
    requires r < NumMetabolites(ms) + |pool| && c < NumReactions(ms) + |pool|
    ensures Addressable(pool, SysMetabolites(ms, Keys(pool)), SysReactions(ms, Keys(pool)))
    ensures At(Ssigma(ms, pool), r, c) ==
      ValueOr(LastWrite(CouplingWrites(pool, SysMetabolites(ms, Keys(pool)), SysReactions(ms, Keys(pool))), r, c),
              At(SsigmaBase(ms, |pool|), r, c))
  {
    AddressableSys(ms, pool);
    ApplyWritesAt(SsigmaBase(ms, |pool|), CouplingWrites(pool, SysMetabolites(ms, Keys(pool)), SysReactions(ms, Keys(pool))), r, c);
  }

  /** The coefficient of the last triple whose reaction column is c, if any. */
  function LastCoef(ts: seq<Triple>, sysrxns: seq<string>, c: nat): Option<real>
  {
    if ts == [] then None
    else
      var n := |ts| - 1;
      if TripleLabel(ts[n]) in sysrxns && IndexOf(sysrxns, TripleLabel(ts[n])) == c then Some(ts[n].coef)
      else LastCoef(ts[..n], sysrxns, c)
  }

  function Negated(v: Option<real>): Option<real> {
    match v case Some(x) => Some(-x) case None => None
  }

  /** Within one group's writes, cell (row, c) ends up holding minus the last matching coefficient. */
  lemma {:induction false} GroupWritesLast(row: nat, ts: seq<Triple>, sysrxns: seq<string>, r: nat, c: nat)
    requires forall t :: t in ts ==> TripleLabel(t) in sysrxns
    ensures LastWrite(GroupWrites(row, ts, sysrxns), r, c) == if r == row then Negated(LastCoef(ts, sysrxns, c)) else None
  {
    if ts != [] {
      var n := |ts| - 1;
      assert forall t :: t in ts[..n] ==> t in ts;
      var ws := GroupWrites(row, ts, sysrxns);
      assert ws[..|ws| - 1] == GroupWrites(row, ts[..n], sysrxns);
      GroupWritesLast(row, ts[..n], sysrxns, r, c);
    }
  }

  /** Group p of the coupling loop writes only to row `base + p`, so each pool row only sees
      its own group's writes. */
  lemma {:induction false} CouplingWritesLast(pool: PoolDict, sysmets: seq<string>, sysrxns: seq<string>, base: nat, r: nat, c: nat)
    requires Addressable(pool, sysmets, sysrxns)
    requires forall q :: 0 <= q < |pool| ==> IndexOf(sysmets, Label(pool[q].0, "pool")) == base + q
    ensures r < base || base + |pool| <= r ==> LastWrite(CouplingWrites(pool, sysmets, sysrxns), r, c) == None
    ensures base <= r < base + |pool| ==>
      LastWrite(CouplingWrites(pool, sysmets, sysrxns), r, c) == Negated(LastCoef(pool[r - base].1, sysrxns, c))
  {
    if pool != [] {
      var n := |pool| - 1;
      var front := pool[..n];
      assert forall q :: 0 <= q < n ==> front[q] == pool[q];
      assert Addressable(front, sysmets, sysrxns);
      assert forall q :: 0 <= q < |front| ==> IndexOf(sysmets, Label(front[q].0, "pool")) == base + q;
      CouplingWritesLast(front, sysmets, sysrxns, base, r, c);
      CouplingWritesStep(pool, sysmets, sysrxns, base, r, c);
    }
  }

  /** The last group of the coupling loop: adding its writes to the rows of the others. */
  lemma CouplingWritesStep(pool: PoolDict, sysmets: seq<string>, sysrxns: seq<string>, base: nat, r: nat, c: nat)
    requires pool != [] && Addressable(pool, sysmets, sysrxns)
    requires forall q :: 0 <= q < |pool| ==> IndexOf(sysmets, Label(pool[q].0, "pool")) == base + q
    requires var fs := CouplingWrites(pool[..|pool| - 1], sysmets, sysrxns);
      (r < base || base + |pool| - 1 <= r ==> LastWrite(fs, r, c) == None) &&
      (base <= r < base + |pool| - 1 ==> LastWrite(fs, r, c) == Negated(LastCoef(pool[r - base].1, sysrxns, c)))
    ensures r < base || base + |pool| <= r ==> LastWrite(CouplingWrites(pool, sysmets, sysrxns), r, c) == None
    ensures base <= r < base + |pool| ==>
      LastWrite(CouplingWrites(pool, sysmets, sysrxns), r, c) == Negated(LastCoef(pool[r - base].1, sysrxns, c))
  {
    var n := |pool| - 1;
    var row := IndexOf(sysmets, Label(pool[n].0, "pool"));
    assert row == base + n;
    var gs := GroupWrites(row, pool[n].1, sysrxns);
    var fs := CouplingWrites(pool[..n], sysmets, sysrxns);
    assert CouplingWrites(pool, sysmets, sysrxns) == fs + gs;
    LastWriteAppend(fs, gs, r, c);
    GroupWritesLast(row, pool[n].1, sysrxns, r, c);
  }

  /** Pool row `base + p` holds what group p wrote last. */
  lemma CouplingWritesPoolRow(pool: PoolDict, sysmets: seq<string>, sysrxns: seq<string>, base: nat, p: nat, c: nat)
    requires Addressable(pool, sysmets, sysrxns)
    requires forall q :: 0 <= q < |pool| ==> IndexOf(sysmets, Label(pool[q].0, "pool")) == base + q
    requires p < |pool|
    ensures LastWrite(CouplingWrites(pool, sysmets, sysrxns), base + p, c) == Negated(LastCoef(pool[p].1, sysrxns, c))
  {
    var r := base + p;
    CouplingWritesLast(pool, sysmets, sysrxns, base, r, c);
    assert r - base == p;
  }

  /** Rows outside the pool rows are never written. */
  lemma CouplingWritesElsewhere(pool: PoolDict, sysmets: seq<string>, sysrxns: seq<string>, base: nat, r: nat, c: nat)
    requires Addressable(pool, sysmets, sysrxns)
    requires forall q :: 0 <= q < |pool| ==> IndexOf(sysmets, Label(pool[q].0, "pool")) == base + q
    requires r < base
    ensures LastWrite(CouplingWrites(pool, sysmets, sysrxns), r, c) == None
  {
    CouplingWritesLast(pool, sysmets, sysrxns, base, r, c);
  }

  /** No triple of an organism-only group has a pool column. */
  lemma {:induction false} LastCoefBeyond(ts: seq<Triple>, sysrxns: seq<string>, bound: nat, c: nat)
    requires forall t :: t in ts ==> TripleLabel(t) in sysrxns && IndexOf(sysrxns, TripleLabel(t)) < bound
    requires bound <= c
    ensures LastCoef(ts, sysrxns, c) == None
  {
    if ts != [] {
      assert forall t :: t in ts[..|ts| - 1] ==> t in ts;
      LastCoefBeyond(ts[..|ts| - 1], sysrxns, bound, c);
    }
  }

  /** A pool whose keys meet `LabelsWellFormed` together with the models. */
  ghost predicate SystemWellFormed(ms: seq<Organism>, pool: PoolDict) {
    AlignedNatives(ms) && PoolResolvable(pool, ms) && LabelsWellFormed(ms, Keys(pool))
  }

  /** The index facts the coupling loop relies on: group q writes to row `NumMetabolites(ms) + q`. */
  lemma CouplingRows(ms: seq<Organism>, pool: PoolDict)
    requires SystemWellFormed(ms, pool)
    ensures Addressable(pool, SysMetabolites(ms, Keys(pool)), SysReactions(ms, Keys(pool)))
    ensures forall q :: 0 <= q < |pool| ==>
      IndexOf(SysMetabolites(ms, Keys(pool)), Label(pool[q].0, "pool")) == NumMetabolites(ms) + q
  {
    AddressableSys(ms, pool);
    forall q | 0 <= q < |pool|
      ensures IndexOf(SysMetabolites(ms, Keys(pool)), Label(pool[q].0, "pool")) == NumMetabolites(ms) + q
    {
      PoolRow(ms, Keys(pool), q);
    }
  }

  /** Organism rows are not written by the coupling loop. */
  lemma SsigmaOrganismAt(ms: seq<Organism>, pool: PoolDict, r: nat, c: nat)
    requires SystemWellFormed(ms, pool)
    requires r < NumMetabolites(ms) && c < NumReactions(ms) + |pool|
    ensures At(Ssigma(ms, pool), r, c) == At(SsigmaBase(ms, |pool|), r, c)
  {
    var keys := Keys(pool);
    var sysmets, sysrxns := SysMetabolites(ms, keys), SysReactions(ms, keys);
    CouplingRows(ms, pool);
    CouplingWritesElsewhere(pool, sysmets, sysrxns, NumMetabolites(ms), r, c);
    SsigmaCell(ms, pool, r, c);
  }

  /** Pool row p holds what group p wrote last at each column, and the base elsewhere. */
  lemma SsigmaPoolAt(ms: seq<Organism>, pool: PoolDict, p: nat, c: nat)
    requires SystemWellFormed(ms, pool)
    requires p < |pool| && c < NumReactions(ms) + |pool|
    ensures At(Ssigma(ms, pool), NumMetabolites(ms) + p, c) ==
      ValueOr(Negated(LastCoef(pool[p].1, SysReactions(ms, Keys(pool)), c)), At(SsigmaBase(ms, |pool|), NumMetabolites(ms) + p, c))
  {
    var keys := Keys(pool);
    var sysmets, sysrxns := SysMetabolites(ms, keys), SysReactions(ms, keys);
    var base := NumMetabolites(ms);
    CouplingRows(ms, pool);
    CouplingWritesPoolRow(pool, sysmets, sysrxns, base, p, c);
    var w := LastWrite(CouplingWrites(pool, sysmets, sysrxns), base + p, c);
    assert w == Negated(LastCoef(pool[p].1, sysrxns, c));
    SsigmaCell(ms, pool, base + p, c);
    assert At(Ssigma(ms, pool), base + p, c) == ValueOr(w, At(SsigmaBase(ms, |pool|), base + p, c));
  }

  /** Organism rows: model b's native matrix at its block offset, zero in every other column
      (other organisms and the pool). */
  lemma SsigmaOrganismRow(ms: seq<Organism>, pool: PoolDict, b: nat, i: nat, c: nat)
    requires SystemWellFormed(ms, pool)
    requires b < |ms| && i < |ms[b].metabolites| && c < NumReactions(ms) + |pool|
    ensures NumMetabolites(ms[..b]) + i < NumMetabolites(ms)
    ensures At(Ssigma(ms, pool), NumMetabolites(ms[..b]) + i, c) ==
      if NumReactions(ms[..b]) <= c < NumReactions(ms[..b]) + |ms[b].reactions|
      then At(ms[b].s, i, c - NumReactions(ms[..b])) else 0.0
  {
    var r := NumMetabolites(ms[..b]) + i;
    if c < NumReactions(ms) {
      NativeBlocksAt(ms, b, i, c);
    } else {
      TotalSizePrefix(ms, MetaboliteCount, b, |ms|);
      TotalSizePrefix(ms, ReactionCount, b, |ms|);
      assert ms[..|ms|] == ms;
    }
    SsigmaOrganismAt(ms, pool, r, c);
    SsigmaBaseOrganism(ms, |pool|, r, c);
  }

  /** Pool groups only name organism reactions, so they never write to a pool column. */
  lemma GroupMissesPoolColumns(ms: seq<Organism>, pool: PoolDict, p: nat, c: nat)
    requires PoolResolvable(pool, ms) && p < |pool| && NumReactions(ms) <= c
    ensures LastCoef(pool[p].1, SysReactions(ms, Keys(pool)), c) == None
  {
    var sysrxns := SysReactions(ms, Keys(pool));
    forall t | t in pool[p].1
      ensures TripleLabel(t) in sysrxns && IndexOf(sysrxns, TripleLabel(t)) < NumReactions(ms)
    {
      ResolvableLabel(ms, Keys(pool), t);
    }
    LastCoefBeyond(pool[p].1, sysrxns, NumReactions(ms), c);
  }

  /** The pool block is `-I`: pool row p has -1 at pool column `NumReactions(ms) + p` and 0 at
      the other pool columns. */
  lemma SsigmaPoolBlock(ms: seq<Organism>, pool: PoolDict, p: nat, c: nat)
    requires SystemWellFormed(ms, pool) && p < |pool| && NumReactions(ms) <= c < NumReactions(ms) + |pool|
    ensures At(Ssigma(ms, pool), NumMetabolites(ms) + p, c) == if c == NumReactions(ms) + p then -1.0 else 0.0
  {
    GroupMissesPoolColumns(ms, pool, p, c);
    SsigmaPoolAt(ms, pool, p, c);
    SsigmaBasePool(ms, |pool|, p, c);
  }

  /** The coupling: in an organism column c, pool row p holds minus the coefficient of the
      last triple of group p whose reaction sits at column c, and 0 when there is none. */
  lemma SsigmaPoolCoupling(ms: seq<Organism>, pool: PoolDict, p: nat, c: nat)
    requires SystemWellFormed(ms, pool) && p < |pool| && c < NumReactions(ms)
    ensures At(Ssigma(ms, pool), NumMetabolites(ms) + p, c) ==
      ValueOr(Negated(LastCoef(pool[p].1, SysReactions(ms, Keys(pool)), c)), 0.0)
  {
    SsigmaPoolAt(ms, pool, p, c);
    SsigmaBasePool(ms, |pool|, p, c);
  }

  /** The coefficient of the last triple naming reaction `rxn` of model `o`, if any. */
  function LastCoefOf(ts: seq<Triple>, o: Organism, rxn: string): Option<real>
  {
    if ts == [] then None
    else
      var n := |ts| - 1;
      if ts[n].model == o && ts[n].rxn == rxn then Some(ts[n].coef) else LastCoefOf(ts[..n], o, rxn)
  }

  /** A resolvable triple sits at the column of reaction j of model b exactly when it names
      that reaction of that model. */
  lemma TripleAtColumn(ms: seq<Organism>, keys: seq<string>, t: Triple, b: nat, j: nat)
    requires LabelsWellFormed(ms, keys) && b < |ms| && j < |ms[b].reactions| && Resolvable(t, ms)
    ensures (TripleLabel(t) in SysReactions(ms, keys) &&
             IndexOf(SysReactions(ms, keys), TripleLabel(t)) == NumReactions(ms[..b]) + j) <==>
            (t.model == ms[b] && t.rxn == ms[b].reactions[j].id)
  {
    var sysrxns := SysReactions(ms, keys);
    var target := Label(ms[b].reactions[j].id, ms[b].id);
    ReactionColumn(ms, keys, b, j);
    if TripleLabel(t) in sysrxns && IndexOf(sysrxns, TripleLabel(t)) == NumReactions(ms[..b]) + j {
      assert TripleLabel(t) == target;
      var b' :| 0 <= b' < |ms| && ms[b'] == t.model;
      var j' :| 0 <= j' < |t.model.reactions| && t.model.reactions[j'].id == t.rxn;
      assert IdsWellFormed(ms[b']) && IdsWellFormed(ms[b]);
      LabelInjective(t.rxn, t.model.id, ms[b].reactions[j].id, ms[b].id);
      assert ms[b'].id == ms[b].id;
      assert b' == b;
    }
  }

  /** Read through the label lookup, the last matching coefficient at the column of reaction
      j of model b is that of the last triple naming that reaction of that model. */
  lemma {:induction false} LastCoefColumn(ms: seq<Organism>, keys: seq<string>, ts: seq<Triple>, b: nat, j: nat)
    requires LabelsWellFormed(ms, keys) && b < |ms| && j < |ms[b].reactions|
    requires forall t :: t in ts ==> Resolvable(t, ms)
    ensures LastCoef(ts, SysReactions(ms, keys), NumReactions(ms[..b]) + j) == LastCoefOf(ts, ms[b], ms[b].reactions[j].id)
  {
    if ts != [] {
      var n := |ts| - 1;
      assert ts[n] in ts;
      assert forall t :: t in ts[..n] ==> t in ts;
      TripleAtColumn(ms, keys, ts[n], b, j);
      LastCoefColumn(ms, keys, ts[..n], b, j);
    }
  }

  /** The coupling by model and reaction: in the column of reaction j of model b, pool row p
      holds minus the coefficient of the last triple of key p naming that reaction of that
      model, and 0 when there is none. */
  lemma SsigmaPoolCouplingAt(ms: seq<Organism>, pool: PoolDict, p: nat, b: nat, j: nat)
    requires SystemWellFormed(ms, pool) && p < |pool| && b < |ms| && j < |ms[b].reactions|
    ensures NumReactions(ms[..b]) + j < NumReactions(ms)
    ensures At(Ssigma(ms, pool), NumMetabolites(ms) + p, NumReactions(ms[..b]) + j) ==
      ValueOr(Negated(LastCoefOf(pool[p].1, ms[b], ms[b].reactions[j].id)), 0.0)
  {
    var c := NumReactions(ms[..b]) + j;
    OrganismReactionAt(ms, Keys(pool), b, j);
    SsigmaPoolCoupling(ms, pool, p, c);
    assert forall t :: t in pool[p].1 ==> Resolvable(t, ms);
    LastCoefColumn(ms, Keys(pool), pool[p].1, b, j);
  }
}
