/** The multi-objective LP record `to_vlp` hands to bensolve: the coupled system as its
    constraint matrix and one objective row per organism. */
module Export {
  import opened Wrappers
  import opened Sequences
  import opened Matrices
  import opened Organisms
  import opened Pool
  import opened Assembly

  /** The fields of a bensolve `vlpProblem` that `to_vlp` sets:
      `B` coefficients, `a`/`b` row bounds, `l`/`s` variable bounds, `P` objectives,
      `optDir` (1 min, -1 max) and the cone `Y`, `Z`, `c` (all None: a plain MOLP). */
  datatype Vlp = Vlp(
    filename: Option<string>,
    B: Matrix, a: seq<real>, b: seq<real>, l: seq<real>, s: seq<real>,
    P: Matrix, optDir: int,
    Y: Option<Matrix>, Z: Option<Matrix>, c: Option<seq<real>>)

  /** `opt_dir = -1`: every objective is maximised. */
  const Maximise: int := -1

  function ZeroVector(n: nat): (v: seq<real>)
    ensures |v| == n && forall k :: 0 <= k < n ==> v[k] == 0.0
  {
    seq(n, k => 0.0)
  }

  /** `P[i, k] = coeff` for each objective term of one model, in order. */
  function ObjectiveWrites(row: nat, terms: seq<(string, real)>, modelId: string, sysrxns: seq<string>): (ws: seq<Write>)
    requires forall t :: t in terms ==> Label(t.0, modelId) in sysrxns
    ensures |ws| == |terms|
    ensures forall k :: 0 <= k < |ws| ==> ws[k].row == row && ws[k].col < |sysrxns|
  {
    if terms == [] then []
    else
      var n := |terms| - 1;
      assert forall t :: t in terms[..n] ==> t in terms;
      ObjectiveWrites(row, terms[..n], modelId, sysrxns) + [Write(row, IndexOf(sysrxns, Label(terms[n].0, modelId)), terms[n].1)]
  }

  lemma ObjectiveWritesSnoc(row: nat, terms: seq<(string, real)>, t: (string, real), modelId: string, sysrxns: seq<string>)
    requires forall u :: u in terms + [t] ==> Label(u.0, modelId) in sysrxns
    ensures forall u :: u in terms ==> Label(u.0, modelId) in sysrxns
    ensures ObjectiveWrites(row, terms + [t], modelId, sysrxns) ==
      ObjectiveWrites(row, terms, modelId, sysrxns) + [Write(row, IndexOf(sysrxns, Label(t.0, modelId)), t.1)]
  {
    assert (terms + [t])[..|terms|] == terms;
  }

  /** Every organism reaction has its label among the system reactions. */
  ghost predicate ObjectivesAddressable(ms: seq<Organism>, sysrxns: seq<string>) {
    forall b, j :: 0 <= b < |ms| && 0 <= j < |ms[b].reactions| ==> Label(ms[b].reactions[j].id, ms[b].id) in sysrxns
  }

  lemma ObjectiveTermLabels(rs: seq<Reaction>, modelId: string, sysrxns: seq<string>)
    requires forall j :: 0 <= j < |rs| ==> Label(rs[j].id, modelId) in sysrxns
    ensures forall t :: t in ObjectiveTerms(rs) ==> Label(t.0, modelId) in sysrxns
  {
    ObjectiveTermsSpec(rs);
  }

  /** All writes of the `P` loop: model by model, row i for model i. */
  function PWrites(ms: seq<Organism>, sysrxns: seq<string>): (ws: seq<Write>)
    requires ObjectivesAddressable(ms, sysrxns)
    ensures InBounds(ws, |ms|, |sysrxns|)
  {
    if ms == [] then []
    else
      var n := |ms| - 1;
      ObjectiveTermLabels(ms[n].reactions, ms[n].id, sysrxns);
      assert ObjectivesAddressable(ms[..n], sysrxns) by {
        assert forall b :: 0 <= b < n ==> ms[..n][b] == ms[b];
      }
      PWrites(ms[..n], sysrxns) + ObjectiveWrites(n, ObjectiveTerms(ms[n].reactions), ms[n].id, sysrxns)
  }

  /** One more model contributes its objective row's writes at the end. */
  lemma PWritesSnoc(ms: seq<Organism>, sysrxns: seq<string>, i: nat)
    requires ObjectivesAddressable(ms, sysrxns) && i < |ms|
    ensures ObjectivesAddressable(ms[..i], sysrxns) && ObjectivesAddressable(ms[..i + 1], sysrxns)
    ensures forall t :: t in ObjectiveTerms(ms[i].reactions) ==> Label(t.0, ms[i].id) in sysrxns
    ensures PWrites(ms[..i + 1], sysrxns) ==
      PWrites(ms[..i], sysrxns) + ObjectiveWrites(i, ObjectiveTerms(ms[i].reactions), ms[i].id, sysrxns)
  {
    AddressablePrefix(ms, sysrxns, i);
    AddressablePrefix(ms, sysrxns, i + 1);
    ObjectiveTermLabels(ms[i].reactions, ms[i].id, sysrxns);
    assert ms[..i + 1][..i] == ms[..i];
    assert ms[..i + 1][i] == ms[i];
  }

  lemma AddressablePrefix(ms: seq<Organism>, sysrxns: seq<string>, n: nat)
    requires ObjectivesAddressable(ms, sysrxns) && n <= |ms|
    ensures ObjectivesAddressable(ms[..n], sysrxns)
  {
    assert forall b :: 0 <= b < n ==> ms[..n][b] == ms[b];
  }

  lemma SysObjectivesAddressable(ms: seq<Organism>, keys: seq<string>)
    ensures ObjectivesAddressable(ms, SysReactions(ms, keys))
  {
    forall b, j | 0 <= b < |ms| && 0 <= j < |ms[b].reactions|
      ensures Label(ms[b].reactions[j].id, ms[b].id) in SysReactions(ms, keys)
    {
      OrganismReactionAt(ms, keys, b, j);
    }
  }

  /** `P`: a `q × n` zero matrix with the objective terms written in. */
  function ObjectiveMatrix(ms: seq<Organism>, keys: seq<string>): (m: Matrix)
    ensures Valid(m) && m.rows == |ms| && m.cols == |SysReactions(ms, keys)|
  {
    SysObjectivesAddressable(ms, keys);
    ApplyWrites(Zeros(|ms|, |SysReactions(ms, keys)|), PWrites(ms, SysReactions(ms, keys)))
  }

  /** Reaction j of a model sits at column `off + j`. */
  ghost predicate ColumnsFrom(rs: seq<Reaction>, modelId: string, sysrxns: seq<string>, off: nat) {
    forall j :: 0 <= j < |rs| ==> Label(rs[j].id, modelId) in sysrxns && IndexOf(sysrxns, Label(rs[j].id, modelId)) == off + j
  }

  lemma ColumnsPrefix(rs: seq<Reaction>, modelId: string, sysrxns: seq<string>, off: nat, n: nat)
    requires ColumnsFrom(rs, modelId, sysrxns, off) && n <= |rs|
    ensures ColumnsFrom(rs[..n], modelId, sysrxns, off)
  {
    assert forall j :: 0 <= j < n ==> rs[..n][j] == rs[j];
  }

  /** Within one model's objective writes, the cell at the column of reaction j holds its
      coefficient when it is nonzero, and nothing else is written. */
  lemma {:induction false} ObjectiveWritesLast(row: nat, rs: seq<Reaction>, modelId: string, sysrxns: seq<string>, off: nat, r: nat, c: nat)
    requires ColumnsFrom(rs, modelId, sysrxns, off)
    requires forall t :: t in ObjectiveTerms(rs) ==> Label(t.0, modelId) in sysrxns
    ensures LastWrite(ObjectiveWrites(row, ObjectiveTerms(rs), modelId, sysrxns), r, c) ==
      if r == row && off <= c < off + |rs| && rs[c - off].objectiveCoefficient != 0.0
      then Some(rs[c - off].objectiveCoefficient) else None
  {
    if rs != [] {
      var n := |rs| - 1;
      var front := rs[..n];
      ColumnsPrefix(rs, modelId, sysrxns, off, n);
      var ts := ObjectiveTerms(front);
      ObjectiveTermLabels(front, modelId, sysrxns);
      ObjectiveWritesLast(row, front, modelId, sysrxns, off, r, c);
      var fs := ObjectiveWrites(row, ts, modelId, sysrxns);
      var x := rs[n];
      ObjectiveTermsLast(rs);
      if x.objectiveCoefficient != 0.0 {
        var t := (x.id, x.objectiveCoefficient);
        ObjectiveWritesSnoc(row, ts, t, modelId, sysrxns);
        assert IndexOf(sysrxns, Label(t.0, modelId)) == off + n;
        var w := Write(row, off + n, x.objectiveCoefficient);
        LastWriteAppend(fs, [w], r, c);
        assert LastWrite([w], r, c) == if r == row && c == off + n then Some(x.objectiveCoefficient) else None;
      }
      if off <= c < off + n {
        assert rs[c - off] == front[c - off];
      }
    }
  }

  /** Row i of `P` is written by model i's objective terms only. */
  lemma {:induction false} PWritesLast(ms: seq<Organism>, sysrxns: seq<string>, i: nat, c: nat)
    requires ObjectivesAddressable(ms, sysrxns) && i < |ms|
    requires forall t :: t in ObjectiveTerms(ms[i].reactions) ==> Label(t.0, ms[i].id) in sysrxns
    ensures LastWrite(PWrites(ms, sysrxns), i, c) ==
      LastWrite(ObjectiveWrites(i, ObjectiveTerms(ms[i].reactions), ms[i].id, sysrxns), i, c)
  {
    var n := |ms| - 1;
    var front := ms[..n];
    AddressablePrefix(ms, sysrxns, n);
    ObjectiveTermLabels(ms[n].reactions, ms[n].id, sysrxns);
    var fs := PWrites(front, sysrxns);
    var os := ObjectiveWrites(n, ObjectiveTerms(ms[n].reactions), ms[n].id, sysrxns);
    assert PWrites(ms, sysrxns) == fs + os;
    LastWriteAppend(fs, os, i, c);
    if i < n {
      LastWriteUntouched(os, i, c);
      PWritesLast(front, sysrxns, i, c);
      assert front[i] == ms[i];
    } else {
      LastWriteUntouched(fs, i, c);
    }
  }

  /** `P[i, k] = coeff` exactly at model i's objective reactions, in its own block of columns,
      and 0 everywhere else. */
  lemma ObjectiveMatrixAt(ms: seq<Organism>, keys: seq<string>, i: nat, c: nat)
    requires LabelsWellFormed(ms, keys) && i < |ms| && c < |SysReactions(ms, keys)|
    ensures At(ObjectiveMatrix(ms, keys), i, c) ==
      if NumReactions(ms[..i]) <= c < NumReactions(ms[..i]) + |ms[i].reactions|
      then ms[i].reactions[c - NumReactions(ms[..i])].objectiveCoefficient else 0.0
  {
    var sysrxns := SysReactions(ms, keys);
    var rs := ms[i].reactions;
    SysObjectivesAddressable(ms, keys);
    forall j | 0 <= j < |rs|
      ensures Label(rs[j].id, ms[i].id) in sysrxns && IndexOf(sysrxns, Label(rs[j].id, ms[i].id)) == NumReactions(ms[..i]) + j
    {
      ReactionColumn(ms, keys, i, j);
    }
    ObjectiveTermLabels(rs, ms[i].id, sysrxns);
    ObjectiveWritesLast(i, rs, ms[i].id, sysrxns, NumReactions(ms[..i]), i, c);
    PWritesLast(ms, sysrxns, i, c);
    ApplyWritesAt(Zeros(|ms|, |sysrxns|), PWrites(ms, sysrxns), i, c);
  }
}
