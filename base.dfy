/**
 * The MILP model builder of the facility-location models: operations that attach
 * decision-variable arrays to a facility model and append constraint rows to a problem.
 *
 * A range argument `range(n)` is modelled by its length `n`. A coverage or cost matrix
 * is a sequence of rows of opaque coefficients. Indexing out of range raises, as list
 * and array indexing does, in the middle of a loop: every row built before that point
 * stays in the problem.
 */
module Base {
  import opened Wrappers
  import opened Lp

  /** What a builder operation can raise. */
  datatype BuildError =
    | VariablesNotSet   // a variable array the operation reads has not been attached yet
    | IndexOutOfRange   // a range reaches past the end of a matrix or variable array

  /** The variable slots a facility model carries; each is absent until its adder runs. */
  class FacilityModel {
    var facVars: Option<seq<Variable>>
    var cliVars: Option<seq<Variable>>
    var cliAssgnVars: Option<seq<seq<Variable>>>
    var weightVar: Option<Variable>

    constructor ()
      ensures facVars == None && cliVars == None && cliAssgnVars == None && weightVar == None
    {
      facVars, cliVars, cliAssgnVars, weightVar := None, None, None, None;
    }
  }

  // ---------------------------------------------------------------------------
  // Indexing as the loops do it

  /** `[s[j] for j in range(n)]`: the first n entries, or None when s is too short. */
  function Take<T>(s: seq<T>, n: nat): (r: Option<seq<T>>) {
    if n <= |s| then Some(s[..n]) else None
  }

  /**
   * `[m[i][j] for j in range(n)]`: the first n entries of row i, or None when row i
   * or one of its entries is missing. With n == 0 nothing is indexed at all.
   */
  function TakeRow<T>(m: seq<seq<T>>, i: nat, n: nat): (r: Option<seq<T>>) {
    if n == 0 then Some([])
    else if i < |m| && n <= |m[i]| then Some(m[i][..n])
    else None
  }

  /** `s[i]`, or None when i is past the end. */
  function At<T>(s: seq<T>, i: nat): (r: Option<T>) {
    if i < |s| then Some(s[i]) else None
  }

  /** The matrix has at least `rows` rows and each of them at least `cols` entries. */
  predicate Fits<T>(m: seq<seq<T>>, rows: nat, cols: nat) {
    rows <= |m| && forall i :: 0 <= i < rows ==> cols <= |m[i]|
  }

  // ---------------------------------------------------------------------------
  // The rows each constraint adder builds, one Option per loop iteration

  /** Client i must be covered: `sum_j ni[i][j] * fac[j] >= 1`. */
  function CoveringRow(ni: seq<seq<real>>, fac: seq<Variable>, nf: nat, i: nat): (r: Option<Constraint>)
    ensures r.Some? <==> (nf == 0 || (i < |ni| && nf <= |ni[i]| && nf <= |fac|))
    ensures r.Some? ==> r.value.rel == Ge && r.value.rhs == Const(1.0) && |r.value.lhs| == nf
    ensures r.Some? ==> forall j :: 0 <= j < nf ==> r.value.lhs[j] == Term(ni[i][j], fac[j])
  {
    match (TakeRow(ni, i, nf), Take(fac, nf))
    case (Some(c), Some(f)) => Some(Constraint(Weighted(c, f), Ge, Const(1.0)))
    case _ => None
  }

  function SetCoveringRows(ni: seq<seq<real>>, fac: seq<Variable>, nf: nat, nc: nat): (rows: seq<Option<Constraint>>)
    ensures |rows| == nc
  {
    seq(nc, i requires 0 <= i < nc => CoveringRow(ni, fac, nf, i))
  }

  /** Exactly p facilities: `sum_j fac[j] == p`. */
  function FacilityCountRow(fac: seq<Variable>, p: int): (r: Constraint)
    ensures r.rel == Eq && r.rhs == Const(p as real) && |r.lhs| == |fac|
    ensures forall j :: 0 <= j < |fac| ==> r.lhs[j] == Term(1.0, fac[j])
  {
    Constraint(UnitTerms(fac), Eq, Const(p as real))
  }

  /** Client i counts as covered only if covered: `sum_j ni[i][j] * fac[j] >= cli[i]`. */
  function MaximalCoverageRow(ni: seq<seq<real>>, fac: seq<Variable>, cli: seq<Variable>, nf: nat, i: nat)
    : (r: Option<Constraint>)
    ensures r.Some? <==> i < |cli| && (nf == 0 || (i < |ni| && nf <= |ni[i]| && nf <= |fac|))
    ensures r.Some? ==> r.value.rel == Ge && r.value.rhs == Var(cli[i]) && |r.value.lhs| == nf
    ensures r.Some? ==> forall j :: 0 <= j < nf ==> r.value.lhs[j] == Term(ni[i][j], fac[j])
  {
    match (TakeRow(ni, i, nf), Take(fac, nf), At(cli, i))
    case (Some(c), Some(f), Some(d)) => Some(Constraint(Weighted(c, f), Ge, Var(d)))
    case _ => None
  }

  function MaximalCoverageRows(ni: seq<seq<real>>, fac: seq<Variable>, cli: seq<Variable>, nf: nat, nc: nat)
    : (rows: seq<Option<Constraint>>)
    ensures |rows| == nc
  {
    seq(nc, i requires 0 <= i < nc => MaximalCoverageRow(ni, fac, cli, nf, i))
  }

  /** Client i is assigned once: `sum_j assign[i][j] == 1`. */
  function AssignmentRow(assign: seq<seq<Variable>>, nf: nat, i: nat): (r: Option<Constraint>)
    ensures r.Some? <==> (nf == 0 || (i < |assign| && nf <= |assign[i]|))
    ensures r.Some? ==> r.value.rel == Eq && r.value.rhs == Const(1.0) && |r.value.lhs| == nf
    ensures r.Some? ==> forall j :: 0 <= j < nf ==> r.value.lhs[j] == Term(1.0, assign[i][j])
  {
    match TakeRow(assign, i, nf)
    case Some(a) => Some(Constraint(UnitTerms(a), Eq, Const(1.0)))
    case None => None
  }

  function AssignmentRows(assign: seq<seq<Variable>>, nf: nat, nc: nat): (rows: seq<Option<Constraint>>)
    ensures |rows| == nc
  {
    seq(nc, i requires 0 <= i < nc => AssignmentRow(assign, nf, i))
  }

  /** No assignment to a closed facility: `fac[j] - assign[i][j] >= 0`. */
  function OpeningRow(fac: seq<Variable>, assign: seq<seq<Variable>>, i: nat, j: nat): (r: Option<Constraint>)
    ensures r.Some? <==> j < |fac| && i < |assign| && j < |assign[i]|
    ensures r.Some? ==> r.value.rel == Ge && r.value.rhs == Const(0.0) && |r.value.lhs| == 2
    ensures r.Some? ==> r.value.lhs[0] == Term(1.0, fac[j]) && r.value.lhs[1] == Term(-1.0, assign[i][j])
  {
    if j < |fac| && i < |assign| && j < |assign[i]| then
      Some(Constraint([Term(1.0, fac[j]), Term(-1.0, assign[i][j])], Ge, Const(0.0)))
    else None
  }

  /** The opening rows of clients 0..nc-1, client-major. */
  function OpeningRows(fac: seq<Variable>, assign: seq<seq<Variable>>, nf: nat, nc: nat)
    : (rows: seq<Option<Constraint>>)
    ensures |rows| == nc * nf
  {
    if nc == 0 then []
    else
      OpeningRows(fac, assign, nf, nc - 1)
      + seq(nf, j requires 0 <= j < nf => OpeningRow(fac, assign, nc - 1, j))
  }

  /** The assigned cost of client i is at most W: `sum_j assign[i][j] * cost[i][j] <= w`. */
  function MinimizedMaximumRow(assign: seq<seq<Variable>>, cost: seq<seq<real>>, w: Variable, nf: nat, i: nat)
    : (r: Option<Constraint>)
    ensures r.Some? <==> (nf == 0 || (i < |assign| && nf <= |assign[i]| && i < |cost| && nf <= |cost[i]|))
    ensures r.Some? ==> r.value.rel == Le && r.value.rhs == Var(w) && |r.value.lhs| == nf
    ensures r.Some? ==> forall j :: 0 <= j < nf ==> r.value.lhs[j] == Term(cost[i][j], assign[i][j])
  {
    match (TakeRow(assign, i, nf), TakeRow(cost, i, nf))
    case (Some(a), Some(c)) => Some(Constraint(Weighted(c, a), Le, Var(w)))
    case _ => None
  }

  function MinimizedMaximumRows(assign: seq<seq<Variable>>, cost: seq<seq<real>>, w: Variable, nf: nat, nc: nat)
    : (rows: seq<Option<Constraint>>)
    ensures |rows| == nc
  {
    seq(nc, i requires 0 <= i < nc => MinimizedMaximumRow(assign, cost, w, nf, i))
  }

  // ---------------------------------------------------------------------------
  // What a loop that stops at the first failing row leaves behind

  predicate AllPresent(rows: seq<Option<Constraint>>) {
    forall k :: 0 <= k < |rows| ==> rows[k].Some?
  }

  /** The rows appended before the first row whose indexing fails. */
  function Completed(rows: seq<Option<Constraint>>): (done: seq<Constraint>)
    ensures |done| <= |rows|
    ensures forall k :: 0 <= k < |done| ==> rows[k] == Some(done[k])
    ensures |done| == |rows| || rows[|done|].None?
    decreases |rows|
  {
    if rows == [] || rows[0].None? then []
    else [rows[0].value] + Completed(rows[1..])
  }

  /** The outcome of a loop over the rows: it raises exactly when some row fails. */
  function Verdict(rows: seq<Option<Constraint>>): (v: Outcome<BuildError>) {
    if AllPresent(rows) then Pass else Fail(IndexOutOfRange)
  }

  /** Completed is determined by the position m of the first failing row (or the end). */
  lemma CompletedUpTo(rows: seq<Option<Constraint>>, m: nat)
    requires m <= |rows|
    requires forall k :: 0 <= k < m ==> rows[k].Some?
    requires m == |rows| || rows[m].None?
    ensures |Completed(rows)| == m
    ensures forall k :: 0 <= k < m ==> Completed(rows)[k] == rows[k].value
  {
  }

  /** When every row is present, the loop completes all of them. */
  lemma CompletedAll(rows: seq<Option<Constraint>>)
    requires AllPresent(rows)
    ensures |Completed(rows)| == |rows|
    ensures forall k :: 0 <= k < |rows| ==> Completed(rows)[k] == rows[k].value
  {
    CompletedUpTo(rows, |rows|);
  }

  /** One more present row extends what is completed by that row. */
  lemma CompletedExtends(rows: seq<Option<Constraint>>, i: nat)
    requires i < |rows|
    requires forall k :: 0 <= k <= i ==> rows[k].Some?
    ensures Completed(rows[..i + 1]) == Completed(rows[..i]) + [rows[i].value]
  {
    CompletedUpTo(rows[..i + 1], i + 1);
    CompletedUpTo(rows[..i], i);
  }

  /** A failing row i ends the loop with exactly the rows before it. */
  lemma CompletedStops(rows: seq<Option<Constraint>>, i: nat)
    requires i < |rows|
    requires forall k :: 0 <= k < i ==> rows[k].Some?
    requires rows[i].None?
    ensures Completed(rows) == Completed(rows[..i])
    ensures !AllPresent(rows)
  {
    CompletedUpTo(rows, i);
    CompletedUpTo(rows[..i], i);
  }

  /** Row (i, j) of the opening rows sits at position i * nf + j. */
  lemma {:induction false} OpeningRowsAt(fac: seq<Variable>, assign: seq<seq<Variable>>, nf: nat, nc: nat, i: nat, j: nat)
    requires i < nc && j < nf
    ensures i * nf + j < nc * nf
    ensures OpeningRows(fac, assign, nf, nc)[i * nf + j] == OpeningRow(fac, assign, i, j)
  {
    var prefix := OpeningRows(fac, assign, nf, nc - 1);
    assert |prefix| == (nc - 1) * nf;
    if i < nc - 1 {
      OpeningRowsAt(fac, assign, nf, nc - 1, i, j);
    } else {
      assert i * nf + j == |prefix| + j;
    }
  }

  /** Moving on to the next client moves the row position by one block of facilities. */
  lemma NextClient(i: nat, nc: nat, nf: nat)
    requires i < nc
    ensures i * nf + nf == (i + 1) * nf <= nc * nf
  {
  }

  // ---------------------------------------------------------------------------
  // The builder

  /** Static operations that set variables and constraints on a facility model. */
  class FacilityModelBuilder {

    /** One 0..1 integer variable per facility, named by the template applied to its index. */
    static method AddFacilityIntegerVariable(obj: FacilityModel, rangeFacility: nat, varName: string)
      modifies obj
      ensures obj.facVars.Some? && |obj.facVars.value| == rangeFacility
      ensures forall j :: 0 <= j < rangeFacility ==> obj.facVars.value[j] == Binary(FormatI(varName, j))
      ensures obj.cliVars == old(obj.cliVars) && obj.cliAssgnVars == old(obj.cliAssgnVars)
      ensures obj.weightVar == old(obj.weightVar)
    {
      obj.facVars := Some(seq(rangeFacility, j requires 0 <= j < rangeFacility => Binary(FormatI(varName, j))));
    }

    /** One 0..1 integer variable per client, named by the template applied to its index. */
    static method AddClientIntegerVariable(obj: FacilityModel, rangeClient: nat, varName: string)
      modifies obj
      ensures obj.cliVars.Some? && |obj.cliVars.value| == rangeClient
      ensures forall i :: 0 <= i < rangeClient ==> obj.cliVars.value[i] == Binary(FormatI(varName, i))
      ensures obj.facVars == old(obj.facVars) && obj.cliAssgnVars == old(obj.cliAssgnVars)
      ensures obj.weightVar == old(obj.weightVar)
    {
      obj.cliVars := Some(seq(rangeClient, i requires 0 <= i < rangeClient => Binary(FormatI(varName, i))));
    }

    /** A client-by-facility grid of 0..1 integer variables, entry [i][j] named from (i, j). */
    static method AddClientAssignIntegerVariable(obj: FacilityModel, rangeClient: nat, rangeFacility: nat, varName: string)
      modifies obj
      ensures obj.cliAssgnVars.Some? && |obj.cliAssgnVars.value| == rangeClient
      ensures forall i :: 0 <= i < rangeClient ==> |obj.cliAssgnVars.value[i]| == rangeFacility
      ensures forall i, j :: 0 <= i < rangeClient && 0 <= j < rangeFacility ==>
        obj.cliAssgnVars.value[i][j] == Binary(FormatIJ(varName, i, j))
      ensures obj.facVars == old(obj.facVars) && obj.cliVars == old(obj.cliVars)
      ensures obj.weightVar == old(obj.weightVar)
    {
      obj.cliAssgnVars := Some(seq(rangeClient, i requires 0 <= i < rangeClient =>
        seq(rangeFacility, j requires 0 <= j < rangeFacility => Binary(FormatIJ(varName, i, j)))));
    }

    /** A single continuous variable "W" with lower bound 0 and no upper bound. */
    static method AddWeightContinuousVariable(obj: FacilityModel)
      modifies obj
      ensures obj.weightVar == Some(Variable(Plain("W"), 0.0, None, Continuous))
      ensures obj.facVars == old(obj.facVars) && obj.cliVars == old(obj.cliVars)
      ensures obj.cliAssgnVars == old(obj.cliAssgnVars)
    {
      obj.weightVar := Some(Variable(Plain("W"), 0.0, None, Continuous));
    }

    /** For every client, in order, a row requiring it to be covered by an open facility. */
    static method AddSetCoveringConstraint(obj: FacilityModel, model: Problem, ni: seq<seq<real>>, rangeFacility: nat, rangeClient: nat)
      returns (r: Outcome<BuildError>)
      modifies model
      ensures obj.facVars.None? ==> r == Fail(VariablesNotSet) && model.constraints == old(model.constraints)
      ensures obj.facVars.Some? ==>
        var rows := SetCoveringRows(ni, obj.facVars.value, rangeFacility, rangeClient);
        r == Verdict(rows) && model.constraints == old(model.constraints) + Completed(rows)
    {
      if obj.facVars.None? {
        return Fail(VariablesNotSet);
      }
      var facVars := obj.facVars.value;
      ghost var rows := SetCoveringRows(ni, facVars, rangeFacility, rangeClient);
      var i := 0;
      while i < rangeClient
        invariant i <= rangeClient
        invariant forall k :: 0 <= k < i ==> rows[k].Some?
        invariant model.constraints == old(model.constraints) + Completed(rows[..i])
      {
        var row := CoveringRow(ni, facVars, rangeFacility, i);
        if row.None? {
          CompletedStops(rows, i);
          return Fail(IndexOutOfRange);
        }
        CompletedExtends(rows, i);
        model.Add(row.value);
        i := i + 1;
      }
      assert rows[..i] == rows;
      return Pass;
    }

    /** One equality row: the facility variables sum to p. */
    static method AddFacilityConstraint(obj: FacilityModel, model: Problem, pFacilities: int)
      returns (r: Outcome<BuildError>)
      modifies model
      ensures obj.facVars.None? ==> r == Fail(VariablesNotSet) && model.constraints == old(model.constraints)
      ensures obj.facVars.Some? ==>
        r == Pass && model.constraints == old(model.constraints) + [FacilityCountRow(obj.facVars.value, pFacilities)]
    {
      if obj.facVars.None? {
        return Fail(VariablesNotSet);
      }
      model.Add(FacilityCountRow(obj.facVars.value, pFacilities));
      return Pass;
    }

    /** For every client, in order, a row allowing it to count as covered only if it is. */
    static method AddMaximalCoverageConstraint(obj: FacilityModel, model: Problem, ni: seq<seq<real>>, rangeFacility: nat, rangeClient: nat)
      returns (r: Outcome<BuildError>)
      modifies model
      ensures (obj.facVars.None? || obj.cliVars.None?) ==>
        r == Fail(VariablesNotSet) && model.constraints == old(model.constraints)
      ensures obj.facVars.Some? && obj.cliVars.Some? ==>
        var rows := MaximalCoverageRows(ni, obj.facVars.value, obj.cliVars.value, rangeFacility, rangeClient);
        r == Verdict(rows) && model.constraints == old(model.constraints) + Completed(rows)
    {
      if obj.facVars.None? || obj.cliVars.None? {
        return Fail(VariablesNotSet);
      }
      var facVars, demVars := obj.facVars.value, obj.cliVars.value;
      ghost var rows := MaximalCoverageRows(ni, facVars, demVars, rangeFacility, rangeClient);
      var i := 0;
      while i < rangeClient
        invariant i <= rangeClient
        invariant forall k :: 0 <= k < i ==> rows[k].Some?
        invariant model.constraints == old(model.constraints) + Completed(rows[..i])
      {
        var row := MaximalCoverageRow(ni, facVars, demVars, rangeFacility, i);
        if row.None? {
          CompletedStops(rows, i);
          return Fail(IndexOutOfRange);
        }
        CompletedExtends(rows, i);
        model.Add(row.value);
        i := i + 1;
      }
      assert rows[..i] == rows;
      return Pass;
    }

    /** For every client, in order, a row assigning it to exactly one facility. */
    static method AddAssignmentConstraint(obj: FacilityModel, model: Problem, rangeFacility: nat, rangeClient: nat)
      returns (r: Outcome<BuildError>)
      modifies model
      ensures obj.cliAssgnVars.None? ==> r == Fail(VariablesNotSet) && model.constraints == old(model.constraints)
      ensures obj.cliAssgnVars.Some? ==>
        var rows := AssignmentRows(obj.cliAssgnVars.value, rangeFacility, rangeClient);
        r == Verdict(rows) && model.constraints == old(model.constraints) + Completed(rows)
    {
      if obj.cliAssgnVars.None? {
        return Fail(VariablesNotSet);
      }
      var cliAssgnVars := obj.cliAssgnVars.value;
      ghost var rows := AssignmentRows(cliAssgnVars, rangeFacility, rangeClient);
      var i := 0;
      while i < rangeClient
        invariant i <= rangeClient
        invariant forall k :: 0 <= k < i ==> rows[k].Some?
        invariant model.constraints == old(model.constraints) + Completed(rows[..i])
      {
        var row := AssignmentRow(cliAssgnVars, rangeFacility, i);
        if row.None? {
          CompletedStops(rows, i);
          return Fail(IndexOutOfRange);
        }
        CompletedExtends(rows, i);
        model.Add(row.value);
        i := i + 1;
      }
      assert rows[..i] == rows;
      return Pass;
    }

    /** For every client and facility, client-major, a row forbidding assignment to a closed facility. */
    static method AddOpeningConstraint(obj: FacilityModel, model: Problem, rangeFacility: nat, rangeClient: nat)
      returns (r: Outcome<BuildError>)
      modifies model
      ensures (obj.cliAssgnVars.None? || obj.facVars.None?) ==>
        r == Fail(VariablesNotSet) && model.constraints == old(model.constraints)
      ensures obj.cliAssgnVars.Some? && obj.facVars.Some? ==>
        var rows := OpeningRows(obj.facVars.value, obj.cliAssgnVars.value, rangeFacility, rangeClient);
        r == Verdict(rows) && model.constraints == old(model.constraints) + Completed(rows)
    {
      if obj.cliAssgnVars.None? || obj.facVars.None? {
        return Fail(VariablesNotSet);
      }
      var cliAssgnVars, facVars := obj.cliAssgnVars.value, obj.facVars.value;
      ghost var rows := OpeningRows(facVars, cliAssgnVars, rangeFacility, rangeClient);
      ghost var done: nat := 0;  // rows appended so far
      var i := 0;
      while i < rangeClient
        invariant i <= rangeClient
        invariant done == i * rangeFacility && done <= |rows|
        invariant forall k :: 0 <= k < done ==> rows[k].Some?
        invariant model.constraints == old(model.constraints) + Completed(rows[..done])
      {
        ghost var start := done;
        NextClient(i, rangeClient, rangeFacility);
        var j := 0;
        while j < rangeFacility
          invariant j <= rangeFacility
          invariant done == start + j
          invariant forall k :: 0 <= k < done ==> rows[k].Some?
          invariant model.constraints == old(model.constraints) + Completed(rows[..done])
        {
          var row := OpeningRow(facVars, cliAssgnVars, i, j);
          OpeningRowsAt(facVars, cliAssgnVars, rangeFacility, rangeClient, i, j);
          if row.None? {
            CompletedStops(rows, done);
            return Fail(IndexOutOfRange);
          }
          CompletedExtends(rows, done);
          model.Add(row.value);
          j, done := j + 1, done + 1;
        }
        i := i + 1;
      }
      assert rows[..done] == rows;
      return Pass;
    }

    /** For every client, in order, a row bounding its assigned cost by the weight variable. */
    static method AddMinimizedMaximumConstraint(obj: FacilityModel, model: Problem, costMatrix: seq<seq<real>>, rangeFacility: nat, rangeClient: nat)
      returns (r: Outcome<BuildError>)
      modifies model
      ensures (obj.cliAssgnVars.None? || obj.weightVar.None?) ==>
        r == Fail(VariablesNotSet) && model.constraints == old(model.constraints)
      ensures obj.cliAssgnVars.Some? && obj.weightVar.Some? ==>
        var rows := MinimizedMaximumRows(obj.cliAssgnVars.value, costMatrix, obj.weightVar.value, rangeFacility, rangeClient);
        r == Verdict(rows) && model.constraints == old(model.constraints) + Completed(rows)
    {
      if obj.cliAssgnVars.None? || obj.weightVar.None? {
        return Fail(VariablesNotSet);
      }
      var cliAssgnVars, weightVar := obj.cliAssgnVars.value, obj.weightVar.value;
      ghost var rows := MinimizedMaximumRows(cliAssgnVars, costMatrix, weightVar, rangeFacility, rangeClient);
      var i := 0;
      while i < rangeClient
        invariant i <= rangeClient
        invariant forall k :: 0 <= k < i ==> rows[k].Some?
        invariant model.constraints == old(model.constraints) + Completed(rows[..i])
      {
        var row := MinimizedMaximumRow(cliAssgnVars, costMatrix, weightVar, rangeFacility, i);
        if row.None? {
          CompletedStops(rows, i);
          return Fail(IndexOutOfRange);
        }
        CompletedExtends(rows, i);
        model.Add(row.value);
        i := i + 1;
      }
      assert rows[..i] == rows;
      return Pass;
    }
  }
}
