/**
 * What the rows appended by each constraint adder mean: when the adder raises, and which
 * valuations of the decision variables satisfy every row it appends.
 */
module BaseProperties {
  import opened Wrappers
  import opened Lp
  import opened Base

  /** Every row is present and holds. */
  predicate RowsHold(rows: seq<Option<Constraint>>, val: Valuation) {
    forall k :: 0 <= k < |rows| ==> rows[k].Some? && Holds(rows[k].value, val)
  }

  /** With every row present, the appended rows all hold exactly when every row holds. */
  lemma CompletedHold(rows: seq<Option<Constraint>>, val: Valuation)
    requires AllPresent(rows)
    ensures |Completed(rows)| == |rows|
    ensures AllHold(Completed(rows), val) <==> RowsHold(rows, val)
  {
    CompletedAll(rows);
  }

  /** Variables of an attached array that are binary and within bounds take 0 or 1. */
  lemma BinaryValues(vs: seq<Variable>, n: nat, val: Valuation)
    requires n <= |vs|
    requires forall j :: 0 <= j < n ==> IsBinary(vs[j]) && Within(vs[j], val)
    ensures forall j :: 0 <= j < n ==> val(vs[j]) == 0.0 || val(vs[j]) == 1.0
  {
    forall j | 0 <= j < n
      ensures val(vs[j]) == 0.0 || val(vs[j]) == 1.0
    {
      BinaryValue(vs[j], val);
    }
  }

  // ---------------------------------------------------------------------------
  // Set covering

  /** The set-covering loop raises exactly when a client row or the facility array is too short. */
  lemma SetCoveringSucceeds(ni: seq<seq<real>>, fac: seq<Variable>, nf: nat, nc: nat)
    ensures AllPresent(SetCoveringRows(ni, fac, nf, nc)) <==>
      (nc == 0 || nf == 0 || (Fits(ni, nc, nf) && nf <= |fac|))
  {
    var rows := SetCoveringRows(ni, fac, nf, nc);
    if AllPresent(rows) && nc > 0 && nf > 0 {
      assert rows[nc - 1].Some?;
      forall i | 0 <= i < nc
        ensures nf <= |ni[i]|
      {
        assert rows[i].Some?;
      }
    }
  }

  /** Row i holds exactly when some facility that covers client i is open. */
  lemma CoveringRowMeaning(ni: seq<seq<real>>, fac: seq<Variable>, nf: nat, i: nat, val: Valuation)
    requires nf == 0 || (i < |ni| && nf <= |ni[i]|)
    requires nf <= |fac|
    requires forall j :: 0 <= j < nf ==> ni[i][j] == 0.0 || ni[i][j] == 1.0
    requires forall j :: 0 <= j < nf ==> val(fac[j]) == 0.0 || val(fac[j]) == 1.0
    ensures CoveringRow(ni, fac, nf, i).Some?
    ensures Holds(CoveringRow(ni, fac, nf, i).value, val) <==>
      exists j :: 0 <= j < nf && ni[i][j] == 1.0 && val(fac[j]) == 1.0
  {
    var terms := CoveringRow(ni, fac, nf, i).value.lhs;
    CoverSum(terms, val);
    if exists k :: 0 <= k < |terms| && terms[k].coef == 1.0 && val(terms[k].v) == 1.0 {
      var k :| 0 <= k < |terms| && terms[k].coef == 1.0 && val(terms[k].v) == 1.0;
      assert ni[i][k] == 1.0 && val(fac[k]) == 1.0;
    }
    if exists j :: 0 <= j < nf && ni[i][j] == 1.0 && val(fac[j]) == 1.0 {
      var j :| 0 <= j < nf && ni[i][j] == 1.0 && val(fac[j]) == 1.0;
      assert terms[j].coef == 1.0 && val(terms[j].v) == 1.0;
    }
  }

  /**
   * With a 0/1 coverage matrix and binary facility variables, every set-covering row holds
   * exactly when each client has an open facility that covers it; one row per client.
   */
  lemma SetCoveringMeaning(ni: seq<seq<real>>, fac: seq<Variable>, nf: nat, nc: nat, val: Valuation)
    requires nf == 0 || Fits(ni, nc, nf)
    requires nf <= |fac|
    requires forall i, j :: 0 <= i < nc && 0 <= j < nf ==> ni[i][j] == 0.0 || ni[i][j] == 1.0
    requires forall j :: 0 <= j < nf ==> IsBinary(fac[j]) && Within(fac[j], val)
    ensures AllPresent(SetCoveringRows(ni, fac, nf, nc))
    ensures |Completed(SetCoveringRows(ni, fac, nf, nc))| == nc
    ensures AllHold(Completed(SetCoveringRows(ni, fac, nf, nc)), val) <==>
      forall i :: 0 <= i < nc ==> exists j :: 0 <= j < nf && ni[i][j] == 1.0 && val(fac[j]) == 1.0
  {
    var rows := SetCoveringRows(ni, fac, nf, nc);
    BinaryValues(fac, nf, val);
    forall i | 0 <= i < nc
      ensures rows[i].Some?
      ensures Holds(rows[i].value, val) <==> exists j :: 0 <= j < nf && ni[i][j] == 1.0 && val(fac[j]) == 1.0
    {
      CoveringRowMeaning(ni, fac, nf, i, val);
    }
    CompletedHold(rows, val);
  }

  // ---------------------------------------------------------------------------
  // Facility count

  /** With binary facility variables, the count row holds exactly when p facilities are open. */
  lemma FacilityCountMeaning(fac: seq<Variable>, p: int, val: Valuation)
    requires forall j :: 0 <= j < |fac| ==> IsBinary(fac[j]) && Within(fac[j], val)
    ensures Holds(FacilityCountRow(fac, p), val) <==> CountOnes(fac, val) == p
  {
    BinaryValues(fac, |fac|, val);
    UnitSum(fac, val);
  }

  // ---------------------------------------------------------------------------
  // Maximal coverage

  /** The maximal-coverage loop raises exactly when a client row, the facility or the client array is too short. */
  lemma MaximalCoverageSucceeds(ni: seq<seq<real>>, fac: seq<Variable>, cli: seq<Variable>, nf: nat, nc: nat)
    ensures AllPresent(MaximalCoverageRows(ni, fac, cli, nf, nc)) <==>
      (nc == 0 || (nc <= |cli| && (nf == 0 || (Fits(ni, nc, nf) && nf <= |fac|))))
  {
    var rows := MaximalCoverageRows(ni, fac, cli, nf, nc);
    if AllPresent(rows) && nc > 0 {
      assert rows[nc - 1].Some?;
      forall i | 0 <= i < nc
        ensures nf == 0 || nf <= |ni[i]|
      {
        assert rows[i].Some?;
      }
    }
  }

  /**
   * With a 0/1 coverage matrix and binary variables, every maximal-coverage row holds exactly
   * when each client counted as covered has an open facility that covers it.
   */
  lemma MaximalCoverageMeaning(ni: seq<seq<real>>, fac: seq<Variable>, cli: seq<Variable>, nf: nat, nc: nat, val: Valuation)
    requires nf == 0 || Fits(ni, nc, nf)
    requires nf <= |fac| && nc <= |cli|
    requires forall i, j :: 0 <= i < nc && 0 <= j < nf ==> ni[i][j] == 0.0 || ni[i][j] == 1.0
    requires forall j :: 0 <= j < nf ==> IsBinary(fac[j]) && Within(fac[j], val)
    requires forall i :: 0 <= i < nc ==> IsBinary(cli[i]) && Within(cli[i], val)
    ensures AllPresent(MaximalCoverageRows(ni, fac, cli, nf, nc))
    ensures |Completed(MaximalCoverageRows(ni, fac, cli, nf, nc))| == nc
    ensures AllHold(Completed(MaximalCoverageRows(ni, fac, cli, nf, nc)), val) <==>
      forall i :: 0 <= i < nc && val(cli[i]) == 1.0 ==>
        exists j :: 0 <= j < nf && ni[i][j] == 1.0 && val(fac[j]) == 1.0
  {
    var rows := MaximalCoverageRows(ni, fac, cli, nf, nc);
    BinaryValues(fac, nf, val);
    BinaryValues(cli, nc, val);
    forall i | 0 <= i < nc
      ensures rows[i].Some?
      ensures Holds(rows[i].value, val) <==>
        (val(cli[i]) == 1.0 ==> exists j :: 0 <= j < nf && ni[i][j] == 1.0 && val(fac[j]) == 1.0)
    {
      CoveringRowMeaning(ni, fac, nf, i, val);
      var terms := CoveringRow(ni, fac, nf, i).value.lhs;
      CoverSum(terms, val);
      assert rows[i] == Some(Constraint(terms, Ge, Var(cli[i])));
    }
    CompletedHold(rows, val);
  }

  // ---------------------------------------------------------------------------
  // Assignment

  /** The assignment loop raises exactly when a client row of the assignment grid is too short. */
  lemma AssignmentSucceeds(assign: seq<seq<Variable>>, nf: nat, nc: nat)
    ensures AllPresent(AssignmentRows(assign, nf, nc)) <==> (nc == 0 || nf == 0 || Fits(assign, nc, nf))
  {
    var rows := AssignmentRows(assign, nf, nc);
    if AllPresent(rows) && nc > 0 && nf > 0 {
      assert rows[nc - 1].Some?;
      forall i | 0 <= i < nc
        ensures nf <= |assign[i]|
      {
        assert rows[i].Some?;
      }
    }
  }

  /**
   * With binary assignment variables, every assignment row holds exactly when each client is
   * assigned to exactly one facility.
   */
  lemma AssignmentMeaning(assign: seq<seq<Variable>>, nf: nat, nc: nat, val: Valuation)
    requires Fits(assign, nc, nf)
    requires forall i, j :: 0 <= i < nc && 0 <= j < nf ==> IsBinary(assign[i][j]) && Within(assign[i][j], val)
    ensures AllPresent(AssignmentRows(assign, nf, nc))
    ensures |Completed(AssignmentRows(assign, nf, nc))| == nc
    ensures AllHold(Completed(AssignmentRows(assign, nf, nc)), val) <==>
      forall i :: 0 <= i < nc ==> CountOnes(assign[i][..nf], val) == 1
  {
    var rows := AssignmentRows(assign, nf, nc);
    forall i | 0 <= i < nc
      ensures rows[i].Some?
      ensures Holds(rows[i].value, val) <==> CountOnes(assign[i][..nf], val) == 1
    {
      var a := assign[i][..nf];
      assert TakeRow(assign, i, nf) == Some(a);
      BinaryValues(a, nf, val);
      UnitSum(a, val);
    }
    CompletedHold(rows, val);
  }

  // ---------------------------------------------------------------------------
  // Opening

  /** The opening rows of one client are all present exactly when both arrays reach that far. */
  lemma ClientOpeningPresent(fac: seq<Variable>, assign: seq<seq<Variable>>, nf: nat, i: nat)
    ensures var block := seq(nf, j requires 0 <= j < nf => OpeningRow(fac, assign, i, j));
      AllPresent(block) <==> (nf == 0 || (nf <= |fac| && i < |assign| && nf <= |assign[i]|))
  {
    var block := seq(nf, j requires 0 <= j < nf => OpeningRow(fac, assign, i, j));
    if AllPresent(block) && nf > 0 {
      assert block[nf - 1].Some?;
    }
  }

  /** The opening loop raises exactly when a client row of the grid or the facility array is too short. */
  lemma {:induction false} OpeningSucceeds(fac: seq<Variable>, assign: seq<seq<Variable>>, nf: nat, nc: nat)
    ensures AllPresent(OpeningRows(fac, assign, nf, nc)) <==>
      (nc == 0 || nf == 0 || (Fits(assign, nc, nf) && nf <= |fac|))
  {
    if nc > 0 {
      var prefix := OpeningRows(fac, assign, nf, nc - 1);
      var block := seq(nf, j requires 0 <= j < nf => OpeningRow(fac, assign, nc - 1, j));
      var rows := OpeningRows(fac, assign, nf, nc);
      assert rows == prefix + block;
      OpeningSucceeds(fac, assign, nf, nc - 1);
      ClientOpeningPresent(fac, assign, nf, nc - 1);
      assert AllPresent(rows) <==> AllPresent(prefix) && AllPresent(block) by {
        if AllPresent(prefix) && AllPresent(block) {
          forall k | 0 <= k < |rows| ensures rows[k].Some? {
            if k >= |prefix| {
              assert rows[k] == block[k - |prefix|];
            }
          }
        }
        if AllPresent(rows) {
          forall k | 0 <= k < |block| ensures block[k].Some? {
            assert rows[|prefix| + k] == block[k];
          }
          forall k | 0 <= k < |prefix| ensures prefix[k].Some? {
            assert rows[k] == prefix[k];
          }
        }
      }
    }
  }

  /** Every opening row holds exactly when no client is assigned more than its facility is open. */
  lemma {:induction false} OpeningHolds(fac: seq<Variable>, assign: seq<seq<Variable>>, nf: nat, nc: nat, val: Valuation)
    requires Fits(assign, nc, nf) && nf <= |fac|
    ensures RowsHold(OpeningRows(fac, assign, nf, nc), val) <==>
      forall i, j :: 0 <= i < nc && 0 <= j < nf ==> val(assign[i][j]) <= val(fac[j])
  {
    if nc > 0 {
      var prefix := OpeningRows(fac, assign, nf, nc - 1);
      var block := seq(nf, j requires 0 <= j < nf => OpeningRow(fac, assign, nc - 1, j));
      var rows := OpeningRows(fac, assign, nf, nc);
      assert rows == prefix + block;
      OpeningHolds(fac, assign, nf, nc - 1, val);
      forall j | 0 <= j < nf
        ensures block[j].Some?
        ensures Holds(block[j].value, val) <==> val(assign[nc - 1][j]) <= val(fac[j])
      {
        var terms := [Term(1.0, fac[j]), Term(-1.0, assign[nc - 1][j])];
        assert block[j] == Some(Constraint(terms, Ge, Const(0.0)));
        assert Eval(terms[1..], val) == -1.0 * val(assign[nc - 1][j]) + Eval(terms[2..], val);
      }
      assert RowsHold(rows, val) <==> RowsHold(prefix, val) && RowsHold(block, val) by {
        if RowsHold(prefix, val) && RowsHold(block, val) {
          forall k | 0 <= k < |rows| ensures rows[k].Some? && Holds(rows[k].value, val) {
            if k >= |prefix| {
              assert rows[k] == block[k - |prefix|];
            }
          }
        }
        if RowsHold(rows, val) {
          forall k | 0 <= k < |block| ensures block[k].Some? && Holds(block[k].value, val) {
            assert rows[|prefix| + k] == block[k];
          }
          forall k | 0 <= k < |prefix| ensures prefix[k].Some? && Holds(prefix[k].value, val) {
            assert rows[k] == prefix[k];
          }
        }
      }
    }
  }

  /**
   * Given the grid and the facility array, the opening loop appends one row per
   * client/facility pair, and they all hold exactly when every assignment is bounded by the
   * facility's opening; for binary variables: no client is assigned to a closed facility.
   */
  lemma OpeningMeaning(fac: seq<Variable>, assign: seq<seq<Variable>>, nf: nat, nc: nat, val: Valuation)
    requires Fits(assign, nc, nf) && nf <= |fac|
    ensures AllPresent(OpeningRows(fac, assign, nf, nc))
    ensures |Completed(OpeningRows(fac, assign, nf, nc))| == nc * nf
    ensures AllHold(Completed(OpeningRows(fac, assign, nf, nc)), val) <==>
      forall i, j :: 0 <= i < nc && 0 <= j < nf ==> val(assign[i][j]) <= val(fac[j])
  {
    OpeningSucceeds(fac, assign, nf, nc);
    OpeningHolds(fac, assign, nf, nc, val);
    CompletedHold(OpeningRows(fac, assign, nf, nc), val);
  }

  // ---------------------------------------------------------------------------
  // Minimised maximum

  /** The minimised-maximum loop raises exactly when a client row of the grid or of the cost matrix is too short. */
  lemma MinimizedMaximumSucceeds(assign: seq<seq<Variable>>, cost: seq<seq<real>>, w: Variable, nf: nat, nc: nat)
    ensures AllPresent(MinimizedMaximumRows(assign, cost, w, nf, nc)) <==>
      (nc == 0 || nf == 0 || (Fits(assign, nc, nf) && Fits(cost, nc, nf)))
  {
    var rows := MinimizedMaximumRows(assign, cost, w, nf, nc);
    if AllPresent(rows) && nc > 0 && nf > 0 {
      assert rows[nc - 1].Some?;
      forall i | 0 <= i < nc
        ensures nf <= |assign[i]| && nf <= |cost[i]|
      {
        assert rows[i].Some?;
      }
    }
  }

  /**
   * When each client i is assigned to exactly the facility sel[i], every minimised-maximum row
   * holds exactly when the weight variable bounds every client's assigned cost: W is at least
   * the largest assigned cost.
   */
  lemma MinimizedMaximumMeaning(assign: seq<seq<Variable>>, cost: seq<seq<real>>, w: Variable, nf: nat, nc: nat,
                                sel: seq<nat>, val: Valuation)
    requires Fits(assign, nc, nf) && Fits(cost, nc, nf) && |sel| == nc
    requires forall i :: 0 <= i < nc ==> sel[i] < nf
    requires forall i, j :: 0 <= i < nc && 0 <= j < nf ==> val(assign[i][j]) == if j == sel[i] then 1.0 else 0.0
    ensures AllPresent(MinimizedMaximumRows(assign, cost, w, nf, nc))
    ensures |Completed(MinimizedMaximumRows(assign, cost, w, nf, nc))| == nc
    ensures AllHold(Completed(MinimizedMaximumRows(assign, cost, w, nf, nc)), val) <==>
      forall i :: 0 <= i < nc ==> cost[i][sel[i]] <= val(w)
  {
    var rows := MinimizedMaximumRows(assign, cost, w, nf, nc);
    forall i | 0 <= i < nc
      ensures rows[i].Some?
      ensures Holds(rows[i].value, val) <==> cost[i][sel[i]] <= val(w)
    {
      var terms := Weighted(cost[i][..nf], assign[i][..nf]);
      assert rows[i] == Some(Constraint(terms, Le, Var(w)));
      SelectedSum(terms, sel[i], val);
    }
    CompletedHold(rows, val);
  }

  // ---------------------------------------------------------------------------
  // Ordering

  /**
   * Adding the minimised-maximum rows to a fresh p-center model, before any variable array
   * is attached, raises and leaves the problem empty, even with an empty cost matrix and a
   * range of one client and one facility.
   */
  method MinimizedMaximumBeforeVariables() returns (r: Outcome<BuildError>, rowCount: nat)
    ensures r == Fail(VariablesNotSet)
    ensures rowCount == 0
  {
    var obj := new FacilityModel();
    var model := new Problem();
    r := FacilityModelBuilder.AddMinimizedMaximumConstraint(obj, model, [], 1, 1);
    rowCount := |model.constraints|;
  }
}
