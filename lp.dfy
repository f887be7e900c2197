/**
 * The vocabulary of a mixed-integer linear problem as the model builder uses it:
 * bounded decision variables, linear rows over them, a problem that collects rows,
 * and what it means for a valuation of the variables to satisfy a row.
 * Coefficients are kept as opaque reals; the solver is not part of this model.
 */
module Lp {
  import opened Wrappers

  datatype Category = Integer | Continuous

  /** A variable name: a plain string, or a name template applied to one or two indices. */
  datatype Name =
    | Plain(text: string)
    | FormatI(template: string, i: int)
    | FormatIJ(template: string, i: int, j: int)

  /** A decision variable with a lower bound, an optional upper bound and a category. */
  datatype Variable = Variable(name: Name, low: real, up: Option<real>, cat: Category)

  /** One coefficient-times-variable term of a linear expression. */
  datatype Term = Term(coef: real, v: Variable)

  datatype Relation = Ge | Eq | Le

  /** The right-hand side of a row: a constant or a single variable. */
  datatype Rhs = Const(c: real) | Var(v: Variable)

  /** A linear row `lhs rel rhs`. */
  datatype Constraint = Constraint(lhs: seq<Term>, rel: Relation, rhs: Rhs)

  /** A 0..1 integer variable. */
  function Binary(name: Name): Variable {
    Variable(name, 0.0, Some(1.0), Integer)
  }

  predicate IsBinary(v: Variable) {
    v.low == 0.0 && v.up == Some(1.0) && v.cat == Integer
  }

  /** The sum of the given variables, each with coefficient 1. */
  function UnitTerms(vs: seq<Variable>): seq<Term> {
    seq(|vs|, j requires 0 <= j < |vs| => Term(1.0, vs[j]))
  }

  /** The sum of `coefs[j] * vs[j]` over all j. */
  function Weighted(coefs: seq<real>, vs: seq<Variable>): seq<Term>
    requires |coefs| == |vs|
  {
    seq(|vs|, j requires 0 <= j < |vs| => Term(coefs[j], vs[j]))
  }

  /** A value for every variable, as a solver would report it. */
  type Valuation = Variable -> real

  function Eval(terms: seq<Term>, val: Valuation): real
    decreases |terms|
  {
    if terms == [] then 0.0 else terms[0].coef * val(terms[0].v) + Eval(terms[1..], val)
  }

  function RhsValue(rhs: Rhs, val: Valuation): real {
    match rhs
    case Const(c) => c
    case Var(v) => val(v)
  }

  predicate Holds(c: Constraint, val: Valuation) {
    var l, r := Eval(c.lhs, val), RhsValue(c.rhs, val);
    match c.rel
    case Ge => l >= r
    case Eq => l == r
    case Le => l <= r
  }

  predicate AllHold(cs: seq<Constraint>, val: Valuation) {
    forall k :: 0 <= k < |cs| ==> Holds(cs[k], val)
  }

  /** The valuation respects the variable's bounds and, for an integer variable, integrality. */
  predicate Within(v: Variable, val: Valuation) {
    v.low <= val(v)
    && (v.up.Some? ==> val(v) <= v.up.value)
    && (v.cat == Integer ==> val(v).Floor as real == val(v))
  }

  /** How many of the variables take the value 1. */
  function CountOnes(vs: seq<Variable>, val: Valuation): nat
    decreases |vs|
  {
    if vs == [] then 0 else (if val(vs[0]) == 1.0 then 1 else 0) + CountOnes(vs[1..], val)
  }

  /** A binary variable within its bounds takes the value 0 or 1. */
  lemma BinaryValue(v: Variable, val: Valuation)
    requires IsBinary(v) && Within(v, val)
    ensures val(v) == 0.0 || val(v) == 1.0
  {
  }

  /**
   * With 0/1 coefficients and 0/1 values, a sum of products is non-negative, and it
   * reaches 1 exactly when some term has coefficient 1 on a variable valued 1.
   */
  lemma {:induction false} CoverSum(terms: seq<Term>, val: Valuation)
    requires forall k :: 0 <= k < |terms| ==> terms[k].coef == 0.0 || terms[k].coef == 1.0
    requires forall k :: 0 <= k < |terms| ==> val(terms[k].v) == 0.0 || val(terms[k].v) == 1.0
    ensures Eval(terms, val) >= 0.0
    ensures Eval(terms, val) >= 1.0 <==>
      exists k :: 0 <= k < |terms| && terms[k].coef == 1.0 && val(terms[k].v) == 1.0
  {
    if terms != [] {
      var rest := terms[1..];
      assert forall k :: 0 <= k < |rest| ==> rest[k] == terms[k + 1];
      CoverSum(rest, val);
      if exists k :: 0 <= k < |rest| && rest[k].coef == 1.0 && val(rest[k].v) == 1.0 {
        var k :| 0 <= k < |rest| && rest[k].coef == 1.0 && val(rest[k].v) == 1.0;
        assert terms[k + 1] == rest[k];
      }
      if exists k :: 0 <= k < |terms| && terms[k].coef == 1.0 && val(terms[k].v) == 1.0 {
        var k :| 0 <= k < |terms| && terms[k].coef == 1.0 && val(terms[k].v) == 1.0;
        if k > 0 {
          assert rest[k - 1] == terms[k];
        }
      }
    }
  }

  /** With 0/1 values, the unit-coefficient sum of variables counts those valued 1. */
  lemma {:induction false} UnitSum(vs: seq<Variable>, val: Valuation)
    requires forall k :: 0 <= k < |vs| ==> val(vs[k]) == 0.0 || val(vs[k]) == 1.0
    ensures Eval(UnitTerms(vs), val) == CountOnes(vs, val) as real
  {
    if vs != [] {
      assert UnitTerms(vs)[1..] == UnitTerms(vs[1..]);
      UnitSum(vs[1..], val);
    }
  }

  /**
   * When exactly the variable of term `s` is valued 1 and every other is valued 0,
   * the sum is the coefficient of term `s`.
   */
  lemma {:induction false} SelectedSum(terms: seq<Term>, s: nat, val: Valuation)
    requires s < |terms|
    requires forall k :: 0 <= k < |terms| ==> val(terms[k].v) == if k == s then 1.0 else 0.0
    ensures Eval(terms, val) == terms[s].coef
  {
    var rest := terms[1..];
    if s == 0 {
      ZeroSum(rest, val);
    } else {
      SelectedSum(rest, s - 1, val);
    }
  }

  /** A sum over variables all valued 0 is 0. */
  lemma {:induction false} ZeroSum(terms: seq<Term>, val: Valuation)
    requires forall k :: 0 <= k < |terms| ==> val(terms[k].v) == 0.0
    ensures Eval(terms, val) == 0.0
  {
    if terms != [] {
      ZeroSum(terms[1..], val);
    }
  }

  /** An optimisation problem, as far as the builder touches it: its rows in insertion order. */
  class Problem {
    var constraints: seq<Constraint>

    constructor ()
      ensures constraints == []
    {
      constraints := [];
    }

    /** Appends one row, as `problem += row` does. */
    method Add(c: Constraint)
      modifies this
      ensures constraints == old(constraints) + [c]
    {
      constraints := constraints + [c];
    }
  }
}
