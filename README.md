# spopt facility-location model builder, in Dafny

This project models `FacilityModelBuilder`, the MILP model builder behind spopt's
facility-location models (set covering, maximal covering, p-center). The builder has two
kinds of static operations:

- **Variable adders** attach decision-variable arrays to a facility model:
  - one 0..1 integer variable per facility;
  - one 0..1 integer variable per client;
  - a client × facility grid of 0..1 integer assignment variables;
  - a continuous weight variable `W` with lower bound 0.
- **Constraint adders** append linear rows to a problem. Each first looks up the arrays it
  needs and raises if one has not been attached. It then appends its rows: a single row
  for the facility count; otherwise one row per client, or one per client and facility
  for the opening rows.

Files:

- `wrappers.dfy` (module `Wrappers`): `Option` and `Outcome`.
- `lp.dfy` (module `Lp`): the linear-problem vocabulary the builder writes in.
  - Variables carry a name, bounds and a category.
  - A row is a list of coefficient/variable terms, a relation (`>=`, `==`, `<=`) and a
    right-hand side that is a constant or a variable.
  - A `Problem` class holds the rows in insertion order.
  - A row's meaning is given by evaluating it under a valuation of the variables (`Eval`,
    `Holds`, `Within`).
- `base.dfy` (module `Base`):
  - the `FacilityModel` class, whose four variable slots are `Option`s that start absent;
  - the pure row functions that say which row each loop iteration builds;
  - the `FacilityModelBuilder` class, whose static methods fill a slot, or run the loops
    and append rows in place.
- `base_properties.dfy` (module `BaseProperties`): for each constraint adder,
  - exactly when it raises an index error;
  - which 0..1 valuations satisfy every row it appends (coverage, exactly p open, exactly
    one assignment per client, no assignment to a closed facility, W bounds every
    assigned cost).

Modelling choices:

- A range argument `range(n)` is modelled by its length `n: nat`. These are the only
  ranges the models build.
- Matrices are sequences of rows of opaque `real` coefficients. No arithmetic is done on
  them except inside the valuation semantics.
- A missing slot is reported as `Fail(VariablesNotSet)` before any row is built, so the
  problem is left unchanged.
- An index past the end of a matrix or variable array raises in the middle of the loop.
  It is reported as `Fail(IndexOutOfRange)`, and the rows of earlier iterations stay in the
  problem (`Completed`). A row's comprehension over an empty facility range indexes
  nothing, so it cannot fail.
- The builder does not guard against being called twice. A second call appends the same
  rows again, and a second variable adder replaces the slot.

The code and its p-center test disagree, and the model follows the code:

- Every constraint adder raises a plain `Exception` with one fixed text, "before setting constraints
  must set facility variable", whichever variable is missing
  (spopt/locate/base.py:76-77, 84-85, 99-100, 109-110, 121-122, 142-143). The model has a
  single error for an unset slot, `VariablesNotSet`, which carries no slot name.
- The test (spopt/tests/test_p_center.py:238-247) expects an `AttributeError` with the text
  "Before setting minimized maximum constraints". It also calls
  `add_minimized_maximum_constraint` with four arguments, leaving out the problem.

## Model

| member | source | states |
|---|---|---|
| `Base.FacilityModelBuilder.AddFacilityIntegerVariable` | spopt/locate/base.py:22-31 | sets the facility slot to exactly one variable per facility index, in range order, each 0..1 integer and named by the template applied to its index; the other slots are unchanged |
| `Base.FacilityModelBuilder.AddClientIntegerVariable` | spopt/locate/base.py:33-42 | sets the client slot to one 0..1 integer variable per client index, in order, named from the index; the other slots are unchanged |
| `Base.FacilityModelBuilder.AddClientAssignIntegerVariable` | spopt/locate/base.py:44-58 | sets the assignment slot to a grid with one row per client and one column per facility, entry [i][j] a 0..1 integer variable named from (i, j); the other slots are unchanged |
| `Base.FacilityModelBuilder.AddWeightContinuousVariable` | spopt/locate/base.py:60-64 | sets the weight slot to one continuous variable "W" with lower bound 0 and no upper bound; the other slots are unchanged |
| `Base.FacilityModelBuilder.AddSetCoveringConstraint` | spopt/locate/base.py:66-77 | without facility variables it fails and leaves the problem unchanged; otherwise it appends the covering rows of the clients in order after the existing rows, stopping at the first row whose indexing fails, and fails exactly when some row does |
| `Base.FacilityModelBuilder.AddFacilityConstraint` | spopt/locate/base.py:79-85 | without facility variables it fails and leaves the problem unchanged; otherwise it appends exactly one equality row over all facility variables with right-hand side p |
| `Base.FacilityModelBuilder.AddMaximalCoverageConstraint` | spopt/locate/base.py:87-100 | fails with the problem unchanged unless both the facility and the client variables are set; otherwise it appends one row per client as for set covering, with the client's variable as right-hand side |
| `Base.FacilityModelBuilder.AddAssignmentConstraint` | spopt/locate/base.py:102-110 | fails with the problem unchanged without the assignment grid; otherwise it appends one "sum of the client's assignment variables == 1" row per client, in order |
| `Base.FacilityModelBuilder.AddOpeningConstraint` | spopt/locate/base.py:112-122 | fails with the problem unchanged unless both the grid and the facility variables are set; otherwise it appends the rows fac[j] - assign[i][j] >= 0 in client-major order, stopping at the first failing pair |
| `Base.FacilityModelBuilder.AddMinimizedMaximumConstraint` | spopt/locate/base.py:124-143 | fails with the problem unchanged unless both the grid and the weight variable are set; otherwise it appends one "assigned cost <= W" row per client, in order |
| `Base.CoveringRow` | spopt/locate/base.py:73-75 | client i's covering row is built exactly when the facility range is empty or the matrix row i and the facility array both reach it; it is `sum_j ni[i][j] * fac[j] >= 1` with one term per facility, in order |
| `Base.FacilityCountRow` | spopt/locate/base.py:83 | the count row has one coefficient-1 term per facility variable, in order, and is an equality with right-hand side p |
| `Base.MaximalCoverageRow` | spopt/locate/base.py:95-98 | client i's row is built exactly when the client array reaches i and, for a non-empty facility range, the matrix row and the facility array reach it; it is `sum_j ni[i][j] * fac[j] >= cli[i]` |
| `Base.AssignmentRow` | spopt/locate/base.py:108 | client i's row is built exactly when the facility range is empty or grid row i reaches it; it is the coefficient-1 sum of that row's assignment variables `== 1` |
| `Base.OpeningRow` | spopt/locate/base.py:120 | the row for (i, j) is built exactly when the facility array reaches j and grid row i exists and reaches j; it is `fac[j] - assign[i][j] >= 0` |
| `Base.MinimizedMaximumRow` | spopt/locate/base.py:133-141 | client i's row is built exactly when the facility range is empty or both grid row i and cost row i reach it; it is `sum_j cost[i][j] * assign[i][j] <= W` |
| `Base.Completed` | spopt/locate/base.py:70-77 | the rows a loop leaves behind are the longest run of present rows from the start: each is the row of that iteration, and the loop ends at the end or at the first failing row |
| `Base.OpeningRows` | spopt/locate/base.py:118-120 | the nested loop yields exactly clients × facilities rows |
| `Base.OpeningRowsAt` | spopt/locate/base.py:118-120 | the row for client i and facility j sits at position i * facilities + j (client-major order) |
| `Lp.BinaryValue` | spopt/locate/base.py:25-27 | a 0..1 integer variable within its bounds takes the value 0 or 1 |
| `Lp.CoverSum` | spopt/locate/base.py:74 | with 0/1 coefficients and values, the covering sum is non-negative and is at least 1 exactly when some covering term is on an open facility |
| `Lp.UnitSum` | spopt/locate/base.py:83 | with 0/1 values, the sum of variables with coefficient 1 equals the number of variables valued 1 |
| `Lp.SelectedSum` | spopt/locate/base.py:133-141 | when exactly one assignment variable is 1 and the rest 0, the weighted sum is the cost of that one assignment |
| `BaseProperties.SetCoveringSucceeds` | spopt/locate/base.py:72-75 | the set-covering loop raises an index error exactly when there are clients, there are facilities, and some client row of the matrix or the facility array is too short |
| `BaseProperties.CoveringRowMeaning` | spopt/locate/base.py:73-75 | one covering row holds exactly when an open facility covers that client |
| `BaseProperties.SetCoveringMeaning` | spopt/locate/base.py:66-77 | on a well-shaped 0/1 matrix it appends one row per client, and they all hold exactly when every client has an open facility that covers it |
| `BaseProperties.FacilityCountMeaning` | spopt/locate/base.py:79-85 | for binary facility variables the count row holds exactly when exactly p facilities are open |
| `BaseProperties.MaximalCoverageSucceeds` | spopt/locate/base.py:94-98 | the maximal-coverage loop raises an index error exactly when the client array, a matrix row or the facility array is too short for the ranges |
| `BaseProperties.MaximalCoverageMeaning` | spopt/locate/base.py:87-100 | one row per client, and they all hold exactly when every client counted as covered has an open facility that covers it |
| `BaseProperties.AssignmentSucceeds` | spopt/locate/base.py:107-108 | the assignment loop raises an index error exactly when there are clients, there are facilities, and some grid row is too short |
| `BaseProperties.AssignmentMeaning` | spopt/locate/base.py:102-110 | one row per client, and they all hold exactly when each client is assigned to exactly one facility |
| `BaseProperties.ClientOpeningPresent` | spopt/locate/base.py:119-120 | one client's opening rows are all built exactly when the facility array and that client's grid row reach the facility range |
| `BaseProperties.OpeningSucceeds` | spopt/locate/base.py:118-120 | the opening loops raise an index error exactly when there are clients, there are facilities, and the grid or the facility array is too short |
| `BaseProperties.OpeningHolds` | spopt/locate/base.py:118-120 | every opening row is present and holds exactly when each assignment value is at most its facility's value |
| `BaseProperties.OpeningMeaning` | spopt/locate/base.py:112-122 | on a well-shaped grid it appends clients × facilities rows, and they all hold exactly when no client is assigned to a facility beyond that facility's opening |
| `BaseProperties.MinimizedMaximumSucceeds` | spopt/locate/base.py:132-141 | the minimised-maximum loop raises an index error exactly when there are clients, there are facilities, and a grid row or a cost row is too short |
| `BaseProperties.MinimizedMaximumMeaning` | spopt/locate/base.py:124-143 | when each client is assigned to exactly one facility, one row per client, and they all hold exactly when W is at least every client's assigned cost |
| `BaseProperties.MinimizedMaximumBeforeVariables` | spopt/tests/test_p_center.py:238-247 | on a fresh model with no variables attached, adding minimised-maximum rows fails with the unset-variable error and adds no row |

## Left out

- Solving: `solve`, the external LP solver, and the extraction of the facility-to-client
  and client-to-facility mappings. The solver is an external engine. Extraction is not in
  spopt/locate/base.py.
- `LocateSolver`: an abstract interface with no behaviour (spopt/locate/base.py:8-11).
- Construction from geodataframes: distances, CRS checks and geometry warnings. These are
  geometry-library calls over floating-point distances.
- The backup covering constraint: the LSCP-B test refers to it, but it is not defined in
  spopt/locate/base.py.
- The model classes (set covering, maximal covering, p-center, covering with backup) that
  compose these operations, with their objectives. They are not part of this model.
- Error message text: one error value stands for the raised `Exception`. The missing slot
  is not named in it, because the source raises the same text, which names the facility
  variable, whichever slot is missing.
- Variable names: a name template applied to an index stays symbolic (`FormatI`,
  `FormatIJ`). The string formatting, and the solver library's rewriting of illegal
  characters in names, are not modelled. So two different indices give two different names
  here even when a template has no placeholder.
- Row normalisation by the solver library: dropping zero-coefficient terms, merging
  repeated variables, moving a right-hand-side variable to the left. Rows are kept as the
  term lists the source writes. Evaluation under a valuation is unaffected.
- Variable identity: the solver library's variables are objects. Here they are values, so
  two variables with the same name, bounds and category are the same.
- Base.FacilityModelBuilder.AddFacilityIntegerVariable: always sets the slot. In the source,
  a name template with a placeholder other than `{i}` (a named `{j}`, or a positional `{}`)
  raises while the list is built, and the slot stays unset. The model assumes the callers'
  fixed templates.
- Base.FacilityModelBuilder.AddClientIntegerVariable: always sets the slot. A template with
  a placeholder other than `{i}` raises in the source and leaves the slot unset. The model
  assumes the callers' fixed templates.
- Base.FacilityModelBuilder.AddClientAssignIntegerVariable: always sets the slot. A template
  with a placeholder other than `{i}` and `{j}` raises in the source and leaves the slot
  unset. The model assumes the callers' fixed templates.
- Ranges other than `range(n)`, and negative indices (which Python would wrap): the
  builder's callers pass `range(n)` only.
- Numeric types: coefficients and costs are exact reals. Floating point and numpy types
  are not modelled.
