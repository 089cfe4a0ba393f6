# Debt-structure optimiser, modelled in Dafny

This project models the core of `src/debt_model.py`, a small tool that
recommends how much of each kind of debt (senior, mezzanine, ...) a company
can carry, given projected cash flows and one interest rate per debt type.
The tool has three parts:

- **Coverage simulator** (`simulate_debt_service`). For a debt amount and a
  type, it divides every period's cash flow by the interest payment
  (`amount * rate`) and keeps the smallest ratio: the worst-period interest
  coverage.
- **Max-min objective** (the `objective` closure inside `optimize_debt`). It
  computes one coverage per position of a candidate vector and returns the
  negated smallest of them, so that minimising it maximises the worst
  coverage.
- **Optimiser and entry point** (`optimize_debt`, `recommend_debt_structure`).
  The optimiser starts the search at 1,000,000 per type, with each amount
  bounded below by 0 and unbounded above. It then zips the solver's vector
  with the debt types into a dictionary. The entry point optimises over every
  key of the rate table, in insertion order.

The model is pure: datatypes and functions in module `DebtOptimization`
(`debt_model.dfy`), plus `Option`/`Result` in module `Results`
(`results.dfy`). Arithmetic is over `real`. Each exception the program can
raise is a value of the `Error` datatype:

- `KeyError` is the rate lookup of an unknown type.
- `EmptyCashFlows` is the `ValueError` from `np.min` over an empty
  cash-flow array.
- `NoCoverageRatios` is the `ValueError` raised for an empty list of debt
  types (see "## Left out" for where it comes from).
- `IndexError` is a candidate vector longer than the type list.

The numerical solver is a parameter: any function `minimize: Problem ->
seq<real>` that returns one amount per debt type. The `Problem` carries what
the program hands to the solver: the closure's model and types, the initial
guess, the bounds and the method name.

A caller might expect a search that does not converge to be reported. The
code never looks at `result.success` and returns `result.x` whatever
happened, so the model follows the code. `OptimizeDebt` has no such error,
and a failure can only come from evaluating the objective. For a non-empty
type list, the solver evaluates the objective at the initial guess before
anything else, so an unknown type or an empty cash-flow series raises there.
`OptimizeDebt` models that evaluation explicitly.

## What the proofs show

With positive cash flows and positive rates, the max-min objective has no
minimiser at positive debt. Shrinking every amount by a factor `0 < k < 1`
keeps the point inside the bounds and strictly lowers the objective
(`ObjectiveImprovesAsDebtShrinks`, built on `ObjectiveScaling`: scaling the
debt by `k` divides the objective by `k`). The search is therefore always
drawn towards the zero lower bound, where the interest payment vanishes and
numpy divides by zero. The recommended structure is whatever point the solver
stops at on the way, not an optimum of the stated objective. The model does
not cover the zero point itself (see "## Left out").

## Model

| member | source | states |
|---|---|---|
| DebtOptimization.Min | src/debt_model.py:27 | the minimum is at most every element of the series and equals one of them |
| DebtOptimization.SimulateDebtService | src/debt_model.py:17-27 | succeeds exactly when the type has a rate and there is at least one cash flow; an unknown type raises KeyError (the lookup comes first); a known type over an empty series raises the empty-minimum error |
| DebtOptimization.SimulateIsWorstPeriod | src/debt_model.py:25-27 | the coverage is at most every period's cash flow divided by `amount * rate`, and equals that ratio for some period |
| DebtOptimization.SimulateClosedForm | src/debt_model.py:25-27 | with a positive interest payment, the coverage is `min(cash flows) / (amount * rate)` |
| DebtOptimization.SimulateScaling | src/debt_model.py:25-27 | multiplying the debt by `k > 0` leaves success unchanged and divides the coverage by `k` |
| DebtOptimization.SimulateMonotoneInDebt | src/debt_model.py:25-27 | with non-negative cash flows and a positive rate, more debt never raises the coverage, and the coverage stays non-negative |
| DebtOptimization.SimulatePositive | src/debt_model.py:25-27 | with positive cash flows and a positive payment, the coverage is positive |
| DebtOptimization.CoverageRatios | src/debt_model.py:40 | the list comprehension succeeds exactly when no position raises; each value is that position's simulated coverage; otherwise the error is the one raised by the first position that raises (IndexError past the end of the types) |
| DebtOptimization.Objective | src/debt_model.py:36-42 | succeeds exactly for a non-empty candidate no longer than the type list, with known types and non-empty cash flows; an empty candidate raises the empty-minimum error; on failure the error is the first position's that raises; on success the value is `>= -coverage(i)` for every position and equals `-coverage(i)` for one position |
| DebtOptimization.ObjectiveLocal | src/debt_model.py:36-42 | two candidates of the same length whose positions simulate alike have the same objective: it depends on a candidate only through its per-position coverages |
| DebtOptimization.ObjectiveFailureIndependent | src/debt_model.py:36-42 | whether the objective fails, and with which error, depends only on the candidate's length and not on the amounts |
| DebtOptimization.ObjectiveScaling | src/debt_model.py:36-42 | multiplying every amount by `k > 0` leaves success unchanged and divides the objective by `k` |
| DebtOptimization.ObjectiveImprovesAsDebtShrinks | src/debt_model.py:36-46 | with positive cash flows, rates and amounts, shrinking every amount by `0 < k < 1` keeps the point positive (inside the bounds) and strictly lowers the objective (see "What the proofs show") |
| DebtOptimization.InitialGuess | src/debt_model.py:45 | one entry per debt type, each 1,000,000 |
| DebtOptimization.Bounds | src/debt_model.py:46 | one bound per debt type, each "at least 0, no upper limit" |
| DebtOptimization.SetUp | src/debt_model.py:44-48 | the solver is handed the model and types the objective closes over, the initial guess, the bounds and the method `SLSQP` |
| DebtOptimization.InitialGuessFeasible | src/debt_model.py:44-46 | the initial guess is a positive point inside the bounds with one coordinate per type, and the objective is defined there when every rate is non-zero |
| DebtOptimization.ToMapping | src/debt_model.py:50 | the dictionary's keys are exactly the debt types |
| DebtOptimization.ToMappingLastWins | src/debt_model.py:50 | a type's entry holds the solver's value at the type's last position |
| DebtOptimization.ToMappingDistinct | src/debt_model.py:50 | with distinct types the dictionary has one entry per type, each holding the value at the type's position |
| DebtOptimization.OptimizeDebt | src/debt_model.py:29-50 | succeeds exactly when there is at least one type, every type has a rate and there are cash flows; an empty type list raises the empty-minimum error; otherwise the error is the first position's that raises, never an optimisation failure; on success the keys are exactly the types and each type maps to the solver's value at its last position |
| DebtOptimization.OptimizeDebtFailsOnlyWhenEmpty | src/debt_model.py:44-50 | when every type is known, the optimiser fails only with an empty type list or an empty cash-flow series, and says which |
| DebtOptimization.RateKeysListTable | src/debt_model.py:58 | the key list of the rate table holds every key exactly once, so each position is its key's last |
| DebtOptimization.RecommendDebtStructure | src/debt_model.py:52-59 | succeeds exactly when there are cash flows and at least one rate; otherwise it raises the empty-minimum error for the empty table or the empty series; on success the keys are exactly the rate table's keys, and the i-th key maps to the solver's i-th value |
| DebtOptimization.OptimizeOverRateKeys | src/debt_model.py:58-59 | optimising over the table's own key list: success, error, key set and values as stated for the entry point |

## Left out

- The SLSQP solver is not modelled. It is an arbitrary function from the problem to one amount per type. Nothing is claimed about its convergence, its optimality or whether its output respects the bounds. The program never checks `result.success`, and neither does the model.
- SimulateDebtService: a zero interest payment is excluded by a precondition (`PaymentNonZero`). A zero payment is a zero amount or a zero rate, and numpy then divides by zero, giving infinities and NaN. IEEE infinities, NaN, signed zero and rounding are outside a model over `real`.
- Objective, OptimizeDebt, RecommendDebtStructure: they require non-zero rates for the same reason, so a table holding a rate of 0.0 is not covered. The solver may still probe an amount of zero, which the bounds allow, and that case is not covered.
- Objective: the sum `total_debt` is computed and never used. It cannot raise, so it is not modelled at all.
- OptimizeDebt: an empty type list raises a ValueError, and where it is raised depends on the solver library. It may come from the solver's handling of the empty bounds list before the objective runs, or from `min([])` at line 42. `NoCoverageRatios` stands for this error, whatever its origin.
- OptimizeDebt: only the solver's first evaluation of the objective, at the initial guess, is modelled. At any other point with one amount per type, the objective succeeds or fails exactly as at the initial guess, with the same error (`ObjectiveFailureIndependent`).
- The order in which the result dictionary lists its keys is not modelled; only its contents are.
- The `debt_structure` field is never read or written after construction, so it is not modelled.
- The pandas import, the `__main__` example driver and its `print` are not modelled.
- Converting the cash-flow list to a numpy array is modelled as the sequence itself.
