/** The debt-structure optimiser: a coverage simulator (the worst-period
    interest coverage of one tranche), the max-min objective built from it,
    the set-up of the numerical search (initial guess and bounds), the
    assembly of the search's output into a mapping from debt type to amount,
    and the recommendation entry point that optimises over every rated type.

    Arithmetic is over `real`. The numerical search itself is a parameter:
    any function from the problem handed to it to a vector of amounts. */
module DebtOptimization {
  import opened Results

  /** The exceptions the program raises, named after the Python exception
      and the step that raises it. */
  datatype Error =
    | KeyError(debtType: string) // a debt type with no interest rate
    | EmptyCashFlows             // the minimum over a zero-length cash-flow array
    | NoCoverageRatios           // the ValueError of an empty type list (see README)
    | IndexError                 // a candidate vector longer than the debt-type list

  /** The model: projected cash flows and the interest rate of every debt
      type. The rate table is a dictionary; `rateKeys` is the order in which
      its keys were inserted, which fixes the order of the optimiser's vector
      when every type is optimised. */
  datatype DebtModel = DebtModel(
    cashFlows: seq<real>,
    interestRates: map<string, real>,
    rateKeys: seq<string>)

  /** `rateKeys` lists every key of the rate table once. */
  predicate ValidRateKeys(m: DebtModel)
  {
    (forall i, j :: 0 <= i < j < |m.rateKeys| ==> m.rateKeys[i] != m.rateKeys[j]) &&
    m.interestRates.Keys == (set t | t in m.rateKeys)
  }

  /** Starting amount of every coordinate of the search. */
  const InitialDebt: real := 1000000.0

  /** The search method named in the call to the solver. */
  const SearchMethod: string := "SLSQP"

  /** A box constraint on one coordinate: a lower bound and an optional upper bound. */
  datatype Bound = Bound(lower: real, upper: Option<real>)

  /** Everything the program hands to the solver: the objective (given by the
      model and the debt types it closes over), the initial guess, the bounds
      and the method. */
  datatype Problem = Problem(
    model: DebtModel,
    debtTypes: seq<string>,
    initialGuess: seq<real>,
    bounds: seq<Bound>,
    searchMethod: string)

  // ---------------------------------------------------------------------------
  // Minimum of a non-empty sequence (numpy's and Python's min over reals)
  // ---------------------------------------------------------------------------

  /** The smallest element: a lower bound of `s` that `s` attains. */
  function Min(s: seq<real>): (m: real)
    requires |s| > 0
    ensures forall i :: 0 <= i < |s| ==> m <= s[i]
    ensures exists i :: 0 <= i < |s| && s[i] == m
  {
    if |s| == 1 then s[0]
    else
      var rest := Min(s[..|s| - 1]);
      if s[|s| - 1] < rest then s[|s| - 1] else rest
  }

  /** A lower bound that the sequence attains is its minimum. */
  lemma MinCharacterised(s: seq<real>, v: real)
    requires |s| > 0
    requires forall i :: 0 <= i < |s| ==> v <= s[i]
    requires exists i :: 0 <= i < |s| && s[i] == v
    ensures Min(s) == v
  {
  }

  /** Element-wise division of a sequence by a non-zero divisor. */
  function Ratios(s: seq<real>, divisor: real): (r: seq<real>)
    requires divisor != 0.0
    ensures |r| == |s|
    ensures forall i :: 0 <= i < |s| ==> r[i] == s[i] / divisor
  {
    seq(|s|, i requires 0 <= i < |s| => s[i] / divisor)
  }

  lemma DivideMonotone(a: real, b: real, k: real)
    requires a <= b && k > 0.0
    ensures a / k <= b / k
  {
    assert b / k - a / k == (b - a) / k;
  }

  /** Dividing by a positive number commutes with taking the minimum. */
  lemma MinOfRatios(s: seq<real>, k: real)
    requires |s| > 0 && k > 0.0
    ensures Min(Ratios(s, k)) == Min(s) / k
  {
    var r := Ratios(s, k);
    var m := Min(s);
    forall i | 0 <= i < |s|
      ensures m / k <= r[i]
    {
      DivideMonotone(m, s[i], k);
    }
    var j :| 0 <= j < |s| && s[j] == m;
    assert r[j] == m / k;
    MinCharacterised(r, m / k);
  }

  // ---------------------------------------------------------------------------
  // Coverage simulator
  // ---------------------------------------------------------------------------

  /** The interest payment of `debtLevel` at the rate of `debtType` is not zero.
      A zero payment makes numpy divide by zero (infinities and NaN), which
      lies outside this model over the reals. */
  predicate PaymentNonZero(m: DebtModel, debtLevel: real, debtType: string)
  {
    debtType in m.interestRates ==> InterestPayment(m, debtLevel, debtType) != 0.0
  }

  /** The interest due on `debtLevel` at the rate of `debtType`. */
  function InterestPayment(m: DebtModel, debtLevel: real, debtType: string): real
    requires debtType in m.interestRates
  {
    debtLevel * m.interestRates[debtType]
  }

  /** Worst-period interest coverage: every period's cash flow divided by the
      interest payment `debtLevel * rate`, and the smallest of those ratios.
      The rate lookup comes first and fails on an unknown type; the minimum
      fails on an empty cash-flow series. */
  function SimulateDebtService(m: DebtModel, debtLevel: real, debtType: string): (r: Result<real, Error>)
    requires PaymentNonZero(m, debtLevel, debtType)
    ensures r.Success? <==> debtType in m.interestRates && |m.cashFlows| > 0
    ensures debtType !in m.interestRates ==> r == Failure(KeyError(debtType))
    ensures debtType in m.interestRates && |m.cashFlows| == 0 ==> r == Failure(EmptyCashFlows)
  {
    if debtType !in m.interestRates then Failure(KeyError(debtType))
    else
      var interestPayment := InterestPayment(m, debtLevel, debtType);
      var interestCoverage := Ratios(m.cashFlows, interestPayment);
      if |interestCoverage| == 0 then Failure(EmptyCashFlows)
      else Success(Min(interestCoverage))
  }

  /** The coverage is the worst period's: no period's cash flow over the
      interest payment is below it, and some period's equals it. */
  lemma SimulateIsWorstPeriod(m: DebtModel, debtLevel: real, debtType: string)
    requires PaymentNonZero(m, debtLevel, debtType)
    ensures SimulateDebtService(m, debtLevel, debtType).Success? ==>
      forall i :: 0 <= i < |m.cashFlows| ==>
        SimulateDebtService(m, debtLevel, debtType).value
          <= m.cashFlows[i] / InterestPayment(m, debtLevel, debtType)
    ensures SimulateDebtService(m, debtLevel, debtType).Success? ==>
      exists i :: 0 <= i < |m.cashFlows| &&
        SimulateDebtService(m, debtLevel, debtType).value
          == m.cashFlows[i] / InterestPayment(m, debtLevel, debtType)
  {
    if SimulateDebtService(m, debtLevel, debtType).Success? {
      var coverage := Ratios(m.cashFlows, InterestPayment(m, debtLevel, debtType));
      assert SimulateDebtService(m, debtLevel, debtType).value == Min(coverage);
    }
  }

  /** With a positive interest payment the coverage is the smallest cash flow
      divided by the payment. */
  lemma SimulateClosedForm(m: DebtModel, debtLevel: real, debtType: string)
    requires debtType in m.interestRates && |m.cashFlows| > 0
    requires InterestPayment(m, debtLevel, debtType) > 0.0
    ensures SimulateDebtService(m, debtLevel, debtType)
      == Success(Min(m.cashFlows) / InterestPayment(m, debtLevel, debtType))
  {
    var p := InterestPayment(m, debtLevel, debtType);
    assert SimulateDebtService(m, debtLevel, debtType) == Success(Min(Ratios(m.cashFlows, p)));
    MinOfRatios(m.cashFlows, p);
  }

  lemma DivideTwice(c: real, p: real, k: real)
    requires p != 0.0 && k != 0.0
    ensures c / (p * k) == (c / p) / k
  {
    var q := c / p;
    assert c == q * p;
    assert (q * p) / (p * k) == q / k;
  }

  lemma PaymentScaling(m: DebtModel, debtLevel: real, debtType: string, k: real)
    requires debtType in m.interestRates
    ensures InterestPayment(m, debtLevel * k, debtType) == InterestPayment(m, debtLevel, debtType) * k
  {
    var rate := m.interestRates[debtType];
    assert debtLevel * k * rate == (debtLevel * rate) * k;
  }

  /** Dividing by `p * k` is dividing by `p` and then by `k`. */
  lemma RatiosTwice(s: seq<real>, p: real, k: real)
    requires p != 0.0 && k != 0.0
    ensures p * k != 0.0
    ensures Ratios(s, p * k) == Ratios(Ratios(s, p), k)
  {
    forall i | 0 <= i < |s|
      ensures Ratios(s, p * k)[i] == Ratios(Ratios(s, p), k)[i]
    {
      DivideTwice(s[i], p, k);
    }
  }

  /** Multiplying the debt by a positive factor divides the coverage by it. */
  lemma SimulateScaling(m: DebtModel, debtLevel: real, debtType: string, k: real)
    requires k > 0.0 && PaymentNonZero(m, debtLevel, debtType)
    ensures PaymentNonZero(m, debtLevel * k, debtType)
    ensures SimulateDebtService(m, debtLevel * k, debtType).Success?
        <==> SimulateDebtService(m, debtLevel, debtType).Success?
    ensures SimulateDebtService(m, debtLevel, debtType).Success? ==>
      SimulateDebtService(m, debtLevel * k, debtType).value
        == SimulateDebtService(m, debtLevel, debtType).value / k
  {
    if debtType in m.interestRates {
      var p := InterestPayment(m, debtLevel, debtType);
      var pk := InterestPayment(m, debtLevel * k, debtType);
      PaymentScaling(m, debtLevel, debtType, k);
      RatiosTwice(m.cashFlows, p, k);
      assert pk == p * k;
      if |m.cashFlows| > 0 {
        assert SimulateDebtService(m, debtLevel, debtType) == Success(Min(Ratios(m.cashFlows, p)));
        assert SimulateDebtService(m, debtLevel * k, debtType) == Success(Min(Ratios(m.cashFlows, pk)));
        var base := Ratios(m.cashFlows, p);
        assert Ratios(m.cashFlows, pk) == Ratios(base, k);
        MinOfRatios(base, k);
        assert Min(Ratios(m.cashFlows, pk)) == Min(base) / k;
      }
    }
  }

  lemma DivideAntitone(a: real, p1: real, p2: real)
    requires a >= 0.0 && 0.0 < p1 <= p2
    ensures 0.0 <= a / p2 <= a / p1
  {
    assert a / p1 - a / p2 == a * (p2 - p1) / (p1 * p2);
  }

  /** With non-negative cash flows and a positive rate, more debt never raises
      the coverage, and the coverage is non-negative. */
  lemma SimulateMonotoneInDebt(m: DebtModel, debtType: string, d1: real, d2: real)
    requires debtType in m.interestRates && m.interestRates[debtType] > 0.0
    requires 0.0 < d1 <= d2
    requires forall i :: 0 <= i < |m.cashFlows| ==> m.cashFlows[i] >= 0.0
    ensures PaymentNonZero(m, d1, debtType) && PaymentNonZero(m, d2, debtType)
    ensures SimulateDebtService(m, d1, debtType).Success?
        <==> SimulateDebtService(m, d2, debtType).Success?
    ensures SimulateDebtService(m, d2, debtType).Success? ==>
      0.0 <= SimulateDebtService(m, d2, debtType).value <= SimulateDebtService(m, d1, debtType).value
  {
    var rate := m.interestRates[debtType];
    var p1, p2 := InterestPayment(m, d1, debtType), InterestPayment(m, d2, debtType);
    assert 0.0 < p1 <= p2 by {
      assert p2 - p1 == (d2 - d1) * rate;
    }
    if |m.cashFlows| > 0 {
      SimulateClosedForm(m, d1, debtType);
      SimulateClosedForm(m, d2, debtType);
      DivideAntitone(Min(m.cashFlows), p1, p2);
    }
  }

  // ---------------------------------------------------------------------------
  // Max-min objective
  // ---------------------------------------------------------------------------

  /** Every position of the candidate that has a debt type has a non-zero payment. */
  predicate Evaluable(m: DebtModel, debtTypes: seq<string>, x: seq<real>)
  {
    forall i :: 0 <= i < |x| && i < |debtTypes| ==> PaymentNonZero(m, x[i], debtTypes[i])
  }

  /** What position `k` of a candidate raises when its coverage is
      evaluated, whatever the amount there: an IndexError past the end of the
      debt types, a KeyError for a type without a rate, the failure of `min`
      on an empty cash-flow series, or nothing. */
  function RaisedAt(m: DebtModel, debtTypes: seq<string>, k: nat): Option<Error>
  {
    if k >= |debtTypes| then Some(IndexError)
    else if debtTypes[k] !in m.interestRates then Some(KeyError(debtTypes[k]))
    else if |m.cashFlows| == 0 then Some(EmptyCashFlows)
    else None
  }

  /** The per-position coverage ratios of a candidate, evaluated left to
      right; the first position that raises decides the error, and a
      position past the end of the debt types raises IndexError. */
  function CoverageRatios(m: DebtModel, debtTypes: seq<string>, x: seq<real>): (r: Result<seq<real>, Error>)
    requires Evaluable(m, debtTypes, x)
    ensures r.Success? <==> forall j :: 0 <= j < |x| ==> RaisedAt(m, debtTypes, j) == None
    ensures r.Success? ==> (|x| <= |debtTypes| && |r.value| == |x| &&
      forall i :: 0 <= i < |x| ==> SimulateDebtService(m, x[i], debtTypes[i]) == Success(r.value[i]))
    ensures r.Failure? ==>
      exists k :: 0 <= k < |x| &&
        (forall j :: 0 <= j < k ==> RaisedAt(m, debtTypes, j) == None) &&
        RaisedAt(m, debtTypes, k) == Some(r.error)
    decreases |x|
  {
    if |x| == 0 then Success([])
    else
      var last := |x| - 1;
      assert Evaluable(m, debtTypes, x[..last]);
      match CoverageRatios(m, debtTypes, x[..last])
      case Failure(e) => Failure(e)
      case Success(ratios) =>
        if last >= |debtTypes| then
          assert RaisedAt(m, debtTypes, last) == Some(IndexError);
          Failure(IndexError)
        else
          match SimulateDebtService(m, x[last], debtTypes[last])
          case Failure(e) =>
            assert RaisedAt(m, debtTypes, last) == Some(e);
            Failure(e)
          case Success(c) =>
            assert forall i :: 0 <= i < last ==> x[..last][i] == x[i];
            Success(ratios + [c])
  }

  /** The quantity handed to the solver to minimise: the negated smallest
      coverage ratio across positions. The sum of the candidate that the
      program computes first is never used and is not modelled. */
  function Objective(m: DebtModel, debtTypes: seq<string>, x: seq<real>): (r: Result<real, Error>)
    requires Evaluable(m, debtTypes, x)
    ensures r.Success? <==> (0 < |x| <= |debtTypes| && |m.cashFlows| > 0 &&
      forall i :: 0 <= i < |x| ==> debtTypes[i] in m.interestRates)
    ensures |x| == 0 ==> r == Failure(NoCoverageRatios)
    ensures r.Failure? && |x| > 0 ==>
      exists k :: 0 <= k < |x| &&
        (forall j :: 0 <= j < k ==> RaisedAt(m, debtTypes, j) == None) &&
        RaisedAt(m, debtTypes, k) == Some(r.error)
    ensures r.Success? ==> forall i :: 0 <= i < |x| ==>
      r.value >= -SimulateDebtService(m, x[i], debtTypes[i]).value
    ensures r.Success? ==>
      exists i :: 0 <= i < |x| &&
        r.value == -SimulateDebtService(m, x[i], debtTypes[i]).value
  {
    NegatedMinimum(CoverageRatios(m, debtTypes, x))
  }

  /** `-min(coverage_ratios)`, passing on an error raised while the ratios
      were computed; the minimum of no ratios raises. */
  function NegatedMinimum(coverageRatios: Result<seq<real>, Error>): Result<real, Error>
  {
    match coverageRatios
    case Failure(e) => Failure(e)
    case Success(ratios) =>
      if |ratios| == 0 then Failure(NoCoverageRatios)
      else Success(-Min(ratios))
  }

  /** The objective depends on the candidate only through the per-position
      coverages: two candidates whose positions simulate alike give the same
      objective, whatever their totals. */
  lemma {:induction false} CoverageRatiosLocal(m: DebtModel, debtTypes: seq<string>, x: seq<real>, y: seq<real>)
    requires |x| == |y| && Evaluable(m, debtTypes, x) && Evaluable(m, debtTypes, y)
    requires forall i :: 0 <= i < |x| && i < |debtTypes| ==>
      SimulateDebtService(m, x[i], debtTypes[i]) == SimulateDebtService(m, y[i], debtTypes[i])
    ensures CoverageRatios(m, debtTypes, x) == CoverageRatios(m, debtTypes, y)
  {
    if |x| > 0 {
      var last := |x| - 1;
      CoverageRatiosLocal(m, debtTypes, x[..last], y[..last]);
    }
  }

  lemma ObjectiveLocal(m: DebtModel, debtTypes: seq<string>, x: seq<real>, y: seq<real>)
    requires |x| == |y| && Evaluable(m, debtTypes, x) && Evaluable(m, debtTypes, y)
    requires forall i :: 0 <= i < |x| && i < |debtTypes| ==>
      SimulateDebtService(m, x[i], debtTypes[i]) == SimulateDebtService(m, y[i], debtTypes[i])
    ensures Objective(m, debtTypes, x) == Objective(m, debtTypes, y)
  {
    CoverageRatiosLocal(m, debtTypes, x, y);
  }

  /** Whether, and with which error, the objective fails does not depend on
      the amounts in the candidate, only on its length. */
  lemma ObjectiveFailureIndependent(m: DebtModel, debtTypes: seq<string>, x: seq<real>, y: seq<real>)
    requires |x| == |y| && Evaluable(m, debtTypes, x) && Evaluable(m, debtTypes, y)
    ensures Objective(m, debtTypes, x).Failure? == Objective(m, debtTypes, y).Failure?
    ensures Objective(m, debtTypes, x).Failure? ==>
      Objective(m, debtTypes, x).error == Objective(m, debtTypes, y).error
  {
  }

  /** Every coordinate multiplied by `k`. */
  function Scale(x: seq<real>, k: real): (r: seq<real>)
    ensures |r| == |x| && forall i :: 0 <= i < |x| ==> r[i] == x[i] * k
  {
    seq(|x|, i requires 0 <= i < |x| => x[i] * k)
  }

  lemma CoverageRatiosScaling(m: DebtModel, debtTypes: seq<string>, x: seq<real>, k: real)
    requires k > 0.0 && Evaluable(m, debtTypes, x)
    ensures Evaluable(m, debtTypes, Scale(x, k))
    ensures CoverageRatios(m, debtTypes, Scale(x, k)).Success? <==> CoverageRatios(m, debtTypes, x).Success?
    ensures CoverageRatios(m, debtTypes, x).Success? ==>
      CoverageRatios(m, debtTypes, Scale(x, k)).value == Ratios(CoverageRatios(m, debtTypes, x).value, k)
  {
    var xs := Scale(x, k);
    forall i | 0 <= i < |x| && i < |debtTypes|
      ensures PaymentNonZero(m, xs[i], debtTypes[i])
      ensures SimulateDebtService(m, xs[i], debtTypes[i]).Success?
          <==> SimulateDebtService(m, x[i], debtTypes[i]).Success?
      ensures SimulateDebtService(m, x[i], debtTypes[i]).Success? ==>
        SimulateDebtService(m, xs[i], debtTypes[i]).value == SimulateDebtService(m, x[i], debtTypes[i]).value / k
    {
      var d, t := x[i], debtTypes[i];
      SimulateScaling(m, d, t, k);
      assert xs[i] == d * k;
    }
    if CoverageRatios(m, debtTypes, x).Success? {
      var cs, cxs := CoverageRatios(m, debtTypes, x).value, CoverageRatios(m, debtTypes, xs).value;
      assert forall i :: 0 <= i < |cs| ==> cxs[i] == Ratios(cs, k)[i];
    }
  }

  lemma NegateDivide(a: real, b: real, k: real)
    requires k != 0.0 && b == -a
    ensures -(a / k) == b / k
  {
  }

  /** The objective scales inversely with the debt: multiplying every amount
      by `k > 0` divides the objective by `k`. */
  lemma ObjectiveScaling(m: DebtModel, debtTypes: seq<string>, x: seq<real>, k: real)
    requires k > 0.0 && Evaluable(m, debtTypes, x)
    ensures Evaluable(m, debtTypes, Scale(x, k))
    ensures Objective(m, debtTypes, Scale(x, k)).Success? <==> Objective(m, debtTypes, x).Success?
    ensures Objective(m, debtTypes, x).Success? ==>
      Objective(m, debtTypes, Scale(x, k)).value == Objective(m, debtTypes, x).value / k
  {
    CoverageRatiosScaling(m, debtTypes, x, k);
    var xs := Scale(x, k);
    var c, cxs := CoverageRatios(m, debtTypes, x), CoverageRatios(m, debtTypes, xs);
    assert Objective(m, debtTypes, x) == NegatedMinimum(c);
    assert Objective(m, debtTypes, xs) == NegatedMinimum(cxs);
    if Objective(m, debtTypes, x).Success? {
      assert c.Success? && |c.value| > 0;
      var cs := c.value;
      assert cxs.value == Ratios(cs, k);
      MinOfRatios(cs, k);
      var low, before, after := Min(cs), Objective(m, debtTypes, x).value, Objective(m, debtTypes, xs).value;
      assert before == -low;
      assert after == -(low / k);
      NegateDivide(low, before, k);
    }
  }

  lemma LessByNegativeGap(gap: real, a: real, b: real)
    requires gap < 0.0 && gap == a - b
    ensures a < b
  {
  }

  lemma DivideByFractionLowers(v: real, k: real)
    requires v < 0.0 && 0.0 < k < 1.0
    ensures v / k < v
  {
    var q := v / k;
    assert v == q * k;
    assert q < 0.0;
    var w := 1.0 - k;
    assert q * w < 0.0;
    assert q * w == q - q * k;
    LessByNegativeGap(q * w, q, v);
  }

  /** With positive cash flows and a positive payment the coverage is positive. */
  lemma SimulatePositive(m: DebtModel, debtLevel: real, debtType: string)
    requires debtType in m.interestRates && |m.cashFlows| > 0
    requires InterestPayment(m, debtLevel, debtType) > 0.0
    requires forall i :: 0 <= i < |m.cashFlows| ==> m.cashFlows[i] > 0.0
    ensures SimulateDebtService(m, debtLevel, debtType).Success?
    ensures SimulateDebtService(m, debtLevel, debtType).value > 0.0
  {
    SimulateIsWorstPeriod(m, debtLevel, debtType);
    var p := InterestPayment(m, debtLevel, debtType);
    var i :| 0 <= i < |m.cashFlows| && SimulateDebtService(m, debtLevel, debtType).value == m.cashFlows[i] / p;
  }

  /** With positive cash flows and positive rates the objective has no
      minimiser at positive debt: shrinking every amount by a factor
      `0 < k < 1` keeps the candidate positive and strictly lowers the
      objective, so the search is always drawn towards the zero bound. */
  lemma ObjectiveImprovesAsDebtShrinks(m: DebtModel, debtTypes: seq<string>, x: seq<real>, k: real)
    requires 0.0 < k < 1.0
    requires forall i :: 0 <= i < |m.cashFlows| ==> m.cashFlows[i] > 0.0
    requires forall i :: 0 <= i < |x| && i < |debtTypes| && debtTypes[i] in m.interestRates ==>
      m.interestRates[debtTypes[i]] > 0.0
    requires forall i :: 0 <= i < |x| ==> x[i] > 0.0
    ensures Evaluable(m, debtTypes, x) && Evaluable(m, debtTypes, Scale(x, k))
    ensures forall i :: 0 <= i < |x| ==> Scale(x, k)[i] > 0.0
    ensures Objective(m, debtTypes, x).Success? ==>
      Objective(m, debtTypes, Scale(x, k)).Success? &&
      Objective(m, debtTypes, Scale(x, k)).value < Objective(m, debtTypes, x).value
  {
    forall i | 0 <= i < |x| && i < |debtTypes| && debtTypes[i] in m.interestRates
      ensures InterestPayment(m, x[i], debtTypes[i]) > 0.0
    {
      var d, rate := x[i], m.interestRates[debtTypes[i]];
      assert d * rate > 0.0;
    }
    assert Evaluable(m, debtTypes, x);
    ObjectiveScaling(m, debtTypes, x, k);
    forall i | 0 <= i < |x|
      ensures Scale(x, k)[i] > 0.0
    {
      var d := x[i];
      assert d * k > 0.0;
    }
    if Objective(m, debtTypes, x).Success? {
      var v := Objective(m, debtTypes, x).value;
      var i :| 0 <= i < |x| && v == -SimulateDebtService(m, x[i], debtTypes[i]).value;
      SimulatePositive(m, x[i], debtTypes[i]);
      DivideByFractionLowers(v, k);
    }
  }

  // ---------------------------------------------------------------------------
  // Solver set-up and result assembly
  // ---------------------------------------------------------------------------

  function InitialGuess(debtTypes: seq<string>): (g: seq<real>)
    ensures |g| == |debtTypes|
    ensures forall i :: 0 <= i < |g| ==> g[i] == InitialDebt
  {
    seq(|debtTypes|, _ => InitialDebt)
  }

  function Bounds(debtTypes: seq<string>): (b: seq<Bound>)
    ensures |b| == |debtTypes|
    ensures forall i :: 0 <= i < |b| ==> b[i] == Bound(0.0, None)
  {
    seq(|debtTypes|, _ => Bound(0.0, None))
  }

  /** The problem the program hands to the solver for `debtTypes`. */
  function SetUp(m: DebtModel, debtTypes: seq<string>): (p: Problem)
    ensures p.model == m && p.debtTypes == debtTypes && p.searchMethod == SearchMethod
    ensures p.initialGuess == InitialGuess(debtTypes) && p.bounds == Bounds(debtTypes)
  {
    Problem(m, debtTypes, InitialGuess(debtTypes), Bounds(debtTypes), SearchMethod)
  }

  /** The initial guess is a positive point inside the bounds, one coordinate
      per debt type, and the objective is defined there whenever every rate
      is non-zero. */
  lemma InitialGuessFeasible(m: DebtModel, debtTypes: seq<string>)
    requires forall i :: 0 <= i < |debtTypes| && debtTypes[i] in m.interestRates ==>
      m.interestRates[debtTypes[i]] != 0.0
    ensures |SetUp(m, debtTypes).initialGuess| == |SetUp(m, debtTypes).bounds| == |debtTypes|
    ensures forall i :: 0 <= i < |debtTypes| ==>
      var g, b := SetUp(m, debtTypes).initialGuess[i], SetUp(m, debtTypes).bounds[i];
      0.0 < g && b.lower <= g && (b.upper.Some? ==> g <= b.upper.value)
    ensures Evaluable(m, debtTypes, SetUp(m, debtTypes).initialGuess)
  {
    var g := InitialGuess(debtTypes);
    forall i | 0 <= i < |g| && i < |debtTypes|
      ensures PaymentNonZero(m, g[i], debtTypes[i])
    {
      if debtTypes[i] in m.interestRates {
        assert g[i] == InitialDebt;
        assert InitialDebt * m.interestRates[debtTypes[i]] != 0.0;
      }
    }
  }

  /** Position `i` holds the last occurrence of its element. */
  predicate LastOccurrence(s: seq<string>, i: int)
  {
    0 <= i < |s| && forall j :: i < j < |s| ==> s[j] != s[i]
  }

  /** The dictionary built from the debt types and the solver's vector:
      entries are inserted in order, so a repeated type keeps the value of
      its last position. */
  function ToMapping(debtTypes: seq<string>, values: seq<real>): (r: map<string, real>)
    requires |debtTypes| <= |values|
    ensures forall t :: t in r <==> t in debtTypes
    decreases |debtTypes|
  {
    if |debtTypes| == 0 then map[]
    else
      var last := |debtTypes| - 1;
      assert debtTypes == debtTypes[..last] + [debtTypes[last]];
      ToMapping(debtTypes[..last], values)[debtTypes[last] := values[last]]
  }

  /** The entry of a debt type holds the solver's value at the type's last
      position. */
  lemma {:induction false} ToMappingLastWins(debtTypes: seq<string>, values: seq<real>, i: int)
    requires |debtTypes| <= |values| && LastOccurrence(debtTypes, i)
    ensures debtTypes[i] in ToMapping(debtTypes, values)
    ensures ToMapping(debtTypes, values)[debtTypes[i]] == values[i]
    decreases |debtTypes|
  {
    var last := |debtTypes| - 1;
    if i < last {
      var prefix := debtTypes[..last];
      assert debtTypes[i] != debtTypes[last];
      assert LastOccurrence(prefix, i);
      ToMappingLastWins(prefix, values, i);
    }
  }

  /** With distinct debt types every position gives one entry. */
  lemma ToMappingDistinct(debtTypes: seq<string>, values: seq<real>)
    requires |debtTypes| <= |values|
    requires forall i, j :: 0 <= i < j < |debtTypes| ==> debtTypes[i] != debtTypes[j]
    ensures |ToMapping(debtTypes, values)| == |debtTypes|
    ensures forall i :: 0 <= i < |debtTypes| ==> ToMapping(debtTypes, values)[debtTypes[i]] == values[i]
  {
    var r := ToMapping(debtTypes, values);
    forall i | 0 <= i < |debtTypes|
      ensures debtTypes[i] in r && r[debtTypes[i]] == values[i]
    {
      assert LastOccurrence(debtTypes, i);
      ToMappingLastWins(debtTypes, values, i);
    }
    DistinctCardinality(debtTypes);
    assert r.Keys == set t | t in debtTypes;
  }

  lemma {:induction false} DistinctCardinality(s: seq<string>)
    requires forall i, j :: 0 <= i < j < |s| ==> s[i] != s[j]
    ensures |set t | t in s| == |s|
  {
    if |s| > 0 {
      var last := |s| - 1;
      DistinctCardinality(s[..last]);
      assert (set t | t in s) == (set t | t in s[..last]) + {s[last]};
      assert s[last] !in s[..last];
    }
  }

  lemma ToMappingLastWinsEverywhere(debtTypes: seq<string>, values: seq<real>)
    requires |debtTypes| <= |values|
    ensures forall i :: LastOccurrence(debtTypes, i) ==>
      debtTypes[i] in ToMapping(debtTypes, values) && ToMapping(debtTypes, values)[debtTypes[i]] == values[i]
  {
    forall i | LastOccurrence(debtTypes, i)
      ensures debtTypes[i] in ToMapping(debtTypes, values) && ToMapping(debtTypes, values)[debtTypes[i]] == values[i]
    {
      ToMappingLastWins(debtTypes, values, i);
    }
  }

  /** Optimise the debt amounts for `debtTypes`. For a non-empty type list
      the solver evaluates the objective at the initial guess first, so an
      unknown type or an empty cash-flow series raises there; an empty type
      list raises a ValueError, represented by `NoCoverageRatios`. Otherwise
      the solver's vector is zipped with the debt types. The solver's success
      flag is never consulted. */
  function OptimizeDebt(m: DebtModel, debtTypes: seq<string>, minimize: Problem -> seq<real>)
    : (r: Result<map<string, real>, Error>)
    requires forall i :: 0 <= i < |debtTypes| && debtTypes[i] in m.interestRates ==>
      m.interestRates[debtTypes[i]] != 0.0
    requires |minimize(SetUp(m, debtTypes))| == |debtTypes|
    ensures r.Success? <==> (|debtTypes| > 0 && |m.cashFlows| > 0 &&
      forall i :: 0 <= i < |debtTypes| ==> debtTypes[i] in m.interestRates)
    ensures |debtTypes| == 0 ==> r == Failure(NoCoverageRatios)
    ensures r.Failure? && |debtTypes| > 0 ==>
      exists k :: 0 <= k < |debtTypes| &&
        (forall j :: 0 <= j < k ==> RaisedAt(m, debtTypes, j) == None) &&
        RaisedAt(m, debtTypes, k) == Some(r.error)
    ensures r.Success? ==> forall t :: t in r.value <==> t in debtTypes
    ensures r.Success? ==> forall i :: LastOccurrence(debtTypes, i) ==>
      r.value[debtTypes[i]] == minimize(SetUp(m, debtTypes))[i]
  {
    InitialGuessFeasible(m, debtTypes);
    var problem := SetUp(m, debtTypes);
    match Objective(m, debtTypes, problem.initialGuess)
    case Failure(e) =>
      Failure(e)
    case Success(_) =>
      var values := minimize(problem);
      ToMappingLastWinsEverywhere(debtTypes, values);
      Success(ToMapping(debtTypes, values))
  }

  /** Optimise over every key of the rate table, in insertion order. */
  function RecommendDebtStructure(m: DebtModel, minimize: Problem -> seq<real>)
    : (r: Result<map<string, real>, Error>)
    requires ValidRateKeys(m)
    requires forall t :: t in m.interestRates ==> m.interestRates[t] != 0.0
    requires |minimize(SetUp(m, m.rateKeys))| == |m.rateKeys|
    ensures r.Success? <==> |m.cashFlows| > 0 && |m.interestRates| > 0
    ensures r.Failure? ==> r.error == (if |m.interestRates| == 0 then NoCoverageRatios else EmptyCashFlows)
    ensures r.Success? ==> r.value.Keys == m.interestRates.Keys
    ensures r.Success? ==> forall i :: 0 <= i < |m.rateKeys| ==>
      r.value[m.rateKeys[i]] == minimize(SetUp(m, m.rateKeys))[i]
  {
    OptimizeOverRateKeys(m, minimize);
    OptimizeDebt(m, m.rateKeys, minimize)
  }

  /** Optimising over the table's own key list succeeds unless the table or
      the cash flows are empty, and then yields one amount per key. */
  lemma OptimizeOverRateKeys(m: DebtModel, minimize: Problem -> seq<real>)
    requires ValidRateKeys(m)
    requires forall t :: t in m.interestRates ==> m.interestRates[t] != 0.0
    requires |minimize(SetUp(m, m.rateKeys))| == |m.rateKeys|
    ensures OptimizeDebt(m, m.rateKeys, minimize).Success? <==> |m.cashFlows| > 0 && |m.interestRates| > 0
    ensures OptimizeDebt(m, m.rateKeys, minimize).Failure? ==>
      OptimizeDebt(m, m.rateKeys, minimize).error
        == (if |m.interestRates| == 0 then NoCoverageRatios else EmptyCashFlows)
    ensures OptimizeDebt(m, m.rateKeys, minimize).Success? ==>
      OptimizeDebt(m, m.rateKeys, minimize).value.Keys == m.interestRates.Keys
    ensures OptimizeDebt(m, m.rateKeys, minimize).Success? ==> forall i :: 0 <= i < |m.rateKeys| ==>
      OptimizeDebt(m, m.rateKeys, minimize).value[m.rateKeys[i]] == minimize(SetUp(m, m.rateKeys))[i]
  {
    RateKeysListTable(m);
    OptimizeDebtFailsOnlyWhenEmpty(m, m.rateKeys, minimize);
    OptimizeOverRateKeysKeys(m, minimize);
  }

  /** On success, the mapping built over the key list has the table's keys. */
  lemma OptimizeOverRateKeysKeys(m: DebtModel, minimize: Problem -> seq<real>)
    requires ValidRateKeys(m)
    requires forall t :: t in m.interestRates ==> m.interestRates[t] != 0.0
    requires |minimize(SetUp(m, m.rateKeys))| == |m.rateKeys|
    ensures OptimizeDebt(m, m.rateKeys, minimize).Success? ==>
      OptimizeDebt(m, m.rateKeys, minimize).value.Keys == m.interestRates.Keys
  {
    var r := OptimizeDebt(m, m.rateKeys, minimize);
    if r.Success? {
      KeysOfListed(r.value, m.rateKeys);
    }
  }

  /** A map whose members are those of a list has the list's elements as its
      key set; proved apart from the optimiser's contract, whose quantifiers
      make the set extensionality step expensive. */
  lemma KeysOfListed(r: map<string, real>, keys: seq<string>)
    requires forall t :: t in r <==> t in keys
    ensures r.Keys == (set t | t in keys)
  {
  }

  /** Over known types, the optimiser fails only for want of types or of
      cash flows. */
  lemma OptimizeDebtFailsOnlyWhenEmpty(m: DebtModel, debtTypes: seq<string>, minimize: Problem -> seq<real>)
    requires forall i :: 0 <= i < |debtTypes| ==>
      debtTypes[i] in m.interestRates && m.interestRates[debtTypes[i]] != 0.0
    requires |minimize(SetUp(m, debtTypes))| == |debtTypes|
    ensures OptimizeDebt(m, debtTypes, minimize).Failure? ==>
      OptimizeDebt(m, debtTypes, minimize).error
        == (if |debtTypes| == 0 then NoCoverageRatios else EmptyCashFlows)
  {
    var r := OptimizeDebt(m, debtTypes, minimize);
    if r.Failure? && |debtTypes| > 0 {
      var k :| 0 <= k < |debtTypes| &&
        (forall j :: 0 <= j < k ==> RaisedAt(m, debtTypes, j) == None) &&
        RaisedAt(m, debtTypes, k) == Some(r.error);
      assert debtTypes[k] in m.interestRates;
    }
  }

  /** The insertion-order key list holds exactly the table's keys, each once. */
  lemma RateKeysListTable(m: DebtModel)
    requires ValidRateKeys(m)
    ensures forall t :: t in m.interestRates <==> t in m.rateKeys
    ensures forall i :: 0 <= i < |m.rateKeys| ==> LastOccurrence(m.rateKeys, i)
    ensures |m.interestRates| == 0 <==> |m.rateKeys| == 0
  {
    var keys := m.rateKeys;
    assert forall t :: t in m.interestRates <==> t in keys;
    if |keys| > 0 {
      assert keys[0] in m.interestRates;
    }
    if |m.interestRates| > 0 {
      var t :| t in m.interestRates;
      assert t in keys;
    }
  }
}
