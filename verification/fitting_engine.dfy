/** Fitting the catalogue's laws to a profile: goodness-of-fit statistics,
    the fit of one named law (the least-squares solver is a parameter), and
    the comparison that fits every law and ranks the successes by R^2. */
module FittingEngine {
  import opened Wrappers
  import opened Numerics
  import opened LimbModels

  // ---------------------------------------------------------------------
  // Statistics

  datatype Statistics = Statistics(rSquared: real, reducedChiSquare: real, residuals: seq<real>)

  /** `y_observed - y_fitted`. */
  function Residuals(obs: seq<real>, fit: seq<real>): (res: seq<real>)
    requires |obs| == |fit|
    ensures |res| == |obs|
  {
    seq(|obs|, i requires 0 <= i < |obs| => obs[i] - fit[i])
  }

  /** `ss_tot`: the squared deviations of the observations from their mean,
      which is the number of observations times their population variance. */
  function TotalSumOfSquares(obs: seq<real>): (t: real)
    ensures 0.0 <= t
    ensures t == Variance(obs) * (|obs| as real)
  {
    VarianceTimesCount(obs);
    SumSqDev(obs, Mean(obs))
  }

  /** `ss_res`: the sum of the squared residuals. It is zero exactly when
      every residual is. */
  function ResidualSumOfSquares(res: seq<real>): (r: real)
    ensures 0.0 <= r
    ensures r == 0.0 <==> forall i :: 0 <= i < |res| ==> res[i] == 0.0
  {
    SumSqDevZero(res, 0.0);
    SumSqDev(res, 0.0)
  }

  lemma DivideNonNegative(x: real, y: real)
    requires 0.0 <= x && 0.0 < y
    ensures 0.0 <= x / y
  {
  }

  /** `1 - ss_res / ss_tot`, or 0 when the observations do not vary. */
  function RSquared(obs: seq<real>, fit: seq<real>): (r: real)
    requires |obs| == |fit|
    ensures TotalSumOfSquares(obs) == 0.0 ==> r == 0.0
    ensures r <= 1.0
  {
    var ssRes := ResidualSumOfSquares(Residuals(obs, fit));
    var ssTot := TotalSumOfSquares(obs);
    if ssTot != 0.0 then
      DivideNonNegative(ssRes, ssTot);
      1.0 - ssRes / ssTot
    else 0.0
  }

  /** `max(1, n - num_params)`: the degrees of freedom. */
  function Dof(n: nat, numParams: nat): (d: int)
    ensures 1 <= d && n - numParams <= d
    ensures d == 1 || d == n - numParams
  {
    if n - numParams < 1 then 1 else n - numParams
  }

  /** The variance substituted when the residuals do not vary. */
  const VarianceFloor: real := 0.0000000001

  /** `np.var(residuals)`, or the floor when that is not positive. It is
      always positive, and equals the population variance whenever that is. */
  function ObsVariance(res: seq<real>): (v: real)
    ensures 0.0 < v
    ensures 0.0 < Variance(res) ==> v == Variance(res)
    ensures Variance(res) == 0.0 ==> v == VarianceFloor
  {
    if Variance(res) > 0.0 then Variance(res) else VarianceFloor
  }

  /** `np.sum(residuals**2 / obs_variance)`. */
  function ChiSquare(res: seq<real>, v: real): (c: real)
    requires 0.0 < v
    ensures 0.0 <= c
  {
    var terms := seq(|res|, i requires 0 <= i < |res| => Square(res[i]) / v);
    assert forall i :: 0 <= i < |terms| ==> 0.0 <= terms[i] by {
      forall i | 0 <= i < |terms| ensures 0.0 <= terms[i] {
        DivideNonNegative(Square(res[i]), v);
      }
    }
    SumNonNegative(terms);
    Sum(terms)
  }

  /** `calculate_statistics`: R^2, the reduced chi-square and the residuals.
      The residuals are the observations minus the fitted values, one per
      observation; R^2 is 0 for observations that do not vary and never
      exceeds 1; the reduced chi-square is the chi-square of the residuals
      against their variance (or its floor) over the degrees of freedom, and
      is never negative. */
  function CalculateStatistics(obs: seq<real>, fit: seq<real>, numParams: nat): (s: Statistics)
    requires |obs| == |fit|
    ensures |s.residuals| == |obs|
    ensures forall i :: 0 <= i < |obs| ==> s.residuals[i] == obs[i] - fit[i]
    ensures TotalSumOfSquares(obs) == 0.0 ==> s.rSquared == 0.0
    ensures s.rSquared <= 1.0
    ensures 0.0 <= s.reducedChiSquare
    ensures s.reducedChiSquare ==
      ChiSquare(s.residuals, ObsVariance(s.residuals)) / (Dof(|obs|, numParams) as real)
  {
    var res := Residuals(obs, fit);
    var dof := Dof(|obs|, numParams);
    var chi := ChiSquare(res, ObsVariance(res));
    DivideNonNegative(chi, dof as real);
    Statistics(RSquared(obs, fit), chi / dof as real, res)
  }

  /** The guard of R^2 fires exactly on constant observations. */
  lemma TotalSumZeroIffConstant(obs: seq<real>)
    ensures TotalSumOfSquares(obs) == 0.0 <==> Uniform(obs)
  {
    SumSqDevZero(obs, Mean(obs));
    if obs != [] && Uniform(obs) {
      MeanOfUniform(obs);
    }
  }

  /** Observations that do not vary get an R^2 of 0, whatever the fit. */
  lemma ConstantDataHasZeroRSquared(obs: seq<real>, fit: seq<real>, numParams: nat)
    requires |obs| == |fit| && Uniform(obs)
    ensures CalculateStatistics(obs, fit, numParams).rSquared == 0.0
  {
    TotalSumZeroIffConstant(obs);
  }

  /** A fit through every observation of varying data has R^2 exactly 1. */
  lemma PerfectFitHasUnitRSquared(obs: seq<real>, numParams: nat)
    requires !Uniform(obs)
    ensures CalculateStatistics(obs, obs, numParams).rSquared == 1.0
  {
    TotalSumZeroIffConstant(obs);
    var res := Residuals(obs, obs);
    SumSqDevZero(res, 0.0);
  }

  /** Residuals that are all zero contribute nothing to the chi-square. */
  lemma {:induction false} ChiSquareOfZeroResiduals(res: seq<real>, v: real)
    requires 0.0 < v && forall i :: 0 <= i < |res| ==> res[i] == 0.0
    ensures ChiSquare(res, v) == 0.0
  {
    var terms := seq(|res|, i requires 0 <= i < |res| => Square(res[i]) / v);
    assert forall i :: 0 <= i < |terms| ==> terms[i] == 0.0;
    SumOfConstant(terms, 0.0);
  }

  /** A fit through every observation has a reduced chi-square of 0: the
      residuals vanish, and the variance floor keeps the division defined. */
  lemma PerfectFitHasZeroChiSquare(obs: seq<real>, numParams: nat)
    ensures CalculateStatistics(obs, obs, numParams).reducedChiSquare == 0.0
  {
    var res := Residuals(obs, obs);
    ChiSquareOfZeroResiduals(res, ObsVariance(res));
  }

  /** With no more observations than parameters the degrees of freedom are
      clamped to 1, so the reduced chi-square is the chi-square itself. */
  lemma UnderdeterminedChiSquare(obs: seq<real>, fit: seq<real>, numParams: nat)
    requires |obs| == |fit| && |obs| <= numParams
    ensures var s := CalculateStatistics(obs, fit, numParams);
      s.reducedChiSquare == ChiSquare(s.residuals, ObsVariance(s.residuals))
  {
  }

  // ---------------------------------------------------------------------
  // Fitting one law

  /** What `curve_fit` returns on success: the coefficients and the diagonal
      of their covariance matrix. */
  datatype SolverFit = SolverFit(popt: seq<real>, pcovDiagonal: seq<real>)

  /** `curve_fit(func, mu, observed, p0=p0, maxfev=maxfev)`: a fit, or `None`
      when it raises. */
  type Solver = (Law, seq<real>, seq<real>, seq<real>, nat) -> Option<SolverFit>

  /** The evaluation budget `fit_model` gives the solver. */
  const MaxFev: nat := 10000

  datatype FitError = UnknownModelType(name: string) | CurveFitFailed(name: string)

  /** The dictionary `fit_model` returns. */
  datatype FitResult = FitResult(
    modelType: string,
    formulaLatex: string,
    coefficients: seq<real>,
    standardErrors: seq<real>,
    rSquared: real,
    reducedChiSquare: real,
    fittedCurve: seq<real>,
    residuals: seq<real>)

  /** The law evaluated at every mu with the given coefficients. */
  function FittedCurve(m: Maths, law: Law, mu: seq<real>, p: seq<real>): (y: seq<real>)
    requires |p| == Arity(law)
    ensures |y| == |mu|
  {
    seq(|mu|, i requires 0 <= i < |mu| => Evaluate(m, law, mu[i], p))
  }

  /** `fit_model`. An unknown name is rejected before the solver is called;
      every failure of the fit is one error without a partial result; a
      success echoes the name, carries the law's formula, the solver's
      coefficients (one per initial guess) and the square roots of its
      covariance diagonal, the law evaluated at every mu, and the statistics
      of that curve computed with as many parameters as coefficients. */
  function FitModel(m: Maths, solve: Solver, mu: seq<real>, obs: seq<real>, name: string)
    : (r: Result<FitResult, FitError>)
    ensures name !in ModelFunctions <==> r == Err(UnknownModelType(name))
    ensures r.Err? && name in ModelFunctions ==> r == Err(CurveFitFailed(name))
    ensures r.Ok? <==>
      && name in ModelFunctions
      && |mu| == |obs|
      && var fit := solve(ModelFunctions[name], mu, obs, ModelInitialGuesses[name], MaxFev);
         fit.Some? && |fit.value.popt| == |ModelInitialGuesses[name]|
    ensures r.Ok? ==>
      && var law := ModelFunctions[name];
      && r.value.modelType == name
      && r.value.formulaLatex == GetModelLatex(name) != ""
      && |r.value.coefficients| == |ModelInitialGuesses[name]| == Arity(law)
      && |r.value.fittedCurve| == |mu|
      && (forall i :: 0 <= i < |mu| ==> r.value.fittedCurve[i] == Evaluate(m, law, mu[i], r.value.coefficients))
      && var stats := CalculateStatistics(obs, r.value.fittedCurve, |r.value.coefficients|);
      && r.value.rSquared == stats.rSquared
      && r.value.reducedChiSquare == stats.reducedChiSquare
      && r.value.residuals == stats.residuals
    ensures r.Ok? ==>
      && var fit := solve(ModelFunctions[name], mu, obs, ModelInitialGuesses[name], MaxFev).value;
      && r.value.coefficients == fit.popt
      && |r.value.standardErrors| == |fit.pcovDiagonal|
      && forall i :: 0 <= i < |fit.pcovDiagonal| ==> r.value.standardErrors[i] == m.sqrt(fit.pcovDiagonal[i])
  {
    CatalogueConsistent();
    if name !in ModelFunctions then Err(UnknownModelType(name))
    else
      var law := ModelFunctions[name];
      var p0 := ModelInitialGuesses[name];
      if |mu| != |obs| then Err(CurveFitFailed(name))
      else
        match solve(law, mu, obs, p0, MaxFev)
        case None => Err(CurveFitFailed(name))
        case Some(fit) =>
          if |fit.popt| != Arity(law) then Err(CurveFitFailed(name))
          else
            var perr := seq(|fit.pcovDiagonal|, i requires 0 <= i < |fit.pcovDiagonal| => m.sqrt(fit.pcovDiagonal[i]));
            var yFitted := FittedCurve(m, law, mu, fit.popt);
            var stats := CalculateStatistics(obs, yFitted, |fit.popt|);
            Ok(FitResult(name, GetModelLatex(name), fit.popt, perr, stats.rSquared,
                         stats.reducedChiSquare, yFitted, stats.residuals))
  }

  // ---------------------------------------------------------------------
  // Comparing every law

  /** The successful fits of `names`, in order: the `results` dictionary
      after the loop, with failures skipped. */
  function Successes(m: Maths, solve: Solver, mu: seq<real>, obs: seq<real>, names: seq<string>)
    : (rs: seq<FitResult>)
    ensures |rs| <= |names|
    ensures forall r :: r in rs ==> exists n :: n in names && FitModel(m, solve, mu, obs, n) == Ok(r)
    ensures forall n :: n in names && FitModel(m, solve, mu, obs, n).Ok? ==>
      FitModel(m, solve, mu, obs, n).value in rs
  {
    if names == [] then []
    else
      var init := names[..|names| - 1];
      var last := names[|names| - 1];
      assert forall n :: n in names <==> n in init || n == last;
      var rest := Successes(m, solve, mu, obs, init);
      match FitModel(m, solve, mu, obs, last)
      case Ok(r) => rest + [r]
      case Err(_) => rest
  }

  predicate RankedByRSquared(rs: seq<FitResult>)
  {
    forall i, j :: 0 <= i < j < |rs| ==> rs[j].rSquared <= rs[i].rSquared
  }

  /** An upper bound of `rs` and of `x` bounds any rearrangement of them. */
  lemma UpperBoundKept(y: FitResult, x: FitResult, rs: seq<FitResult>, r: seq<FitResult>)
    requires forall i :: 0 <= i < |rs| ==> rs[i].rSquared <= y.rSquared
    requires x.rSquared <= y.rSquared && multiset(r) == multiset(rs) + multiset{x}
    ensures forall i :: 0 <= i < |r| ==> r[i].rSquared <= y.rSquared
  {
    forall i | 0 <= i < |r| ensures r[i].rSquared <= y.rSquared {
      assert r[i] in multiset(r);
      if r[i] != x {
        assert r[i] in rs;
      }
    }
  }

  /** A ranking headed by a result at least as good as all of it is a ranking. */
  lemma RankedCons(y: FitResult, rs: seq<FitResult>)
    requires RankedByRSquared(rs)
    requires forall i :: 0 <= i < |rs| ==> rs[i].rSquared <= y.rSquared
    ensures RankedByRSquared([y] + rs)
  {
  }

  /** Places `x` after every result with an R^2 at least as high. */
  function InsertByRSquared(x: FitResult, rs: seq<FitResult>): (r: seq<FitResult>)
    requires RankedByRSquared(rs)
    ensures RankedByRSquared(r)
    ensures |r| == |rs| + 1
    ensures multiset(r) == multiset(rs) + multiset{x}
  {
    if rs == [] || x.rSquared > rs[0].rSquared then
      RankedCons(x, rs);
      [x] + rs
    else
      var rest := InsertByRSquared(x, rs[1..]);
      assert rs == [rs[0]] + rs[1..];
      UpperBoundKept(rs[0], x, rs[1..], rest);
      RankedCons(rs[0], rest);
      [rs[0]] + rest
  }

  /** `sorted(results, key=r_squared, reverse=True)`: a stable sort by R^2,
      highest first. */
  function RankByRSquared(rs: seq<FitResult>): (r: seq<FitResult>)
    ensures RankedByRSquared(r)
    ensures |r| == |rs|
    ensures multiset(r) == multiset(rs)
  {
    if rs == [] then []
    else
      var init := rs[..|rs| - 1];
      assert rs == init + [rs[|rs| - 1]];
      InsertByRSquared(rs[|rs| - 1], RankByRSquared(init))
  }

  /** No two results name the same law. */
  predicate DistinctModels(rs: seq<FitResult>)
  {
    forall i, j :: 0 <= i < j < |rs| ==> rs[i].modelType != rs[j].modelType
  }

  lemma {:induction false} SuccessesDistinct(m: Maths, solve: Solver, mu: seq<real>, obs: seq<real>, names: seq<string>)
    requires forall i, j :: 0 <= i < j < |names| ==> names[i] != names[j]
    ensures DistinctModels(Successes(m, solve, mu, obs, names))
    ensures forall r :: r in Successes(m, solve, mu, obs, names) ==> r.modelType in names
  {
    if names != [] {
      var init := names[..|names| - 1];
      var last := names[|names| - 1];
      SuccessesDistinct(m, solve, mu, obs, init);
      var rest := Successes(m, solve, mu, obs, init);
      forall r | r in rest ensures r.modelType in init {
        var n :| n in init && FitModel(m, solve, mu, obs, n) == Ok(r);
      }
      assert last !in init;
    }
  }

  /** A sequence whose elements have distinct model types holds each element once. */
  lemma {:induction false} DistinctModelsOnce(rs: seq<FitResult>, x: FitResult)
    requires DistinctModels(rs)
    ensures multiset(rs)[x] <= 1
  {
    if rs != [] {
      var init := rs[..|rs| - 1];
      assert rs == init + [rs[|rs| - 1]];
      DistinctModelsOnce(init, x);
    }
  }

  /** Reordering keeps the model types distinct. */
  lemma DistinctModelsPermuted(a: seq<FitResult>, b: seq<FitResult>)
    requires multiset(a) == multiset(b) && DistinctModels(a)
    ensures DistinctModels(b)
  {
    forall i, j | 0 <= i < j < |b| ensures b[i].modelType != b[j].modelType {
      if b[i].modelType == b[j].modelType {
        assert b[i] in multiset(a) && b[j] in multiset(a);
        var k :| 0 <= k < |a| && a[k] == b[i];
        var l :| 0 <= l < |a| && a[l] == b[j];
        assert b[i] == b[j];
        assert b == b[..j] + b[j..];
        assert b[i] in b[..j] && b[j] in b[j..];
        DistinctModelsOnce(a, b[i]);
      }
    }
  }

  /** The ranking of the catalogue's fits holds every success once, at most
      one per law, and nothing else. */
  lemma RankingOfSuccesses(m: Maths, solve: Solver, mu: seq<real>, obs: seq<real>)
    ensures var ranked := RankByRSquared(Successes(m, solve, mu, obs, ModelNames));
      && |ranked| <= |ModelNames|
      && DistinctModels(ranked)
      && (forall r :: r in ranked ==>
            exists n :: n in ModelNames && FitModel(m, solve, mu, obs, n) == Ok(r))
      && (forall n :: n in ModelNames && FitModel(m, solve, mu, obs, n).Ok? ==>
            FitModel(m, solve, mu, obs, n).value in ranked)
  {
    var results := Successes(m, solve, mu, obs, ModelNames);
    var ranked := RankByRSquared(results);
    CatalogueConsistent();
    SuccessesDistinct(m, solve, mu, obs, ModelNames);
    DistinctModelsPermuted(results, ranked);
    forall r | r in ranked ensures r in results {
      assert r in multiset(ranked);
    }
    forall n | n in ModelNames && FitModel(m, solve, mu, obs, n).Ok?
      ensures FitModel(m, solve, mu, obs, n).value in ranked
    {
      assert FitModel(m, solve, mu, obs, n).value in multiset(results);
    }
  }

  /** The loop of `fit_all_models`: every law is fitted in catalogue order
      and each success is appended to `results`. */
  method CollectSuccesses(m: Maths, solve: Solver, mu: seq<real>, obs: seq<real>)
    returns (results: seq<FitResult>)
    ensures results == Successes(m, solve, mu, obs, ModelNames)
  {
    results := [];
    for i := 0 to |ModelNames|
      invariant results == Successes(m, solve, mu, obs, ModelNames[..i])
    {
      var res := FitModel(m, solve, mu, obs, ModelNames[i]);
      SuccessesStep(m, solve, mu, obs, ModelNames, i);
      if res.Ok? {
        results := results + [res.value];
      }
    }
    assert ModelNames[..|ModelNames|] == ModelNames;
  }

  /** One more name extends the collected fits by its fit, when it succeeds. */
  lemma SuccessesStep(m: Maths, solve: Solver, mu: seq<real>, obs: seq<real>, names: seq<string>, i: nat)
    requires i < |names|
    ensures Successes(m, solve, mu, obs, names[..i + 1]) ==
      Successes(m, solve, mu, obs, names[..i]) +
      (if FitModel(m, solve, mu, obs, names[i]).Ok? then [FitModel(m, solve, mu, obs, names[i]).value] else [])
  {
    assert names[..i + 1][..i] == names[..i];
  }

  /** `fit_all_models`: every law of the catalogue is fitted in turn, failures
      are skipped, and the successes are ranked by R^2, highest first. The
      ranking holds every success once, at most one per law, and nothing
      else. */
  method FitAllModels(m: Maths, solve: Solver, mu: seq<real>, obs: seq<real>)
    returns (ranked: seq<FitResult>)
    ensures ranked == RankByRSquared(Successes(m, solve, mu, obs, ModelNames))
    ensures RankedByRSquared(ranked)
    ensures |ranked| <= |ModelNames|
    ensures DistinctModels(ranked)
    ensures forall r :: r in ranked ==>
      exists n :: n in ModelNames && FitModel(m, solve, mu, obs, n) == Ok(r)
    ensures forall n :: n in ModelNames && FitModel(m, solve, mu, obs, n).Ok? ==>
      FitModel(m, solve, mu, obs, n).value in ranked
  {
    var results := CollectSuccesses(m, solve, mu, obs);
    ranked := RankByRSquared(results);
    RankingOfSuccesses(m, solve, mu, obs);
  }
}
