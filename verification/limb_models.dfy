/** The catalogue of limb-darkening laws: five closed-form expressions for the
    intensity ratio I(mu)/I(1), the name-keyed tables that select a law and
    its initial coefficients, and the formula string shown for each law. */
module LimbModels {
  import opened Numerics

  /** `I(mu)/I(1) = 1 - u (1 - mu)`. */
  function LinearLaw(mu: real, u: real): (r: real)
    ensures mu == 1.0 ==> r == 1.0
    ensures mu == 0.0 ==> r == 1.0 - u
    ensures u == 0.0 ==> r == 1.0
  {
    1.0 - u * (1.0 - mu)
  }

  /** `I(mu)/I(1) = 1 - a (1 - mu) - b (1 - mu)^2`. */
  function QuadraticLaw(mu: real, a: real, b: real): (r: real)
    ensures mu == 1.0 ==> r == 1.0
    ensures mu == 0.0 ==> r == 1.0 - a - b
    ensures a == 0.0 && b == 0.0 ==> r == 1.0
    ensures b == 0.0 ==> r == LinearLaw(mu, a)
  {
    1.0 - a * (1.0 - mu) - b * Square(1.0 - mu)
  }

  /** `I(mu)/I(1) = 1 - c (1 - mu) - d (1 - sqrt(mu))`. */
  function SquareRootLaw(m: Maths, mu: real, c: real, d: real): (r: real)
    ensures c == 0.0 && d == 0.0 ==> r == 1.0
    ensures Lawful(m) && mu == 1.0 ==> r == 1.0
  {
    SqrtOne(m);
    1.0 - c * (1.0 - mu) - d * (1.0 - m.sqrt(mu))
  }

  /** The smallest argument the logarithmic law passes to the logarithm. */
  const LogFloor: real := 0.0000000001

  /** `np.clip(mu, 1e-10, 1.0)`: the logarithmic law's guard against `ln(0)`.
      A mu below the floor becomes the floor, one above 1 becomes 1, and one
      in between is kept. */
  function MuSafe(mu: real): (s: real)
    ensures LogFloor <= s <= 1.0
    ensures LogFloor <= mu <= 1.0 ==> s == mu
    ensures mu < LogFloor ==> s == LogFloor
    ensures 1.0 < mu ==> s == 1.0
  {
    if mu < LogFloor then LogFloor else if mu > 1.0 then 1.0 else mu
  }

  /** `I(mu)/I(1) = 1 - e (1 - mu) - f mu ln(mu)`, evaluated at the clamped `mu`. */
  function LogarithmicLaw(m: Maths, mu: real, e: real, f: real): (r: real)
    ensures e == 0.0 && f == 0.0 ==> r == 1.0
    ensures Lawful(m) && mu == 1.0 ==> r == 1.0
  {
    var s := MuSafe(mu);
    1.0 - e * (1.0 - s) - f * s * m.ln(s)
  }

  /** `I(mu)/I(1) = 1 - sum over k = 1..4 of a_k (1 - mu^(k/2))`. */
  function ClaretLaw(m: Maths, mu: real, a1: real, a2: real, a3: real, a4: real): (r: real)
    ensures a1 == 0.0 && a2 == 0.0 && a3 == 0.0 && a4 == 0.0 ==> r == 1.0
    ensures Lawful(m) && mu == 1.0 ==> r == 1.0
  {
    1.0 - a1 * (1.0 - m.pow(mu, 0.5)) - a2 * (1.0 - m.pow(mu, 1.0))
        - a3 * (1.0 - m.pow(mu, 1.5)) - a4 * (1.0 - m.pow(mu, 2.0))
  }

  /** The laws of the catalogue. */
  datatype Law = Linear | Quadratic | SquareRoot | Logarithmic | Claret

  /** The number of coefficients a law takes after `mu`. */
  function Arity(law: Law): (n: nat)
    ensures 1 <= n <= 4
  {
    match law
    case Linear => 1
    case Quadratic => 2
    case SquareRoot => 2
    case Logarithmic => 2
    case Claret => 4
  }

  /** Calling a law with `mu` and its coefficients unpacked, as `func(mu, *p)`.
      Every law is 1 at the centre of the disk whatever its coefficients, and
      with every coefficient zero it is the uniform disk. */
  function Evaluate(m: Maths, law: Law, mu: real, p: seq<real>): (r: real)
    requires |p| == Arity(law)
    ensures Lawful(m) && mu == 1.0 ==> r == 1.0
    ensures (forall i :: 0 <= i < |p| ==> p[i] == 0.0) ==> r == 1.0
  {
    match law
    case Linear => LinearLaw(mu, p[0])
    case Quadratic => QuadraticLaw(mu, p[0], p[1])
    case SquareRoot => SquareRootLaw(m, mu, p[0], p[1])
    case Logarithmic => LogarithmicLaw(m, mu, p[0], p[1])
    case Claret => ClaretLaw(m, mu, p[0], p[1], p[2], p[3])
  }

  /** The catalogue's names, in the order its tables list them. */
  const ModelNames: seq<string> := ["linear", "quadratic", "square-root", "logarithmic", "claret"]

  /** `MODEL_FUNCTIONS`. */
  const ModelFunctions: map<string, Law> :=
    map["linear" := Linear, "quadratic" := Quadratic, "square-root" := SquareRoot,
        "logarithmic" := Logarithmic, "claret" := Claret]

  /** `MODEL_INITIAL_GUESSES`. */
  const ModelInitialGuesses: map<string, seq<real>> :=
    map["linear" := [0.5], "quadratic" := [0.4, 0.2], "square-root" := [0.4, 0.2],
        "logarithmic" := [0.5, 0.1], "claret" := [0.5, -0.1, 0.4, -0.2]]

  /** The formula strings of `get_model_latex`. */
  const LatexStrings: map<string, string> :=
    map["linear" := @"\frac{I(\mu)}{I(1)} = 1 - u(1 - \mu)",
        "quadratic" := @"\frac{I(\mu)}{I(1)} = 1 - a(1 - \mu) - b(1 - \mu)^2",
        "square-root" := @"\frac{I(\mu)}{I(1)} = 1 - c(1 - \mu) - d(1 - \sqrt{\mu})",
        "logarithmic" := @"\frac{I(\mu)}{I(1)} = 1 - e(1 - \mu) - f \mu \ln(\mu)",
        "claret" := @"\frac{I(\mu)}{I(1)} = 1 - \sum_{k=1}^{4} a_k (1 - \mu^{k/2})"]

  /** The formula of a catalogue law, or the empty string for any other name. */
  function GetModelLatex(name: string): (r: string)
    ensures r != "" <==> name in ModelFunctions
    ensures name in ModelFunctions ==> r == LatexStrings[name]
  {
    if name in LatexStrings then LatexStrings[name] else ""
  }

  /** The two tables have the same five keys, listed by `ModelNames` without
      repetition, and each initial guess has as many entries as its law has
      coefficients. */
  lemma CatalogueConsistent()
    ensures ModelFunctions.Keys == ModelInitialGuesses.Keys == set n | n in ModelNames
    ensures |ModelNames| == 5
    ensures forall i, j :: 0 <= i < j < |ModelNames| ==> ModelNames[i] != ModelNames[j]
    ensures forall name :: name in ModelFunctions ==>
      |ModelInitialGuesses[name]| == Arity(ModelFunctions[name])
  {
  }

  /** The Claret law with only its second coefficient set is the linear law. */
  lemma ClaretReducesToLinear(m: Maths, mu: real, u: real)
    requires Lawful(m)
    ensures ClaretLaw(m, mu, 0.0, u, 0.0, 0.0) == LinearLaw(mu, u)
  {
  }

  /** The logarithmic law is flat outside [1e-10, 1]: below the floor it takes
      its value at the floor, above 1 its value at 1, which is 1. */
  lemma LogarithmicClamped(m: Maths, mu: real, e: real, f: real)
    requires Lawful(m)
    ensures mu <= LogFloor ==> LogarithmicLaw(m, mu, e, f) == LogarithmicLaw(m, LogFloor, e, f)
    ensures 1.0 <= mu ==> LogarithmicLaw(m, mu, e, f) == LogarithmicLaw(m, 1.0, e, f) == 1.0
  {
  }
}
