/**
 * What a whole evaluation reports, stated against the reference grammar: a
 * formula that substitutes to a well-formed expression evaluates to the
 * expression's value with the substitution's error, an operator or `(`
 * suffix is repaired with invalid-formula, and a +Infinity left by a previous
 * call turns any parser failure into divide-by-zero.
 */
module EvaluatorProperties {
  import opened Definitions
  import opened ExtNumber
  import opened Tokens
  import opened FormulaParser
  import opened Grammar
  import opened FormulaEvaluator

  /** The repair removes a token exactly when the substituted formula's last
      token ends in `+ - * / (`. */
  lemma TrimmedIffInvalidEnding(env: Environment, formula: seq<string>)
    ensures Trimmed(env, formula) <==>
              |formula| > 0 && EndsInvalid(SubstituteToken(env, formula[|formula| - 1]))
  {
    var ts := Substitute(env, formula).tokens;
    if |formula| > 0 && !EndsInvalid(ts[|ts| - 1]) {
      assert ts == ts[..|ts|];
      TrimTrailingUnique(ts, ts);
    }
  }

  /** A list that already ends in a number or `)` passes the repair
      unchanged. */
  lemma TrimKeepsWellEnded(ts: seq<Token>)
    requires |ts| > 0 && (ts[|ts| - 1].Num? || ts[|ts| - 1] == RParen)
    ensures TrimTrailing(ts) == ts
  {
    EndsInvalidSymbols(ts[|ts| - 1]);
    assert ts == ts[..|ts|];
    TrimTrailingUnique(ts, ts);
  }

  /** A formula whose substituted tokens write out an expression without a
      zero divisor evaluates to the expression's exact value, and the error
      is the one the substitution pass left. */
  lemma EvaluateWellFormed(env: Environment, formula: seq<string>, previous: Ext, e: Expression)
    requires NoZeroDivisorE(e)
    requires Substitute(env, formula).tokens == UnparseE(e)
    ensures Evaluate(env, formula, previous) == Outcome(Fin(EvalE(e)), Substitute(env, formula).error)
  {
    UnparseEndsWell(e);
    TrimKeepsWellEnded(UnparseE(e));
    CalculateRoundTrip(e);
  }

  /** A well-formed expression followed by operator or `(` tokens is
      repaired to the expression: the result is its value and the error is
      invalid-formula. */
  lemma EvaluateRepairsTrailing(env: Environment, formula: seq<string>, previous: Ext, e: Expression)
    requires NoZeroDivisorE(e)
    requires |UnparseE(e)| < |formula|
    requires Substitute(env, formula).tokens[..|UnparseE(e)|] == UnparseE(e)
    requires forall k :: |UnparseE(e)| <= k < |formula| ==> EndsInvalid(SubstituteToken(env, formula[k]))
    ensures Evaluate(env, formula, previous) == Outcome(Fin(EvalE(e)), InvalidFormula)
  {
    var ts := Substitute(env, formula).tokens;
    var u := UnparseE(e);
    UnparseEndsWell(e);
    EndsInvalidSymbols(u[|u| - 1]);
    assert u[|u| - 1] == ts[|u| - 1];
    TrimTrailingUnique(ts, u);
    CalculateRoundTrip(e);
  }

  /** A +Infinity left by the previous call survives a parser failure and is
      then remapped: the formula's own error is replaced by divide-by-zero. */
  lemma StaleInfinityMasksParseError(env: Environment, formula: seq<string>)
    requires |formula| > 0 && Parse(env, formula).Failure?
    ensures Evaluate(env, formula, PosInf) == Outcome(PosInf, DivideByZero)
  {
  }

  /** Only +Infinity is remapped: a result of -Infinity reports the error of
      the earlier steps, which is divide-by-zero only if a referenced cell
      reported it. */
  lemma NegativeInfinityNotRemapped(env: Environment, formula: seq<string>, previous: Ext)
    requires |formula| > 0 && Evaluate(env, formula, previous).result == NegInf
    requires !HasReference(env, formula)
    ensures Evaluate(env, formula, previous).error != DivideByZero
  {
    SubstitutionErrorNone(env, formula);
  }

  /** Evaluating a formula again, with the cells unchanged and the first
      outcome's result as the previous one, gives the same outcome. */
  lemma EvaluateIdempotent(env: Environment, formula: seq<string>, previous: Ext)
    ensures var first := Evaluate(env, formula, previous);
            Evaluate(env, formula, first.result) == first
  {
  }

  /** A cell reference that reads as +Infinity, -Infinity or NaN cannot be a
      factor: a formula made of it alone fails with invalid-formula, and the
      previous result is kept (and remapped if it is +Infinity). */
  lemma NonFiniteReadingFails(env: Environment, a: string, previous: Ext)
    requires IsReference(env, a) && !ReadCell(env, a).value.Fin?
    ensures Parse(env, [a]) == Failure(InvalidFormula)
    ensures Evaluate(env, [a], previous) ==
              if previous == PosInf then Outcome(PosInf, DivideByZero) else Outcome(previous, InvalidFormula)
  {
    var t := SubstituteToken(env, a);
    assert Substitute(env, [a]).tokens == [t];
    assert t.Other? && !EndsInvalid(t);
    assert [t] == [t][..1];
    TrimTrailingUnique([t], [t]);
    assert Repaired(env, [a]) == [t];
    ParseFactorCases([t], 0);
    assert ParseTerm([t], 0) == Failure(InvalidFormula);
    assert Calculate([t]) == Failure(InvalidFormula);
  }
}
