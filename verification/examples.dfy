/**
 * Concrete evaluations: the precedence and associativity of the grammar, the
 * divide-by-zero sentinel, the parenthesis and leftover-token errors, and
 * whole evaluations through a small literal environment.
 */
module Examples {
  import opened Definitions
  import opened ExtNumber
  import opened Tokens
  import opened FormulaParser
  import opened Grammar
  import opened FormulaEvaluator
  import opened EvaluatorProperties

  function N(v: real): Factor {
    Number(v)
  }

  /** `3 + 4 * 2` is 11: `*` binds tighter than `+`. */
  lemma MultiplicationBindsTighter()
    ensures Calculate([Num(3.0), Op(Plus), Num(4.0), Op(Times), Num(2.0)]) == Success(Fin(11.0))
  {
    var e := AddTerm(Single(Atom(N(3.0))), MulFactor(Atom(N(4.0)), N(2.0)));
    CalculateRoundTrip(e);
    assert UnparseE(e) == [Num(3.0), Op(Plus), Num(4.0), Op(Times), Num(2.0)];
  }

  /** `8 - 2 - 1` is 5: subtraction associates to the left. */
  lemma SubtractionAssociatesLeft()
    ensures Calculate([Num(8.0), Op(Minus), Num(2.0), Op(Minus), Num(1.0)]) == Success(Fin(5.0))
  {
    var e := SubTerm(SubTerm(Single(Atom(N(8.0))), Atom(N(2.0))), Atom(N(1.0)));
    CalculateRoundTrip(e);
    assert UnparseE(e) == [Num(8.0), Op(Minus), Num(2.0), Op(Minus), Num(1.0)];
  }

  /** `(1 + 2)` is 3. */
  lemma GroupEvaluates()
    ensures Calculate([LParen, Num(1.0), Op(Plus), Num(2.0), RParen]) == Success(Fin(3.0))
  {
    var inner := AddTerm(Single(Atom(N(1.0))), Atom(N(2.0)));
    var e := Single(Atom(Group(inner)));
    assert UnparseE(Single(Atom(N(1.0)))) == [Num(1.0)];
    assert UnparseT(Atom(N(2.0))) == [Num(2.0)];
    assert UnparseE(inner) == [Num(1.0), Op(Plus), Num(2.0)];
    assert UnparseF(Group(inner)) == [LParen, Num(1.0), Op(Plus), Num(2.0), RParen];
    CalculateRoundTrip(e);
  }

  /** `8 / 0 + 1`: the zero divisor gives +Infinity, which the addition
      keeps. */
  lemma DivisionByZeroPropagates()
    ensures Calculate([Num(8.0), Op(Divide), Num(0.0), Op(Plus), Num(1.0)]) == Success(PosInf)
  {
  }

  /** `8 / 0 * 2`: the term ends at the zero divisor, so `* 2` is left over
      and the formula is invalid. */
  lemma DivisionByZeroLeavesRest()
    ensures Calculate([Num(8.0), Op(Divide), Num(0.0), Op(Times), Num(2.0)]) == Failure(InvalidFormula)
  {
  }

  /** `0 - 8 / 0` calculates to -Infinity: the term `8 / 0` is +Infinity. */
  lemma NegativeInfinityCalculated()
    ensures Calculate([Num(0.0), Op(Minus), Num(8.0), Op(Divide), Num(0.0)]) == Success(NegInf)
  {
  }

  /** `0 - 8 / 0` gives -Infinity with no error: only +Infinity is
      remapped to divide-by-zero. */
  lemma NegativeInfinityUnreported(previous: Ext)
    ensures Evaluate(Sheet(map[]), ["0", "-", "8", "/", "0"], previous) == Outcome(NegInf, NoError)
  {
    var env := Sheet(map[]);
    var formula := ["0", "-", "8", "/", "0"];
    var ts := [Num(0.0), Op(Minus), Num(8.0), Op(Divide), Num(0.0)];
    var r := Substitute(env, formula).tokens;
    assert r[0] == Num(0.0) && r[1] == Op(Minus) && r[2] == Num(8.0);
    assert r[3] == Op(Divide) && r[4] == Num(0.0);
    assert r == ts;
    SubstitutionErrorNone(env, formula);
    TrimKeepsWellEnded(ts);
    NegativeInfinityCalculated();
  }

  /** `(1 + 2` lacks its closing parenthesis. */
  lemma UnclosedGroup()
    ensures Calculate([LParen, Num(1.0), Op(Plus), Num(2.0)]) == Failure(MissingParentheses)
  {
  }

  /** `3 4`: a number directly followed by another is read as one factor,
      and the two values are added. */
  lemma AdjacentNumbersAbsorbed()
    ensures Calculate([Num(3.0), Num(4.0)]) == Success(Fin(7.0))
  {
  }

  /** `)` cannot start a factor. */
  lemma StrayClosingParenthesis()
    ensures Calculate([RParen]) == Failure(InvalidFormula)
  {
  }

  /** A small sheet: the one-digit strings are numbers with their digit's
      value, and the cells are given by label. */
  function Sheet(cells: map<string, Cell>): Environment {
    Environment(
      s => |s| == 1 && '0' <= s[0] <= '9',
      s => if |s| == 1 && '0' <= s[0] <= '9' then Fin((s[0] as int - '0' as int) as real) else NaN,
      s => s in cells,
      s => if s in cells then cells[s] else Cell([], NoError, Fin(0.0)))
  }

  /** A cell holding the formula `10` with value 10 and no error. */
  function GoodCell(): Cell {
    Cell(["10"], NoError, Fin(10.0))
  }

  /** A cell that reports divide-by-zero, with the +Infinity it computed. */
  function BadCell(): Cell {
    Cell(["1", "/", "0"], DivideByZero, PosInf)
  }

  /** The substituted tokens of a three-token formula. */
  lemma SubstituteThree(env: Environment, a: string, b: string, c: string)
    ensures Substitute(env, [a, b, c]).tokens == [SubstituteToken(env, a), SubstituteToken(env, b), SubstituteToken(env, c)]
  {
    var r := Substitute(env, [a, b, c]).tokens;
    assert r[0] == SubstituteToken(env, a) && r[1] == SubstituteToken(env, b) && r[2] == SubstituteToken(env, c);
  }

  /** `A1 + 5` with A1 holding 10 gives 15 with no error. */
  lemma ReferenceEvaluates(previous: Ext)
    ensures Evaluate(Sheet(map["A1" := GoodCell()]), ["A1", "+", "5"], previous) == Outcome(Fin(15.0), NoError)
  {
    var env := Sheet(map["A1" := GoodCell()]);
    var formula := ["A1", "+", "5"];
    var e := AddTerm(Single(Atom(N(10.0))), Atom(N(5.0)));
    SubstituteThree(env, "A1", "+", "5");
    assert SubstituteToken(env, "A1") == Num(10.0);
    assert SubstituteToken(env, "+") == Op(Plus);
    assert SubstituteToken(env, "5") == Num(5.0);
    assert Substitute(env, formula).tokens == UnparseE(e);
    assert IsLastReference(env, formula, 0);
    SubstitutionErrorLast(env, formula, 0);
    EvaluateWellFormed(env, formula, previous, e);
  }

  /** `8 / 0` gives +Infinity and divide-by-zero. */
  lemma DivideByZeroReported(previous: Ext)
    ensures Evaluate(Sheet(map[]), ["8", "/", "0"], previous) == Outcome(PosInf, DivideByZero)
  {
    var env := Sheet(map[]);
    SubstituteThree(env, "8", "/", "0");
    assert SubstituteToken(env, "8") == Num(8.0);
    assert SubstituteToken(env, "/") == Op(Divide);
    assert SubstituteToken(env, "0") == Num(0.0);
    TrimKeepsWellEnded([Num(8.0), Op(Divide), Num(0.0)]);
    assert Calculate([Num(8.0), Op(Divide), Num(0.0)]) == Success(PosInf);
  }

  /** `3 +`: the trailing operator is removed, the rest evaluates, and the
      error is invalid-formula. */
  lemma TrailingOperatorRepaired(previous: Ext)
    ensures Evaluate(Sheet(map[]), ["3", "+"], previous) == Outcome(Fin(3.0), InvalidFormula)
  {
    var env := Sheet(map[]);
    var e := Single(Atom(N(3.0)));
    assert SubstituteToken(env, "3") == Num(3.0);
    assert SubstituteToken(env, "+") == Op(Plus);
    assert Substitute(env, ["3", "+"]).tokens == [Num(3.0), Op(Plus)];
    EvaluateRepairsTrailing(env, ["3", "+"], previous, e);
  }

  /** `a + b` with two cell references that read as finite values (a cell
      that reports an error always reads as 0): whatever error `a`'s cell
      reports, an error-free `b` overwrites it, and the formula reports no
      error. */
  lemma LaterReferenceMasksError(env: Environment, a: string, b: string, previous: Ext)
    requires IsReference(env, a) && IsReference(env, b)
    requires ReadCell(env, a).value.Fin? && ReadCell(env, b).value.Fin?
    requires ReadCell(env, b).error == NoError
    requires !env.isNumber("+") && !env.isCellReference("+")
    ensures Evaluate(env, [a, "+", b], previous) ==
              Outcome(Fin(ReadCell(env, a).value.x + ReadCell(env, b).value.x), NoError)
  {
    var formula := [a, "+", b];
    var x, y := ReadCell(env, a).value.x, ReadCell(env, b).value.x;
    var e := AddTerm(Single(Atom(Number(x))), Atom(Number(y)));
    assert UnparseF(Number(x)) == [Num(x)] && UnparseT(Atom(Number(x))) == [Num(x)];
    assert UnparseE(Single(Atom(Number(x)))) == [Num(x)];
    assert UnparseT(Atom(Number(y))) == [Num(y)];
    SubstituteThree(env, a, "+", b);
    assert SubstituteToken(env, "+") == Op(Plus);
    assert UnparseE(e) == [Num(x), Op(Plus), Num(y)];
    assert EvalT(Atom(Number(x))) == x;
    assert EvalT(Atom(Number(y))) == y;
    assert EvalE(e) == x + y;
    assert Substitute(env, formula).tokens == UnparseE(e);
    assert IsLastReference(env, formula, 2);
    SubstitutionErrorLast(env, formula, 2);
    EvaluateWellFormed(env, formula, previous, e);
  }

  /** The same on a concrete sheet: B1 reports divide-by-zero, A1 holds 10,
      and `B1 + A1` reports 10 with no error. */
  lemma LaterReferenceMasksErrorOnSheet(previous: Ext)
    ensures Evaluate(Sheet(map["A1" := GoodCell(), "B1" := BadCell()]), ["B1", "+", "A1"], previous) ==
              Outcome(Fin(10.0), NoError)
  {
    var env := Sheet(map["A1" := GoodCell(), "B1" := BadCell()]);
    assert ReadCell(env, "B1") == CellReading(Fin(0.0), DivideByZero);
    assert ReadCell(env, "A1") == CellReading(Fin(10.0), NoError);
    LaterReferenceMasksError(env, "B1", "A1", previous);
  }

  /** The empty formula: 0 and empty-formula, whatever came before. */
  lemma EmptyFormulaReported(env: Environment, previous: Ext)
    ensures Evaluate(env, [], previous) == Outcome(Fin(0.0), EmptyFormula)
  {
  }
}
