/**
 * The expression evaluator: recursive descent over a flat token list with a
 * single forward cursor.
 *
 *   expression := term (('+' | '-') term)*
 *   term       := factor (('*' | '/') factor)*
 *   factor     := number | '(' expression ')'
 *
 * Each parse function takes the token list and the cursor and returns the
 * value together with the cursor after it, or a classified error. Reading a
 * token moves the cursor forward even past the end of the list (where the
 * source reads `undefined`); each loop that stops on a token of another level
 * steps the cursor back so that its caller reads that token again.
 */
module FormulaParser {
  import opened Definitions
  import opened ExtNumber
  import opened Tokens

  /** A parsed value and the cursor just after it. */
  datatype Parsed = Parsed(value: Ext, next: nat)

  /** Tokens still ahead of cursor `i`; none once it has passed the end. */
  function Remaining(ts: seq<Token>, i: nat): nat {
    if i <= |ts| then |ts| - i else 0
  }

  predicate TokenIs(ts: seq<Token>, i: nat, t: Token) {
    i < |ts| && ts[i] == t
  }

  predicate IsAdditive(ts: seq<Token>, i: nat) {
    TokenIs(ts, i, Op(Plus)) || TokenIs(ts, i, Op(Minus))
  }

  predicate IsMultiplicative(ts: seq<Token>, i: nat) {
    TokenIs(ts, i, Op(Times)) || TokenIs(ts, i, Op(Divide))
  }

  /** A successful parse starting at `i` consumed at least one token and
      left the cursor inside the list or just at its end. */
  predicate Advances(ts: seq<Token>, i: nat, r: Result<Parsed>) {
    r.Success? ==> i < r.value.next <= |ts|
  }

  /** The sum of the values of a run of number tokens. */
  function RunTotal(run: seq<Token>): real {
    if |run| == 0 then 0.0
    else (if run[0].Num? then run[0].value else 0.0) + RunTotal(run[1..])
  }

  /** The inner loop of the numeric branch of a factor: every token from `j`
      on that is a number is read and added to `total` (the substituted list
      holds numbers, so the source's `+=` adds them). Returns the total and
      the cursor after the run. */
  function AbsorbNumbers(ts: seq<Token>, j: nat, total: real): (r: (real, nat))
    requires j <= |ts|
    ensures j <= r.1 <= |ts|
    ensures forall k :: j <= k < r.1 ==> ts[k].Num?
    ensures r.1 == |ts| || !ts[r.1].Num?
    ensures r.0 == total + RunTotal(ts[j..r.1])
    decreases |ts| - j
  {
    if j < |ts| && ts[j].Num? then
      var r := AbsorbNumbers(ts, j + 1, total + ts[j].value);
      assert ts[j..r.1][1..] == ts[j + 1..r.1];
      r
    else
      (total, j)
  }

  /** factor := number | '(' expression ')'. An opening parenthesis must be
      followed by an expression and then `)`, else the factor fails with
      missing-parentheses; any other token, or the end of the list, fails
      with invalid-formula. */
  function ParseFactor(ts: seq<Token>, i: nat): (r: Result<Parsed>)
    ensures Advances(ts, i, r)
    ensures r.Failure? ==> IsParseError(r.error)
    ensures r.Success? ==> ts[i].Num? || ts[i] == LParen
    ensures r.Success? && ts[i] == LParen ==> ts[r.value.next - 1] == RParen
    decreases Remaining(ts, i), 0
  {
    if TokenIs(ts, i, LParen) then
      match ParseExpression(ts, i + 1)
      case Failure(e) => Failure(e)
      case Success(inner) =>
        if TokenIs(ts, inner.next, RParen) then Success(Parsed(inner.value, inner.next + 1))
        else Failure(MissingParentheses)
    else if i < |ts| && ts[i].Num? then
      var (total, end) := AbsorbNumbers(ts, i + 1, ts[i].value);
      Success(Parsed(Fin(total), end))
    else
      Failure(InvalidFormula)
  }

  /** The three outcomes of a factor: a number absorbs the maximal run of
      numbers after it and adds their values; `(` followed by an expression
      that is not followed by `)` (also at the end of the list) fails with
      missing-parentheses; any other token, or the end of the list, fails
      with invalid-formula. */
  lemma ParseFactorCases(ts: seq<Token>, i: nat)
    ensures i < |ts| && ts[i].Num? ==>
              var r := ParseFactor(ts, i);
              r.Success? && (r.value.next == |ts| || !ts[r.value.next].Num?) &&
              (forall k :: i <= k < r.value.next ==> ts[k].Num?) &&
              r.value.value == Fin(RunTotal(ts[i..r.value.next]))
    ensures TokenIs(ts, i, LParen) && ParseExpression(ts, i + 1).Success? ==>
              (ParseFactor(ts, i).Success? <==> TokenIs(ts, ParseExpression(ts, i + 1).value.next, RParen))
    ensures TokenIs(ts, i, LParen) && ParseExpression(ts, i + 1).Success? &&
            !TokenIs(ts, ParseExpression(ts, i + 1).value.next, RParen) ==>
              ParseFactor(ts, i) == Failure(MissingParentheses)
    ensures i >= |ts| || (!ts[i].Num? && ts[i] != LParen) ==> ParseFactor(ts, i) == Failure(InvalidFormula)
  {
    if i < |ts| && ts[i].Num? {
      var (total, end) := AbsorbNumbers(ts, i + 1, ts[i].value);
      assert ts[i..end][1..] == ts[i + 1..end];
    }
  }

  /** term := factor (('*' | '/') factor)*. */
  function ParseTerm(ts: seq<Token>, i: nat): (r: Result<Parsed>)
    ensures Advances(ts, i, r)
    ensures r.Failure? ==> IsParseError(r.error)
    ensures r.Success? && IsMultiplicative(ts, r.value.next) ==> r.value.value == PosInf
    decreases Remaining(ts, i), 1
  {
    match ParseFactor(ts, i)
    case Failure(e) => Failure(e)
    case Success(f) => TermRest(ts, f.next, f.value)
  }

  /** The loop of a term, with the cursor `k` on the token that may be its
      next operator and `left` the value so far. A divisor equal to zero ends
      the term at once with +Infinity, leaving the cursor after the divisor
      and not stepping it back. */
  function TermRest(ts: seq<Token>, k: nat, left: Ext): (r: Result<Parsed>)
    requires k <= |ts|
    ensures r.Success? ==> k <= r.value.next <= |ts|
    ensures r.Failure? ==> IsParseError(r.error)
    ensures r.Success? && IsMultiplicative(ts, r.value.next) ==> r.value.value == PosInf
    decreases Remaining(ts, k), 2
  {
    if TokenIs(ts, k, Op(Times)) then
      match ParseFactor(ts, k + 1)
      case Failure(e) => Failure(e)
      case Success(f) => TermRest(ts, f.next, Product(left, f.value))
    else if TokenIs(ts, k, Op(Divide)) then
      match ParseFactor(ts, k + 1)
      case Failure(e) => Failure(e)
      case Success(f) =>
        if f.value != Fin(0.0) then TermRest(ts, f.next, Quotient(left, f.value))
        else Success(Parsed(PosInf, f.next))
    else
      Success(Parsed(left, k))
  }

  /** A `/` whose divisor is zero ends the term at once with +Infinity: the
      cursor stays just after the divisor, whatever follows it, and the rest
      of the term is not read. */
  lemma ZeroDivisorEndsTerm(ts: seq<Token>, k: nat, left: Ext, m: nat)
    requires TokenIs(ts, k, Op(Divide))
    requires ParseFactor(ts, k + 1) == Success(Parsed(Fin(0.0), m))
    ensures TermRest(ts, k, left) == Success(Parsed(PosInf, m))
  {
  }

  /** expression := term (('+' | '-') term)*. */
  function ParseExpression(ts: seq<Token>, i: nat): (r: Result<Parsed>)
    ensures Advances(ts, i, r)
    ensures r.Failure? ==> IsParseError(r.error)
    ensures r.Success? ==> !IsAdditive(ts, r.value.next)
    decreases Remaining(ts, i), 3
  {
    match ParseTerm(ts, i)
    case Failure(e) => Failure(e)
    case Success(t) => ExpressionRest(ts, t.next, t.value)
  }

  /** The loop of an expression, with the cursor `k` on the token that may
      be its next operator and `left` the value so far. */
  function ExpressionRest(ts: seq<Token>, k: nat, left: Ext): (r: Result<Parsed>)
    requires k <= |ts|
    ensures r.Success? ==> k <= r.value.next <= |ts|
    ensures r.Failure? ==> IsParseError(r.error)
    ensures r.Success? ==> !IsAdditive(ts, r.value.next)
    decreases Remaining(ts, k), 4
  {
    if TokenIs(ts, k, Op(Plus)) then
      match ParseTerm(ts, k + 1)
      case Failure(e) => Failure(e)
      case Success(t) => ExpressionRest(ts, t.next, Sum(left, t.value))
    else if TokenIs(ts, k, Op(Minus)) then
      match ParseTerm(ts, k + 1)
      case Failure(e) => Failure(e)
      case Success(t) => ExpressionRest(ts, t.next, Difference(left, t.value))
    else
      Success(Parsed(left, k))
  }

  /** Parses the whole list: a value only when one expression consumed every
      token; leftover tokens fail with invalid-formula. */
  function Calculate(ts: seq<Token>): (r: Result<Ext>)
    ensures r.Failure? ==> IsParseError(r.error)
    ensures r.Success? <==> ParseExpression(ts, 0).Success? && ParseExpression(ts, 0).value.next == |ts|
    ensures r.Success? ==> r.value == ParseExpression(ts, 0).value.value
    ensures ParseExpression(ts, 0).Success? && ParseExpression(ts, 0).value.next != |ts| ==>
              r == Failure(InvalidFormula)
  {
    match ParseExpression(ts, 0)
    case Failure(e) => Failure(e)
    case Success(p) => if p.next == |ts| then Success(p.value) else Failure(InvalidFormula)
  }
}
