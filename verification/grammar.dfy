/**
 * A reference semantics for the parser: arithmetic expressions as trees that
 * follow the grammar (left-nested, so both levels associate to the left),
 * their exact real value, and the token list that writes each tree out.
 * The round-trip lemmas show that the parser gives every such list the
 * tree's value, so `*` and `/` bind tighter than `+` and `-`.
 */
module Grammar {
  import opened Definitions
  import opened ExtNumber
  import opened Tokens
  import opened FormulaParser

  datatype Expression =
    | Single(term: Term)
    | AddTerm(left: Expression, right: Term)
    | SubTerm(left: Expression, right: Term)

  datatype Term =
    | Atom(factor: Factor)
    | MulFactor(left: Term, right: Factor)
    | DivFactor(left: Term, right: Factor)

  datatype Factor = Number(v: real) | Group(inner: Expression)

  function SizeE(e: Expression): nat {
    match e
    case Single(t) => SizeT(t) + 1
    case AddTerm(l, t) => SizeE(l) + SizeT(t) + 1
    case SubTerm(l, t) => SizeE(l) + SizeT(t) + 1
  }

  function SizeT(t: Term): nat {
    match t
    case Atom(f) => SizeF(f) + 1
    case MulFactor(l, f) => SizeT(l) + SizeF(f) + 1
    case DivFactor(l, f) => SizeT(l) + SizeF(f) + 1
  }

  function SizeF(f: Factor): nat {
    match f
    case Number(_) => 1
    case Group(e) => SizeE(e) + 1
  }

  /** No divisor anywhere in the tree evaluates to zero. */
  predicate NoZeroDivisorE(e: Expression) {
    match e
    case Single(t) => NoZeroDivisorT(t)
    case AddTerm(l, t) => NoZeroDivisorE(l) && NoZeroDivisorT(t)
    case SubTerm(l, t) => NoZeroDivisorE(l) && NoZeroDivisorT(t)
  }

  predicate NoZeroDivisorT(t: Term) {
    match t
    case Atom(f) => NoZeroDivisorF(f)
    case MulFactor(l, f) => NoZeroDivisorT(l) && NoZeroDivisorF(f)
    case DivFactor(l, f) => NoZeroDivisorT(l) && NoZeroDivisorF(f) && EvalF(f) != 0.0
  }

  predicate NoZeroDivisorF(f: Factor) {
    match f
    case Number(_) => true
    case Group(e) => NoZeroDivisorE(e)
  }

  /** The exact value of a tree; a zero divisor is given the value 0 here
      and is excluded wherever the value matters. */
  function EvalE(e: Expression): real {
    match e
    case Single(t) => EvalT(t)
    case AddTerm(l, t) => EvalE(l) + EvalT(t)
    case SubTerm(l, t) => EvalE(l) - EvalT(t)
  }

  function EvalT(t: Term): real {
    match t
    case Atom(f) => EvalF(f)
    case MulFactor(l, f) => EvalT(l) * EvalF(f)
    case DivFactor(l, f) => if EvalF(f) == 0.0 then 0.0 else EvalT(l) / EvalF(f)
  }

  function EvalF(f: Factor): real {
    match f
    case Number(v) => v
    case Group(e) => EvalE(e)
  }

  /** The token list of a tree: parentheses only where the tree has a group. */
  function UnparseE(e: Expression): seq<Token> {
    match e
    case Single(t) => UnparseT(t)
    case AddTerm(l, t) => UnparseE(l) + [Op(Plus)] + UnparseT(t)
    case SubTerm(l, t) => UnparseE(l) + [Op(Minus)] + UnparseT(t)
  }

  function UnparseT(t: Term): seq<Token> {
    match t
    case Atom(f) => UnparseF(f)
    case MulFactor(l, f) => UnparseT(l) + [Op(Times)] + UnparseF(f)
    case DivFactor(l, f) => UnparseT(l) + [Op(Divide)] + UnparseF(f)
  }

  function UnparseF(f: Factor): seq<Token> {
    match f
    case Number(v) => [Num(v)]
    case Group(e) => [LParen] + UnparseE(e) + [RParen]
  }

  /** `u` sits in `ts` starting at position `i`. */
  predicate Occurs(ts: seq<Token>, i: nat, u: seq<Token>) {
    i + |u| <= |ts| && forall k :: 0 <= k < |u| ==> ts[i + k] == u[k]
  }

  lemma OccursSplit(ts: seq<Token>, i: nat, a: seq<Token>, b: seq<Token>)
    requires Occurs(ts, i, a + b)
    ensures Occurs(ts, i, a) && Occurs(ts, i + |a|, b)
  {
    forall k | 0 <= k < |a| ensures ts[i + k] == a[k] {
      assert (a + b)[k] == a[k];
    }
    forall k | 0 <= k < |b| ensures ts[i + |a| + k] == b[k] {
      assert (a + b)[|a| + k] == b[k];
    }
  }

  lemma OccursAt(ts: seq<Token>, i: nat, u: seq<Token>, k: nat)
    requires Occurs(ts, i, u)
    requires k < |u|
    ensures ts[i + k] == u[k]
  {
  }

  /** Where a factor ends: a number factor would absorb a following number. */
  predicate FactorStop(ts: seq<Token>, m: nat) {
    m >= |ts| || !ts[m].Num?
  }

  /** Where a term ends: no number and no `*` or `/` follows. */
  predicate TermStop(ts: seq<Token>, m: nat) {
    FactorStop(ts, m) && !IsMultiplicative(ts, m)
  }

  /** Where an expression ends: no number and no operator follows. */
  predicate ExpressionStop(ts: seq<Token>, m: nat) {
    TermStop(ts, m) && !IsAdditive(ts, m)
  }

  /** The term loop stops on a token that is not `*` or `/`. */
  lemma TermLoopExit(ts: seq<Token>, m: nat, v: Ext)
    requires m <= |ts| && !IsMultiplicative(ts, m)
    ensures TermRest(ts, m, v) == Success(Parsed(v, m))
  {
  }

  /** The expression loop stops on a token that is not `+` or `-`. */
  lemma ExpressionLoopExit(ts: seq<Token>, m: nat, v: Ext)
    requires m <= |ts| && !IsAdditive(ts, m)
    ensures ExpressionRest(ts, m, v) == Success(Parsed(v, m))
  {
  }

  /** One turn of the term loop on `*` or `/`, given the factor after the
      operator. */
  lemma TermStep(ts: seq<Token>, k: nat, left: Ext, right: Ext, m: nat)
    requires k < |ts| && (ts[k] == Op(Times) || ts[k] == Op(Divide))
    requires ts[k] == Op(Divide) ==> right != Fin(0.0)
    requires ParseFactor(ts, k + 1) == Success(Parsed(right, m))
    ensures m <= |ts|
    ensures ts[k] == Op(Times) ==> TermRest(ts, k, left) == TermRest(ts, m, Product(left, right))
    ensures ts[k] == Op(Divide) ==> TermRest(ts, k, left) == TermRest(ts, m, Quotient(left, right))
  {
  }

  /** One turn of the expression loop on `+` or `-`, given the term after
      the operator and the term loop's exit on the token after it. */
  lemma ExpressionStep(ts: seq<Token>, k: nat, left: Ext, right: Ext, m: nat)
    requires k < |ts| && (ts[k] == Op(Plus) || ts[k] == Op(Minus))
    requires k + 1 <= m <= |ts|
    requires ParseTerm(ts, k + 1) == TermRest(ts, m, right)
    requires TermStop(ts, m)
    ensures ts[k] == Op(Plus) ==> ExpressionRest(ts, k, left) == ExpressionRest(ts, m, Sum(left, right))
    ensures ts[k] == Op(Minus) ==> ExpressionRest(ts, k, left) == ExpressionRest(ts, m, Difference(left, right))
  {
    TermLoopExit(ts, m, right);
  }

  /** The operator token between the two operands of a compound term. */
  function TermOperator(t: Term): Token
    requires !t.Atom?
  {
    if t.MulFactor? then Op(Times) else Op(Divide)
  }

  /** The operator token between the two operands of a compound expression. */
  function ExpressionOperator(e: Expression): Token
    requires !e.Single?
  {
    if e.AddTerm? then Op(Plus) else Op(Minus)
  }

  /** Where the pieces of a written-out group sit. */
  lemma GroupParts(f: Factor, ts: seq<Token>, i: nat)
    requires f.Group?
    requires Occurs(ts, i, UnparseF(f))
    ensures |UnparseF(f)| == |UnparseE(f.inner)| + 2
    ensures ts[i] == LParen
    ensures Occurs(ts, i + 1, UnparseE(f.inner))
    ensures ts[i + 1 + |UnparseE(f.inner)|] == RParen
  {
    OccursSplit(ts, i, [LParen] + UnparseE(f.inner), [RParen]);
    OccursSplit(ts, i, [LParen], UnparseE(f.inner));
    OccursAt(ts, i, [LParen], 0);
    OccursAt(ts, i + 1 + |UnparseE(f.inner)|, [RParen], 0);
  }

  /** Where the pieces of a written-out product or quotient sit. */
  lemma TermParts(t: Term, ts: seq<Token>, i: nat) returns (k: nat, m: nat)
    requires !t.Atom?
    requires Occurs(ts, i, UnparseT(t))
    ensures k == i + |UnparseT(t.left)| && m == i + |UnparseT(t)|
    ensures m == k + 1 + |UnparseF(t.right)| && m <= |ts|
    ensures Occurs(ts, i, UnparseT(t.left))
    ensures ts[k] == TermOperator(t)
    ensures Occurs(ts, k + 1, UnparseF(t.right))
  {
    var op := TermOperator(t);
    if t.MulFactor? {
      assert UnparseT(t) == UnparseT(t.left) + [op] + UnparseF(t.right);
    } else {
      assert UnparseT(t) == UnparseT(t.left) + [op] + UnparseF(t.right);
    }
    OccursSplit(ts, i, UnparseT(t.left) + [op], UnparseF(t.right));
    OccursSplit(ts, i, UnparseT(t.left), [op]);
    k, m := i + |UnparseT(t.left)|, i + |UnparseT(t)|;
    OccursAt(ts, k, [op], 0);
  }

  /** Where the pieces of a written-out sum or difference sit. */
  lemma ExpressionParts(e: Expression, ts: seq<Token>, i: nat) returns (k: nat, m: nat)
    requires !e.Single?
    requires Occurs(ts, i, UnparseE(e))
    ensures k == i + |UnparseE(e.left)| && m == i + |UnparseE(e)|
    ensures m == k + 1 + |UnparseT(e.right)| && m <= |ts|
    ensures Occurs(ts, i, UnparseE(e.left))
    ensures ts[k] == ExpressionOperator(e)
    ensures Occurs(ts, k + 1, UnparseT(e.right))
  {
    var op := ExpressionOperator(e);
    if e.AddTerm? {
      assert UnparseE(e) == UnparseE(e.left) + [op] + UnparseT(e.right);
    } else {
      assert UnparseE(e) == UnparseE(e.left) + [op] + UnparseT(e.right);
    }
    OccursSplit(ts, i, UnparseE(e.left) + [op], UnparseT(e.right));
    OccursSplit(ts, i, UnparseE(e.left), [op]);
    k, m := i + |UnparseE(e.left)|, i + |UnparseE(e)|;
    OccursAt(ts, k, [op], 0);
  }

  /** The value of a product or quotient term, in the parser's arithmetic. */
  lemma TermOperandValue(t: Term)
    requires !t.Atom? && NoZeroDivisorT(t)
    ensures t.MulFactor? ==> Product(Fin(EvalT(t.left)), Fin(EvalF(t.right))) == Fin(EvalT(t))
    ensures t.DivFactor? ==> Quotient(Fin(EvalT(t.left)), Fin(EvalF(t.right))) == Fin(EvalT(t))
  {
  }

  /** The value of a sum or difference, in the parser's arithmetic. */
  lemma ExpressionOperandValue(e: Expression)
    requires !e.Single?
    ensures e.AddTerm? ==> Sum(Fin(EvalE(e.left)), Fin(EvalT(e.right))) == Fin(EvalE(e))
    ensures e.SubTerm? ==> Difference(Fin(EvalE(e.left)), Fin(EvalT(e.right))) == Fin(EvalE(e))
  {
  }

  /** Parsing a written-out factor gives its value and moves the cursor
      just past it. */
  lemma {:induction false} FactorRoundTrip(f: Factor, ts: seq<Token>, i: nat)
    requires Occurs(ts, i, UnparseF(f))
    requires NoZeroDivisorF(f)
    requires FactorStop(ts, i + |UnparseF(f)|)
    ensures ParseFactor(ts, i) == Success(Parsed(Fin(EvalF(f)), i + |UnparseF(f)|))
    decreases SizeF(f), 2
  {
    match f
    case Number(v) =>
      OccursAt(ts, i, UnparseF(f), 0);
    case Group(e) =>
      var m := i + |UnparseF(f)|;
      GroupParts(f, ts, i);
      ExpressionRoundTrip(e, ts, i + 1);
      ExpressionLoopExit(ts, m - 1, Fin(EvalE(e)));
  }

  /** Parsing a written-out term reaches the term loop at the term's end with
      the term's value. */
  lemma {:induction false} TermRoundTrip(t: Term, ts: seq<Token>, i: nat)
    requires Occurs(ts, i, UnparseT(t))
    requires NoZeroDivisorT(t)
    requires FactorStop(ts, i + |UnparseT(t)|)
    ensures ParseTerm(ts, i) == TermRest(ts, i + |UnparseT(t)|, Fin(EvalT(t)))
    decreases SizeT(t), 2
  {
    if t.Atom? {
      FactorRoundTrip(t.factor, ts, i);
    } else {
      TermOperandRoundTrip(t, ts, i);
    }
  }

  lemma {:induction false} TermOperandRoundTrip(t: Term, ts: seq<Token>, i: nat)
    requires !t.Atom?
    requires Occurs(ts, i, UnparseT(t))
    requires NoZeroDivisorT(t)
    requires FactorStop(ts, i + |UnparseT(t)|)
    ensures ParseTerm(ts, i) == TermRest(ts, i + |UnparseT(t)|, Fin(EvalT(t)))
    decreases SizeT(t), 1
  {
    var k, m := TermParts(t, ts, i);
    TermRoundTrip(t.left, ts, i);
    TermTailRoundTrip(t, ts, k, m);
  }

  /** The last turn of the term loop of a written-out product or quotient,
      from the operator `k` to the end of the term. */
  lemma {:induction false} TermTailRoundTrip(t: Term, ts: seq<Token>, k: nat, m: nat)
    requires !t.Atom? && NoZeroDivisorT(t)
    requires m == k + 1 + |UnparseF(t.right)| && m <= |ts|
    requires ts[k] == TermOperator(t)
    requires Occurs(ts, k + 1, UnparseF(t.right))
    requires FactorStop(ts, m)
    ensures TermRest(ts, k, Fin(EvalT(t.left))) == TermRest(ts, m, Fin(EvalT(t)))
    decreases SizeT(t), 0
  {
    var lv, rv := Fin(EvalT(t.left)), Fin(EvalF(t.right));
    FactorRoundTrip(t.right, ts, k + 1);
    TermStep(ts, k, lv, rv, m);
    TermOperandValue(t);
  }

  /** Parsing a written-out expression reaches the expression loop at the
      expression's end with the expression's value. */
  lemma {:induction false} ExpressionRoundTrip(e: Expression, ts: seq<Token>, i: nat)
    requires Occurs(ts, i, UnparseE(e))
    requires NoZeroDivisorE(e)
    requires TermStop(ts, i + |UnparseE(e)|)
    ensures ParseExpression(ts, i) == ExpressionRest(ts, i + |UnparseE(e)|, Fin(EvalE(e)))
    decreases SizeE(e), 2
  {
    if e.Single? {
      TermRoundTrip(e.term, ts, i);
      TermLoopExit(ts, i + |UnparseE(e)|, Fin(EvalE(e)));
    } else {
      ExpressionOperandRoundTrip(e, ts, i);
    }
  }

  lemma {:induction false} ExpressionOperandRoundTrip(e: Expression, ts: seq<Token>, i: nat)
    requires !e.Single?
    requires Occurs(ts, i, UnparseE(e))
    requires NoZeroDivisorE(e)
    requires TermStop(ts, i + |UnparseE(e)|)
    ensures ParseExpression(ts, i) == ExpressionRest(ts, i + |UnparseE(e)|, Fin(EvalE(e)))
    decreases SizeE(e), 1
  {
    var k, m := ExpressionParts(e, ts, i);
    ExpressionRoundTrip(e.left, ts, i);
    ExpressionTailRoundTrip(e, ts, k, m);
  }

  /** The last turn of the expression loop of a written-out sum or
      difference, from the operator `k` to the end of the expression. */
  lemma {:induction false} ExpressionTailRoundTrip(e: Expression, ts: seq<Token>, k: nat, m: nat)
    requires !e.Single? && NoZeroDivisorE(e)
    requires m == k + 1 + |UnparseT(e.right)| && m <= |ts|
    requires ts[k] == ExpressionOperator(e)
    requires Occurs(ts, k + 1, UnparseT(e.right))
    requires TermStop(ts, m)
    ensures ExpressionRest(ts, k, Fin(EvalE(e.left))) == ExpressionRest(ts, m, Fin(EvalE(e)))
    decreases SizeE(e), 0
  {
    var lv, rv := Fin(EvalE(e.left)), Fin(EvalT(e.right));
    TermRoundTrip(e.right, ts, k + 1);
    ExpressionStep(ts, k, lv, rv, m);
    ExpressionOperandValue(e);
  }

  /** Every well-formed expression without a zero divisor, written out as
      tokens, calculates to its exact value with no error. */
  lemma CalculateRoundTrip(e: Expression)
    requires NoZeroDivisorE(e)
    ensures Calculate(UnparseE(e)) == Success(Fin(EvalE(e)))
  {
    var ts := UnparseE(e);
    ExpressionRoundTrip(e, ts, 0);
    ExpressionLoopExit(ts, |ts|, Fin(EvalE(e)));
  }

  /** A written-out expression ends in a number or `)`. */
  lemma {:induction false} UnparseEndsWell(e: Expression)
    ensures |UnparseE(e)| > 0
    ensures UnparseE(e)[|UnparseE(e)| - 1].Num? || UnparseE(e)[|UnparseE(e)| - 1] == RParen
  {
    match e
    case Single(t) => UnparseTermEndsWell(t);
    case AddTerm(_, t) => UnparseTermEndsWell(t);
    case SubTerm(_, t) => UnparseTermEndsWell(t);
  }

  lemma {:induction false} UnparseTermEndsWell(t: Term)
    ensures |UnparseT(t)| > 0
    ensures UnparseT(t)[|UnparseT(t)| - 1].Num? || UnparseT(t)[|UnparseT(t)| - 1] == RParen
  {
  }
}
