/**
 * The formula evaluator: the public entry point that turns a formula's raw
 * tokens into a (result, error) pair. It substitutes numbers and cell
 * references, strips an operator or `(` suffix, runs the expression
 * evaluator, and remaps a +Infinity result to divide-by-zero. Every step may
 * overwrite the error, and the last write wins.
 */
module FormulaEvaluator {
  import opened Definitions
  import opened ExtNumber
  import opened Tokens
  import opened FormulaParser

  /** What the evaluator reads from a referenced cell. */
  datatype Cell = Cell(formula: seq<string>, error: ErrorMessage, value: Ext)

  /** The collaborators the evaluator consults: whether a token is a number
      and its value, whether it is a cell label, and the cell store. */
  datatype Environment = Environment(
    isNumber: string -> bool,
    numberValue: string -> Ext,
    isCellReference: string -> bool,
    cellByLabel: string -> Cell)

  datatype CellReading = CellReading(value: Ext, error: ErrorMessage)

  /** A referenced cell's contribution: its error if it holds one other than
      empty-formula, else invalid-cell if its formula is empty, else its
      value with no error. */
  function GetCellValue(cell: Cell): (r: CellReading)
    ensures cell.error != NoError && cell.error != EmptyFormula ==> r == CellReading(Fin(0.0), cell.error)
    ensures (cell.error == NoError || cell.error == EmptyFormula) && |cell.formula| == 0 ==>
              r == CellReading(Fin(0.0), InvalidCell)
    ensures (cell.error == NoError || cell.error == EmptyFormula) && |cell.formula| > 0 ==>
              r == CellReading(cell.value, NoError)
  {
    if cell.error != NoError && cell.error != EmptyFormula then CellReading(Fin(0.0), cell.error)
    else if |cell.formula| == 0 then CellReading(Fin(0.0), InvalidCell)
    else CellReading(cell.value, NoError)
  }

  /** A reading reports no error exactly when the cell is usable, and a
      reading that reports an error contributes 0. */
  lemma GetCellValueReportsUsable(cell: Cell)
    ensures GetCellValue(cell).error == NoError <==>
              (cell.error == NoError || cell.error == EmptyFormula) && |cell.formula| > 0
    ensures GetCellValue(cell).error != NoError ==> GetCellValue(cell).value == Fin(0.0)
  {
  }

  /** A token resolved through the cell store: not a number, but a label.
      Numbers are recognised first. */
  predicate IsReference(env: Environment, s: string) {
    !env.isNumber(s) && env.isCellReference(s)
  }

  function ReadCell(env: Environment, name: string): CellReading {
    GetCellValue(env.cellByLabel(name))
  }

  /** The substituted form of one raw token. */
  function SubstituteToken(env: Environment, s: string): (t: Token)
    ensures env.isNumber(s) ==> t == NumberToken(env.numberValue(s))
    ensures IsReference(env, s) ==> t == NumberToken(ReadCell(env, s).value)
    ensures !env.isNumber(s) && !env.isCellReference(s) ==> !t.Num? && Text(t) == s
  {
    if env.isNumber(s) then NumberToken(env.numberValue(s))
    else if env.isCellReference(s) then NumberToken(ReadCell(env, s).value)
    else Classify(s)
  }

  /** Position `k` holds the last cell reference of the formula. */
  predicate IsLastReference(env: Environment, formula: seq<string>, k: int) {
    0 <= k < |formula| && IsReference(env, formula[k]) &&
    forall j :: k < j < |formula| ==> !IsReference(env, formula[j])
  }

  predicate HasReference(env: Environment, formula: seq<string>) {
    exists k :: 0 <= k < |formula| && IsReference(env, formula[k])
  }

  datatype Substitution = Substitution(tokens: seq<Token>, error: ErrorMessage)

  /** The substitution pass: token by token, in order, and the error slot
      as the pass leaves it, each cell reference overwriting the error of
      the one before. Defined on the formula's prefix, so that the last
      token is the last one processed. */
  function Substitute(env: Environment, formula: seq<string>): (r: Substitution)
    ensures |r.tokens| == |formula|
    ensures forall k :: 0 <= k < |formula| ==> r.tokens[k] == SubstituteToken(env, formula[k])
    decreases |formula|
  {
    if |formula| == 0 then Substitution([], NoError)
    else
      var init := formula[..|formula| - 1];
      var last := formula[|formula| - 1];
      var prefix := Substitute(env, init);
      Substitution(
        prefix.tokens + [SubstituteToken(env, last)],
        if IsReference(env, last) then ReadCell(env, last).error else prefix.error)
  }

  /** One step of the substitution pass on the formula's last token. */
  lemma SubstituteStep(env: Environment, formula: seq<string>)
    requires |formula| > 0
    ensures Substitute(env, formula).error ==
              if IsReference(env, formula[|formula| - 1]) then ReadCell(env, formula[|formula| - 1]).error
              else Substitute(env, formula[..|formula| - 1]).error
  {
  }

  /** The last reference of a formula that does not end in one is the last
      reference of its prefix. */
  lemma LastReferenceOfPrefix(env: Environment, formula: seq<string>, k: int)
    requires |formula| > 0 && !IsReference(env, formula[|formula| - 1])
    requires IsLastReference(env, formula, k)
    ensures IsLastReference(env, formula[..|formula| - 1], k)
  {
    var init := formula[..|formula| - 1];
    assert forall j :: k < j < |init| ==> init[j] == formula[j];
  }

  /** A formula without references has a prefix without references. */
  lemma NoReferenceInPrefix(env: Environment, formula: seq<string>)
    requires |formula| > 0 && !HasReference(env, formula)
    ensures !HasReference(env, formula[..|formula| - 1])
  {
  }

  /** With no cell reference, the substitution pass leaves no error. */
  lemma {:induction false} SubstitutionErrorNone(env: Environment, formula: seq<string>)
    requires !HasReference(env, formula)
    ensures Substitute(env, formula).error == NoError
    decreases |formula|
  {
    if |formula| > 0 {
      NoReferenceInPrefix(env, formula);
      SubstitutionErrorNone(env, formula[..|formula| - 1]);
      SubstituteStep(env, formula);
    }
  }

  /** The substitution pass leaves the error of the last cell reference;
      earlier references are overwritten. */
  lemma {:induction false} SubstitutionErrorLast(env: Environment, formula: seq<string>, k: int)
    requires IsLastReference(env, formula, k)
    ensures Substitute(env, formula).error == ReadCell(env, formula[k]).error
    decreases |formula|
  {
    var n := |formula| - 1;
    SubstituteStep(env, formula);
    if k < n {
      LastReferenceOfPrefix(env, formula, k);
      SubstitutionErrorLast(env, formula[..n], k);
    }
  }

  /** The trailing repair: drops tokens from the end while the last one ends
      in `+ - * / (`. The result is a prefix, ends in a token that may end a
      formula, and every dropped token is one that may not. */
  function TrimTrailing(ts: seq<Token>): (r: seq<Token>)
    ensures |r| <= |ts| && r == ts[..|r|]
    ensures |r| == 0 || !EndsInvalid(r[|r| - 1])
    ensures forall k :: |r| <= k < |ts| ==> EndsInvalid(ts[k])
    decreases |ts|
  {
    if |ts| > 0 && EndsInvalid(ts[|ts| - 1]) then TrimTrailing(ts[..|ts| - 1]) else ts
  }

  /** The trimmed list is the only prefix with those three properties: the
      repair removes exactly the maximal invalid suffix. */
  lemma TrimTrailingUnique(ts: seq<Token>, p: seq<Token>)
    requires |p| <= |ts| && p == ts[..|p|]
    requires |p| == 0 || !EndsInvalid(p[|p| - 1])
    requires forall k :: |p| <= k < |ts| ==> EndsInvalid(ts[k])
    ensures p == TrimTrailing(ts)
  {
  }

  /** The result of one evaluation: the result is always present, even when
      an error is reported. */
  datatype Outcome = Outcome(result: Ext, error: ErrorMessage)

  /** The substituted and repaired token list handed to the parser. */
  function Repaired(env: Environment, formula: seq<string>): seq<Token> {
    TrimTrailing(Substitute(env, formula).tokens)
  }

  /** Whether the repair removed at least one token. */
  predicate Trimmed(env: Environment, formula: seq<string>) {
    |Repaired(env, formula)| < |formula|
  }

  function Parse(env: Environment, formula: seq<string>): Result<Ext> {
    Calculate(Repaired(env, formula))
  }

  /** Evaluates a formula, given the result left by the previous call (the
      source keeps it when the parser fails). */
  function Evaluate(env: Environment, formula: seq<string>, previous: Ext): (r: Outcome)
    ensures |formula| == 0 ==> r == Outcome(Fin(0.0), EmptyFormula)
    ensures |formula| > 0 && Parse(env, formula).Success? ==> r.result == Parse(env, formula).value
    ensures |formula| > 0 && Parse(env, formula).Failure? ==> r.result == previous
    ensures |formula| > 0 && r.result == PosInf ==> r.error == DivideByZero
    ensures |formula| > 0 && r.result != PosInf && Parse(env, formula).Failure? ==>
              r.error == Parse(env, formula).error
    ensures |formula| > 0 && r.result != PosInf && Parse(env, formula).Success? && Trimmed(env, formula) ==>
              r.error == InvalidFormula
    ensures |formula| > 0 && r.result != PosInf && Parse(env, formula).Success? && !Trimmed(env, formula) ==>
              r.error == Substitute(env, formula).error
  {
    if |formula| == 0 then Outcome(Fin(0.0), EmptyFormula)
    else
      var substituted := Substitute(env, formula);
      var tokens := TrimTrailing(substituted.tokens);
      var error := if |tokens| < |substituted.tokens| then InvalidFormula else substituted.error;
      var outcome :=
        match Calculate(tokens)
        case Success(v) => Outcome(v, error)
        case Failure(e) => Outcome(previous, e);
      if outcome.result == PosInf then Outcome(PosInf, DivideByZero) else outcome
  }

  /** The writes to the error slot that the substitution pass performs, one
      per token: the cell's error for a reference, none otherwise. */
  function CellWrites(env: Environment, formula: seq<string>): (ws: seq<Option<ErrorMessage>>)
    ensures |ws| == |formula|
  {
    seq(|formula|, k requires 0 <= k < |formula| =>
      if IsReference(env, formula[k]) then Some(ReadCell(env, formula[k]).error) else None)
  }

  /** The writes of the later steps, in order: the repair, the parser's
      failure and the infinity check. */
  function StageWrites(env: Environment, formula: seq<string>, previous: Ext): seq<Option<ErrorMessage>> {
    var parsed := Parse(env, formula);
    var result := if parsed.Success? then parsed.value else previous;
    [ if Trimmed(env, formula) then Some(InvalidFormula) else None,
      if parsed.Failure? then Some(parsed.error) else None,
      if result == PosInf then Some(DivideByZero) else None ]
  }

  /** The error slot after a sequence of writes: the last write, or
      `initial` if nothing was written. */
  function LastWrite(initial: ErrorMessage, ws: seq<Option<ErrorMessage>>): ErrorMessage
    decreases |ws|
  {
    if |ws| == 0 then initial
    else if ws[|ws| - 1].Some? then ws[|ws| - 1].value
    else LastWrite(initial, ws[..|ws| - 1])
  }

  /** Writing `a` and then `b` leaves what writing `b` over `a`'s outcome
      leaves. */
  lemma {:induction false} LastWriteAppend(initial: ErrorMessage, a: seq<Option<ErrorMessage>>, b: seq<Option<ErrorMessage>>)
    ensures LastWrite(initial, a + b) == LastWrite(LastWrite(initial, a), b)
    decreases |b|
  {
    if |b| == 0 {
      assert a + b == a;
    } else {
      assert (a + b)[..|a + b| - 1] == a + b[..|b| - 1];
      LastWriteAppend(initial, a, b[..|b| - 1]);
    }
  }

  lemma LastWriteThree(initial: ErrorMessage, a: Option<ErrorMessage>, b: Option<ErrorMessage>, c: Option<ErrorMessage>)
    ensures LastWrite(initial, [a, b, c]) ==
              if c.Some? then c.value else if b.Some? then b.value else if a.Some? then a.value else initial
  {
    assert [a][..0] == [];
    assert LastWrite(initial, [a]) == if a.Some? then a.value else initial;
    assert [a, b][..1] == [a];
    assert LastWrite(initial, [a, b]) == if b.Some? then b.value else LastWrite(initial, [a]);
    assert [a, b, c][..2] == [a, b];
  }

  lemma {:induction false} SubstitutionErrorIsLastWrite(env: Environment, formula: seq<string>)
    ensures Substitute(env, formula).error == LastWrite(NoError, CellWrites(env, formula))
    decreases |formula|
  {
    if |formula| > 0 {
      var init := formula[..|formula| - 1];
      SubstitutionErrorIsLastWrite(env, init);
      assert CellWrites(env, formula)[..|formula| - 1] == CellWrites(env, init);
    }
  }

  /** The error an evaluation reports is the last write among: each cell
      reference in order, the repair, the parser's failure and the infinity
      check. */
  lemma ErrorIsLastWrite(env: Environment, formula: seq<string>, previous: Ext)
    requires |formula| > 0
    ensures Evaluate(env, formula, previous).error ==
              LastWrite(NoError, CellWrites(env, formula) + StageWrites(env, formula, previous))
  {
    var cw, sw := CellWrites(env, formula), StageWrites(env, formula, previous);
    SubstitutionErrorIsLastWrite(env, formula);
    LastWriteAppend(NoError, cw, sw);
    LastWriteThree(Substitute(env, formula).error, sw[0], sw[1], sw[2]);
    assert sw == [sw[0], sw[1], sw[2]];
  }
}
