/**
 * Tokens of a substituted formula. The source keeps them in one loosely typed
 * array of numbers and strings; here each is tagged once, when it is built.
 */
module Tokens {
  import opened ExtNumber

  datatype Operator = Plus | Minus | Times | Divide

  /** A number, one of the six syntax symbols, or any other text fragment. */
  datatype Token =
    | Num(value: real)
    | Op(op: Operator)
    | LParen
    | RParen
    | Other(text: string)

  predicate IsSymbolText(s: string) {
    s == "+" || s == "-" || s == "*" || s == "/" || s == "(" || s == ")"
  }

  /** The text of a token that is not a number. */
  function Text(t: Token): (s: string)
    requires !t.Num?
    ensures !t.Other? ==> IsSymbolText(s)
    ensures t.Other? ==> s == t.text
  {
    match t
    case Op(Plus) => "+"
    case Op(Minus) => "-"
    case Op(Times) => "*"
    case Op(Divide) => "/"
    case LParen => "("
    case RParen => ")"
    case Other(s) => s
  }

  /** The tag of a text token that is neither a number nor a cell
      reference: the parser compares such tokens with `"("`, `")"` and the
      four operators by strict equality, so those six strings are the
      symbols and every other string stays an unrecognised fragment. */
  function Classify(s: string): (t: Token)
    ensures !t.Num?
    ensures Text(t) == s
    ensures t.Other? <==> !IsSymbolText(s)
  {
    if s == "+" then Op(Plus)
    else if s == "-" then Op(Minus)
    else if s == "*" then Op(Times)
    else if s == "/" then Op(Divide)
    else if s == "(" then LParen
    else if s == ")" then RParen
    else Other(s)
  }

  /** Classification undoes `Text` for every token a classification can
      produce. */
  lemma ClassifyText(t: Token)
    requires !t.Num?
    requires t.Other? ==> !IsSymbolText(t.text)
    ensures Classify(Text(t)) == t
  {
    match t
    case Op(o) =>
      match o {
        case Plus =>
        case Minus =>
        case Times =>
        case Divide =>
      }
    case LParen =>
    case RParen =>
    case Other(s) =>
  }

  predicate IsInvalidEndingChar(c: char) {
    c == '+' || c == '-' || c == '*' || c == '/' || c == '('
  }

  /** True when the token's text ends in `+ - * / (`, the tokens a formula
      must not end with. A number's text always ends in a digit. */
  predicate EndsInvalid(t: Token) {
    !t.Num? && |Text(t)| > 0 && IsInvalidEndingChar(Text(t)[|Text(t)| - 1])
  }

  /** The four operators and `(` end invalidly; numbers and `)` do not. */
  lemma EndsInvalidSymbols(t: Token)
    ensures t.Op? || t == LParen ==> EndsInvalid(t)
    ensures t.Num? || t == RParen ==> !EndsInvalid(t)
  {
  }

  /** The token a substituted number becomes. A finite value is a number
      token. An infinite or NaN value is pushed as a number too, but its
      text (`Infinity`, `-Infinity`, `NaN`) holds no digit and never equals
      a symbol, so the parser treats it as an unrecognised fragment. */
  function NumberToken(v: Ext): (t: Token)
    ensures t.Num? <==> v.Fin?
    ensures v.Fin? ==> t.value == v.x
    ensures !v.Fin? ==> t.Other? && !IsSymbolText(t.text) && !EndsInvalid(t)
  {
    match v
    case Fin(x) => Num(x)
    case PosInf => Other("Infinity")
    case NegInf => Other("-Infinity")
    case NaN => Other("NaN")
  }
}
