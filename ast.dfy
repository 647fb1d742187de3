/** The expression tree of calculator.js and its evaluation (`eval_ast`),
    stated on values: the tree that `build_ast` leaves in its object records,
    read as a datatype. */
module Ast {
  import opened Scan

  /** The four operator kinds of the operator table. */
  datatype Op = Plus | Minus | Mult | Div

  /** The character each operator pattern matches. */
  function Symbol(op: Op): char {
    match op
    case Plus => '+'
    case Minus => '-'
    case Mult => '*'
    case Div => '/'
  }

  predicate IsOperatorChar(c: char) {
    c == '+' || c == '-' || c == '*' || c == '/'
  }

  /** True when `s` holds none of the four operator characters. */
  predicate NoOperator(s: string) {
    forall j :: 0 <= j < |s| ==> !IsOperatorChar(s[j])
  }

  /** An entry of the operator table: an operator, or the value pattern. */
  datatype Kind = Binary(op: Op) | Number

  /** The operator table, in the order in which it is tried. */
  const Ops: seq<Kind> := [Binary(Plus), Binary(Minus), Binary(Mult), Binary(Div), Number]

  /** Text that `-?\d+` matches: an optional `-`, then at least one digit. */
  predicate IsNumberText(s: string) {
    var k := if |s| > 0 && s[0] == '-' then 1 else 0;
    k < |s| && forall j :: k <= j < |s| ==> IsDigit(s[j])
  }

  type NumberText = s: string | IsNumberText(s) witness "0"

  /** A node of the tree. `Empty` is a record that no pattern filled in: it has
      neither an operator nor a symbol. A `Leaf` holds the matched text of a
      value; a `Bin` node always has both subtrees. */
  datatype Node = Empty | Leaf(sym: NumberText) | Bin(op: Op, lhs: Node, rhs: Node)

  /** Why an evaluation fails: a node without an operator (reading the name of
      a missing operator), or a division whose divisor is zero. */
  datatype Error = EmptyNode | DivisionByZero

  datatype Result<T> = Ok(value: T) | Err(error: Error)

  predicate AllDigits(s: string) {
    forall j :: 0 <= j < |s| ==> IsDigit(s[j])
  }

  /** The number a string of decimal digits denotes. */
  function DecimalValue(digits: string): nat
    requires AllDigits(digits)
    decreases |digits|
  {
    if digits == [] then 0
    else DecimalValue(digits[..|digits| - 1]) * 10 + (digits[|digits| - 1] as int - '0' as int)
  }

  /** The shortest decimal representation of `n`. */
  function DecimalString(n: nat): string
    decreases n
  {
    if n < 10 then [(n + '0' as int) as char]
    else DecimalString(n / 10) + [(n % 10 + '0' as int) as char]
  }

  /** The decimal representation is a non-empty run of digits without a
      leading zero. */
  lemma {:induction false} DecimalDigits(n: nat)
    ensures var s := DecimalString(n); |s| > 0 && AllDigits(s) && (|s| > 1 ==> s[0] != '0')
    decreases n
  {
    if n >= 10 {
      DecimalDigits(n / 10);
    }
  }

  /** Reading back the decimal representation of `n` gives `n`. */
  lemma {:induction false} DecimalRoundTrip(n: nat)
    ensures AllDigits(DecimalString(n)) && DecimalValue(DecimalString(n)) == n
    decreases n
  {
    DecimalDigits(n);
    if n >= 10 {
      var s := DecimalString(n);
      assert s[..|s| - 1] == DecimalString(n / 10);
      DecimalRoundTrip(n / 10);
    }
  }

  /** `parseInt(sym, 10)` on text matched by `-?\d+`. */
  function ParseInt(sym: NumberText): int {
    if sym[0] == '-' then -(DecimalValue(sym[1..]) as int) else DecimalValue(sym)
  }

  /** The match of a run of digits is text that `-?\d+` matches, and
      `parseInt` reads from it the number the digits denote, negated when
      the match took the `-` in front of them. */
  lemma SignedAtValue(s: string, b: nat, e: nat)
    requires b < e <= |s| && forall j :: b <= j < e ==> IsDigit(s[j])
    ensures AllDigits(s[b..e]) && IsNumberText(SignedAt(s, b, e).text)
    ensures var v := DecimalValue(s[b..e]) as int;
      ParseInt(SignedAt(s, b, e).text) == if b > 0 && s[b - 1] == '-' then -v else v
  {
    var d := s[b..e];
    assert forall j :: 0 <= j < |d| ==> d[j] == s[b + j];
    var t := SignedAt(s, b, e).text;
    if b > 0 && s[b - 1] == '-' {
      assert t == s[b - 1..e] && t[0] == '-' && t[1..] == d;
    } else {
      assert t == d;
    }
  }

  /** The text `-?\d+` matches for the decimal notation of `n`. */
  function IntText(n: int): (s: NumberText) {
    DecimalDigits(if n < 0 then -n else n);
    if n < 0 then "-" + DecimalString(-n) else DecimalString(n)
  }

  /** `ParseInt` reads back every integer from its decimal notation. */
  lemma ParseIntRoundTrip(n: int)
    ensures ParseInt(IntText(n)) == n
  {
    if n < 0 {
      assert IntText(n)[1..] == DecimalString(-n);
      DecimalRoundTrip(-n);
    } else {
      DecimalRoundTrip(n);
    }
  }

  /** One operator applied to two evaluated operands. An unfilled record on
      either side fails the whole evaluation, as reading its missing `op`
      throws whatever the other side yields; otherwise the left operand's
      failure wins, then the right one's, and a zero divisor fails. */
  function Apply(op: Op, a: Result<real>, b: Result<real>): Result<real> {
    if a == Err(EmptyNode) || b == Err(EmptyNode) then Err(EmptyNode)
    else if a.Err? then a
    else if b.Err? then b
    else match op
      case Plus => Ok(a.value + b.value)
      case Minus => Ok(a.value - b.value)
      case Mult => Ok(a.value * b.value)
      case Div => if b.value == 0.0 then Err(DivisionByZero) else Ok(a.value / b.value)
  }

  /** When `Apply` fails: an unfilled record on either side wins, then a
      failed operand's error is passed on, the left one first, and otherwise
      only a division by zero fails. */
  lemma ApplyFailure(op: Op, a: Result<real>, b: Result<real>)
    ensures Apply(op, a, b).Err? <==> a.Err? || b.Err? || (op == Div && b == Ok(0.0))
    ensures Apply(op, a, b) == Err(EmptyNode) <==> a == Err(EmptyNode) || b == Err(EmptyNode)
    ensures a.Err? && b != Err(EmptyNode) ==> Apply(op, a, b) == a
    ensures a.Ok? && b.Err? ==> Apply(op, a, b) == b
    ensures Apply(op, a, b) == Err(DivisionByZero) ==>
      a == Err(DivisionByZero) || b == Err(DivisionByZero) || (op == Div && b == Ok(0.0))
  {
  }

  /** The tree contains a node no pattern filled in. */
  ghost predicate HasEmpty(t: Node) {
    match t
    case Empty => true
    case Leaf(_) => false
    case Bin(_, l, r) => HasEmpty(l) || HasEmpty(r)
  }

  /** `eval_ast`: bottom-up evaluation, left subtree before right subtree.
      It fails for want of an operator exactly when the tree holds an
      unfilled node, as `eval_ast` throws exactly then. */
  function Eval(t: Node): (r: Result<real>)
    ensures r == Err(EmptyNode) <==> HasEmpty(t)
  {
    match t
    case Empty => Err(EmptyNode)
    case Leaf(sym) => Ok(ParseInt(sym) as real)
    case Bin(op, l, r) => Apply(op, Eval(l), Eval(r))
  }
}
