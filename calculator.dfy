/** `evaluate` of calculator.js and the expectations of its `tests` function:
    format the input, fill a fresh record with its tree, evaluate the tree. */
module Calculator {
  import opened Scan
  import opened Ast
  import opened Builder
  import opened Format
  import opened Precedence

  /** `evaluate(str)`: the value of the formatted input's tree, which is the
      value the grammar with the usual precedence gives the formatted input. */
  method Evaluate(str: string) returns (result: Result<real>)
    ensures result == Eval(Build(FormatStr(str)))
    ensures result == ExprValue(Tokenize(FormatStr(str)))
  {
    var ast := new AstNode();
    var s := FormatStr(str);
    BuildAst(ast, s);
    result := EvalAst(ast);
    BuildFollowsGrammar(s);
  }

  // ---------------------------------------------------------------------------
  // The expectations of `tests`, for the value `Evaluate` returns

  /** An operand whose last run of digits is the decimal numeral of `n`
      stands for `n`. */
  lemma OperandIs(o: Operand, b: nat, n: nat)
    requires var d := DecimalString(n); b + |d| <= |o| && o[b..b + |d|] == d
    requires IsLastRun(o, b, b + |DecimalString(n)|)
    ensures OperandValue(o) == Ok(n as real)
  {
    assert IsDigit(o[b]);
    var (b', e') := LastRun(o).value;
    LastRunUnique(o, b, b + |DecimalString(n)|, b', e');
    DecimalRoundTrip(n);
  }

  /** A numeral as the tests write it: bare, or with the opening or closing
      parenthesis that the calculator treats as part of the operand. */
  datatype Numeral = Bare(n: nat) | Opened(n: nat) | Closed(n: nat)

  /** A term written with numerals: the first one, then operators and
      numerals. */
  datatype Product = Product(first: Numeral, factors: seq<NumeralFactor>)

  /** One operator of a term and the numeral after it. */
  datatype NumeralFactor = NumeralFactor(op: MulOp, x: Numeral)

  /** An expression written with such terms. */
  datatype Sum = Sum(first: Product, terms: seq<ProductSummand>)

  /** One operator of an expression and the term after it. */
  datatype ProductSummand = ProductSummand(op: AddOp, p: Product)

  /** The text of a numeral. */
  function NumeralText(x: Numeral): string {
    match x
    case Bare(n) => DecimalString(n)
    case Opened(n) => "(" + DecimalString(n)
    case Closed(n) => DecimalString(n) + ")"
  }

  /** The number a numeral stands for. */
  function NumeralReal(x: Numeral): real {
    x.n as real
  }

  /** A numeral is an operand, and the parentheses do not change the number
      it stands for. */
  lemma NumeralValue(x: Numeral)
    ensures NoOperator(NumeralText(x))
    ensures OperandValue(NumeralText(x)) == Ok(NumeralReal(x))
  {
    var s := DecimalString(x.n);
    var o := NumeralText(x);
    DecimalDigits(x.n);
    match x
    case Bare(_) =>
      assert o[0..|s|] == s;
      OperandIs(o, 0, x.n);
    case Opened(_) =>
      assert o[1..1 + |s|] == s;
      assert forall j :: 1 <= j < 1 + |s| ==> o[j] == s[j - 1];
      OperandIs(o, 1, x.n);
    case Closed(_) =>
      assert o[0..|s|] == s && o[|s|] == ')';
      assert forall j :: 0 <= j < |s| ==> o[j] == s[j];
      OperandIs(o, 0, x.n);
  }

  function FactorList(fs: seq<NumeralFactor>): seq<Factor> {
    if fs == [] then [] else NumeralValue(fs[0].x); [Factor(fs[0].op, NumeralText(fs[0].x))] + FactorList(fs[1..])
  }

  function ToTerm(p: Product): Term {
    NumeralValue(p.first);
    Term(NumeralText(p.first), FactorList(p.factors))
  }

  function SummandList(ts: seq<ProductSummand>): seq<Summand> {
    if ts == [] then [] else [Summand(ts[0].op, ToTerm(ts[0].p))] + SummandList(ts[1..])
  }

  function ToExpr(s: Sum): Expr {
    Expr(ToTerm(s.first), SummandList(s.terms))
  }

  /** The text of a sum, written from left to right. */
  function FactorsWritten(fs: seq<NumeralFactor>): string {
    if fs == [] then "" else [Symbol(fs[0].op)] + NumeralText(fs[0].x) + FactorsWritten(fs[1..])
  }

  function ProductWritten(p: Product): string {
    NumeralText(p.first) + FactorsWritten(p.factors)
  }

  function TermsWritten(ts: seq<ProductSummand>): string {
    if ts == [] then "" else [Symbol(ts[0].op)] + ProductWritten(ts[0].p) + TermsWritten(ts[1..])
  }

  function SumWritten(s: Sum): string {
    ProductWritten(s.first) + TermsWritten(s.terms)
  }

  lemma NoSpaceAppend(a: string, b: string)
    requires NoSpace(a) && NoSpace(b)
    ensures NoSpace(a + b)
  {
    assert forall j :: |a| <= j < |a + b| ==> (a + b)[j] == b[j - |a|];
  }

  /** A numeral is written without white space and begins with a digit or
      an opening parenthesis. */
  lemma NumeralClean(x: Numeral)
    ensures NoSpace(NumeralText(x))
    ensures |NumeralText(x)| > 0 && NumeralText(x)[0] != '-'
  {
    DecimalDigits(x.n);
    var d := DecimalString(x.n);
    assert NoSpace(d);
    match x
    case Bare(_) =>
    case Opened(_) => NoSpaceAppend("(", d);
    case Closed(_) => NoSpaceAppend(d, ")");
  }

  lemma {:induction false} FactorsClean(fs: seq<NumeralFactor>)
    ensures NoSpace(FactorsWritten(fs))
    decreases |fs|
  {
    if fs != [] {
      NumeralClean(fs[0].x);
      FactorsClean(fs[1..]);
      NoSpaceAppend([Symbol(fs[0].op)], NumeralText(fs[0].x));
      NoSpaceAppend([Symbol(fs[0].op)] + NumeralText(fs[0].x), FactorsWritten(fs[1..]));
    }
  }

  lemma ProductClean(p: Product)
    ensures NoSpace(ProductWritten(p))
    ensures |ProductWritten(p)| > 0 && ProductWritten(p)[0] != '-'
  {
    NumeralClean(p.first);
    FactorsClean(p.factors);
    NoSpaceAppend(NumeralText(p.first), FactorsWritten(p.factors));
  }

  lemma {:induction false} TermsClean(ts: seq<ProductSummand>)
    ensures NoSpace(TermsWritten(ts))
    decreases |ts|
  {
    if ts != [] {
      ProductClean(ts[0].p);
      TermsClean(ts[1..]);
      NoSpaceAppend([Symbol(ts[0].op)], ProductWritten(ts[0].p));
      NoSpaceAppend([Symbol(ts[0].op)] + ProductWritten(ts[0].p), TermsWritten(ts[1..]));
    }
  }

  /** The text of a sum is clean: `format_str` leaves it as it is. */
  lemma SumClean(s: Sum)
    ensures NoSpace(SumWritten(s))
    ensures |SumWritten(s)| > 0 && SumWritten(s)[0] != '-'
  {
    ProductClean(s.first);
    TermsClean(s.terms);
    NoSpaceAppend(ProductWritten(s.first), TermsWritten(s.terms));
  }

  /** The value of a sum worked out from left to right, term by term: the
      arithmetic that the expected values of the tests come from. */
  function FactorsWorth(acc: Result<real>, fs: seq<NumeralFactor>): Result<real>
    decreases |fs|
  {
    if fs == [] then acc else FactorsWorth(Apply(fs[0].op, acc, Ok(NumeralReal(fs[0].x))), fs[1..])
  }

  function ProductWorth(p: Product): Result<real> {
    FactorsWorth(Ok(NumeralReal(p.first)), p.factors)
  }

  function TermsWorth(acc: Result<real>, ts: seq<ProductSummand>): Result<real>
    decreases |ts|
  {
    if ts == [] then acc else TermsWorth(Apply(ts[0].op, acc, ProductWorth(ts[0].p)), ts[1..])
  }

  function SumWorth(s: Sum): Result<real> {
    TermsWorth(ProductWorth(s.first), s.terms)
  }

  lemma {:induction false} FactorListReads(acc: Result<real>, fs: seq<NumeralFactor>)
    ensures FactorsText(FactorList(fs)) == FactorsWritten(fs)
    ensures FactorsFold(acc, FactorList(fs)) == FactorsWorth(acc, fs)
    decreases |fs|
  {
    if fs != [] {
      NumeralValue(fs[0].x);
      var l := FactorList(fs);
      assert l[0] == Factor(fs[0].op, NumeralText(fs[0].x)) && l[1..] == FactorList(fs[1..]);
      FactorListReads(Apply(fs[0].op, acc, Ok(NumeralReal(fs[0].x))), fs[1..]);
    }
  }

  /** A term written with numerals reads as the text and the value above. */
  lemma ProductReads(p: Product)
    ensures RenderTerm(ToTerm(p)) == ProductWritten(p)
    ensures TermValue(ToTerm(p)) == ProductWorth(p)
  {
    var t := ToTerm(p);
    FactorsReadInOrder(t.first, t.factors);
    FactorsValueInOrder(t.first, t.factors);
    NumeralValue(p.first);
    FactorListReads(Ok(NumeralReal(p.first)), p.factors);
  }

  lemma {:induction false} SummandListReads(acc: Result<real>, ts: seq<ProductSummand>)
    ensures SummandsText(SummandList(ts)) == TermsWritten(ts)
    ensures SummandsFold(acc, SummandList(ts)) == TermsWorth(acc, ts)
    decreases |ts|
  {
    if ts != [] {
      var l := SummandList(ts);
      assert l[0] == Summand(ts[0].op, ToTerm(ts[0].p)) && l[1..] == SummandList(ts[1..]);
      ProductReads(ts[0].p);
      SummandListReads(Apply(ts[0].op, acc, ProductWorth(ts[0].p)), ts[1..]);
    }
  }

  /** The grammar tree of a sum reads as the text and the value above. */
  lemma SumReads(s: Sum)
    ensures RenderExpr(ToExpr(s)) == SumWritten(s)
    ensures ExprValue(ToExpr(s)) == SumWorth(s)
  {
    var e := ToExpr(s);
    ProductReads(s.first);
    SummandListReads(ProductWorth(s.first), s.terms);
    SummandsReadInOrder(e.first, e.summands);
    SummandsValueInOrder(e.first, e.summands);
  }

  /** `Evaluate` returns `v` for an input written as `s` when `s`, worked
      out from left to right with the usual precedence, is `v`. */
  lemma EvaluatesAs(input: string, s: Sum, v: Result<real>)
    requires SumWritten(s) == input && SumWorth(s) == v
    ensures Eval(Build(FormatStr(input))) == v
  {
    SumClean(s);
    FormatClean(input);
    SumReads(s);
    BuildFollowsRendering(ToExpr(s));
  }

  /** The same for an input with a leading minus sign, written as the terms
      `ts`: `format_str` puts a `0` in front, so the input is read as the sum
      that subtracts from zero. */
  lemma NegatedEvaluatesAs(input: string, ts: seq<ProductSummand>, v: Result<real>)
    requires |input| > 0 && input[0] == '-'
    requires TermsWritten(ts) == input && SumWorth(Sum(BareProduct(0), ts)) == v
    ensures Eval(Build(FormatStr(input))) == v
  {
    var s := Sum(BareProduct(0), ts);
    ZeroInFront(ts);
    TermsClean(ts);
    FormatLeadingMinus(input);
    SumReads(s);
    BuildFollowsRendering(ToExpr(s));
  }

  /** A sum that starts with a bare zero is written as `0` followed by its
      terms. */
  lemma ZeroInFront(ts: seq<ProductSummand>)
    ensures SumWritten(Sum(BareProduct(0), ts)) == "0" + TermsWritten(ts)
  {
    assert DecimalString(0) == "0";
    assert ProductWritten(BareProduct(0)) == "0" + "";
  }

  lemma BuildFollowsRendering(e: Expr)
    ensures Eval(Build(RenderExpr(e))) == ExprValue(e)
  {
    ExprBuild(e.first, e.summands);
  }

  /** A term of one bare numeral. */
  function BareProduct(n: nat): Product {
    Product(Bare(n), [])
  }

  function PlusMinusSum(): Sum {
    Sum(BareProduct(1), [ProductSummand(Plus, BareProduct(2)), ProductSummand(Plus, BareProduct(3)), ProductSummand(Minus, BareProduct(2)), ProductSummand(Minus, BareProduct(1))])
  }

  lemma ReadPlusMinus()
    ensures SumWritten(PlusMinusSum()) == "1+2+3-2-1"
    ensures SumWorth(PlusMinusSum()) == Ok(3.0)
  {
  }

  lemma TestPlusMinus()
    ensures Eval(Build(FormatStr("1+2+3-2-1"))) == Ok(3.0)
  {
    ReadPlusMinus();
    EvaluatesAs("1+2+3-2-1", PlusMinusSum(), Ok(3.0));
  }

  function AlternatingEvenSum(): Sum {
    Sum(BareProduct(1), [ProductSummand(Minus, BareProduct(1)), ProductSummand(Plus, BareProduct(1)), ProductSummand(Minus, BareProduct(1)), ProductSummand(Plus, BareProduct(1)), ProductSummand(Minus, BareProduct(1))])
  }

  lemma ReadAlternatingEven()
    ensures SumWritten(AlternatingEvenSum()) == "1-1+1-1+1-1"
    ensures SumWorth(AlternatingEvenSum()) == Ok(0.0)
  {
  }

  lemma TestAlternatingEven()
    ensures Eval(Build(FormatStr("1-1+1-1+1-1"))) == Ok(0.0)
  {
    ReadAlternatingEven();
    EvaluatesAs("1-1+1-1+1-1", AlternatingEvenSum(), Ok(0.0));
  }

  function AlternatingOddSum(): Sum {
    Sum(BareProduct(1), [ProductSummand(Minus, BareProduct(1)), ProductSummand(Plus, BareProduct(1)), ProductSummand(Minus, BareProduct(1)), ProductSummand(Plus, BareProduct(1)), ProductSummand(Minus, BareProduct(1)),
                   ProductSummand(Plus, BareProduct(1))])
  }

  lemma ReadAlternatingOdd()
    ensures SumWritten(AlternatingOddSum()) == "1-1+1-1+1-1+1"
    ensures SumWorth(AlternatingOddSum()) == Ok(1.0)
  {
  }

  lemma TestAlternatingOdd()
    ensures Eval(Build(FormatStr("1-1+1-1+1-1+1"))) == Ok(1.0)
  {
    ReadAlternatingOdd();
    EvaluatesAs("1-1+1-1+1-1+1", AlternatingOddSum(), Ok(1.0));
  }

  function TwoDigitsSum(): Sum {
    Sum(BareProduct(12), [ProductSummand(Minus, BareProduct(6))])
  }

  lemma ReadTwoDigits()
    ensures SumWritten(TwoDigitsSum()) == "12-6"
    ensures SumWorth(TwoDigitsSum()) == Ok(6.0)
  {
  }

  lemma TestTwoDigits()
    ensures Eval(Build(FormatStr("12-6"))) == Ok(6.0)
  {
    ReadTwoDigits();
    EvaluatesAs("12-6", TwoDigitsSum(), Ok(6.0));
  }

  function NumberSum(): Sum {
    Sum(BareProduct(555), [])
  }

  lemma ReadNumber()
    ensures SumWritten(NumberSum()) == "555"
    ensures SumWorth(NumberSum()) == Ok(555.0)
  {
  }

  lemma TestNumber()
    ensures Eval(Build(FormatStr("555"))) == Ok(555.0)
  {
    ReadNumber();
    EvaluatesAs("555", NumberSum(), Ok(555.0));
  }

  function MinusSum(): Sum {
    Sum(BareProduct(5), [ProductSummand(Minus, BareProduct(1))])
  }

  lemma ReadMinus()
    ensures SumWritten(MinusSum()) == "5-1"
    ensures SumWorth(MinusSum()) == Ok(4.0)
  {
  }

  lemma TestMinus()
    ensures Eval(Build(FormatStr("5-1"))) == Ok(4.0)
  {
    ReadMinus();
    EvaluatesAs("5-1", MinusSum(), Ok(4.0));
  }

  function MinusMinusSum(): Sum {
    Sum(BareProduct(5), [ProductSummand(Minus, BareProduct(1)), ProductSummand(Minus, BareProduct(1))])
  }

  lemma ReadMinusMinus()
    ensures SumWritten(MinusMinusSum()) == "5-1-1"
    ensures SumWorth(MinusMinusSum()) == Ok(3.0)
  {
  }

  lemma TestMinusMinus()
    ensures Eval(Build(FormatStr("5-1-1"))) == Ok(3.0)
  {
    ReadMinusMinus();
    EvaluatesAs("5-1-1", MinusMinusSum(), Ok(3.0));
  }

  function NegativeTerms(): seq<ProductSummand> {
    [ProductSummand(Minus, BareProduct(555))]
  }

  lemma ReadNegative()
    ensures TermsWritten(NegativeTerms()) == "-555"
    ensures SumWorth(Sum(BareProduct(0), NegativeTerms())) == Ok(-555.0)
  {
  }

  /** A leading minus sign is a subtraction from zero. */
  lemma TestNegative()
    ensures Eval(Build(FormatStr("-555"))) == Ok(-555.0)
  {
    ReadNegative();
    NegatedEvaluatesAs("-555", NegativeTerms(), Ok(-555.0));
  }

  function NegativeChainTerms(): seq<ProductSummand> {
    [ProductSummand(Minus, BareProduct(555)), ProductSummand(Minus, BareProduct(100)), ProductSummand(Minus, BareProduct(10)), ProductSummand(Minus, BareProduct(1))]
  }

  lemma ReadNegativeChain()
    ensures TermsWritten(NegativeChainTerms()) == "-555-100-10-1"
  {
  }

  lemma NegativeChainValue()
    ensures SumWorth(Sum(BareProduct(0), NegativeChainTerms())) == Ok(-666.0)
  {
  }

  lemma TestNegativeChain()
    ensures Eval(Build(FormatStr("-555-100-10-1"))) == Ok(-666.0)
  {
    ReadNegativeChain();
    NegativeChainValue();
    NegatedEvaluatesAs("-555-100-10-1", NegativeChainTerms(), Ok(-666.0));
  }

  function ProductSum(): Sum {
    Sum(Product(Bare(5), [NumeralFactor(Mult, Bare(5))]), [])
  }

  lemma ReadProduct()
    ensures SumWritten(ProductSum()) == "5*5"
    ensures SumWorth(ProductSum()) == Ok(25.0)
  {
  }

  lemma TestProduct()
    ensures Eval(Build(FormatStr("5*5"))) == Ok(25.0)
  {
    ReadProduct();
    EvaluatesAs("5*5", ProductSum(), Ok(25.0));
  }

  function SumOfProductSum(): Sum {
    Sum(BareProduct(3), [ProductSummand(Plus, Product(Bare(5), [NumeralFactor(Mult, Bare(5))]))])
  }

  lemma ReadSumOfProduct()
    ensures SumWritten(SumOfProductSum()) == "3+5*5"
    ensures SumWorth(SumOfProductSum()) == Ok(28.0)
  {
  }

  /** Multiplication binds tighter than addition. */
  lemma TestSumOfProduct()
    ensures Eval(Build(FormatStr("3+5*5"))) == Ok(28.0)
  {
    ReadSumOfProduct();
    EvaluatesAs("3+5*5", SumOfProductSum(), Ok(28.0));
  }

  function SumOfQuotientSum(): Sum {
    Sum(BareProduct(3), [ProductSummand(Plus, Product(Bare(5), [NumeralFactor(Div, Bare(5))]))])
  }

  lemma ReadSumOfQuotient()
    ensures SumWritten(SumOfQuotientSum()) == "3+5/5"
    ensures SumWorth(SumOfQuotientSum()) == Ok(4.0)
  {
  }

  lemma TestSumOfQuotient()
    ensures Eval(Build(FormatStr("3+5/5"))) == Ok(4.0)
  {
    ReadSumOfQuotient();
    EvaluatesAs("3+5/5", SumOfQuotientSum(), Ok(4.0));
  }

  function FractionSum(): Sum {
    Sum(Product(Bare(3), [NumeralFactor(Div, Bare(5))]), [ProductSummand(Plus, BareProduct(1))])
  }

  lemma ReadFraction()
    ensures SumWritten(FractionSum()) == "3/5+1"
    ensures SumWorth(FractionSum()) == Ok(1.6)
  {
  }

  /** White space is dropped before the tree is built. */
  lemma TestFraction()
    ensures Eval(Build(FormatStr("3/5 + 1"))) == Ok(1.6)
  {
    SpaceInsensitive("3/5", ' ', "+ 1");
    assert "3/5" + [' '] + "+ 1" == "3/5 + 1";
    assert "3/5" + "+ 1" == "3/5+" + [' '] + "1";
    SpaceInsensitive("3/5+", ' ', "1");
    assert "3/5+" + "1" == "3/5+1";
    ReadFraction();
    EvaluatesAs("3/5+1", FractionSum(), Ok(1.6));
  }

  function ParensSum(): Sum {
    Sum(BareProduct(5), [ProductSummand(Minus, BareProduct(1)), ProductSummand(Minus, BareProduct(1)),
                    ProductSummand(Plus, Product(Opened(3), [NumeralFactor(Mult, Closed(7)), NumeralFactor(Div, Bare(14)), NumeralFactor(Div, Bare(8))]))])
  }

  lemma ReadParens()
    ensures SumWritten(ParensSum()) == "5-1-1+(3*7)/14/8"
  {
  }

  lemma ParensValue()
    ensures SumWorth(ParensSum()) == Ok(3.1875)
  {
  }

  /** The parentheses are not operators: `(3` and `7)` are operands standing
      for 3 and 7, so the expected value comes out of the precedence rules
      alone. */
  lemma TestParens()
    ensures Eval(Build(FormatStr("5-1-1+(3*7)/14/8"))) == Ok(3.1875)
  {
    ReadParens();
    ParensValue();
    EvaluatesAs("5-1-1+(3*7)/14/8", ParensSum(), Ok(3.1875));
  }

  /** An operator with nothing after it leaves its right record unfilled,
      and evaluating that record fails. */
  lemma TestDanglingOperator()
    ensures Eval(Build(FormatStr("1+"))) == Err(EmptyNode)
  {
    assert NoSpace("1+") by {
      assert forall j :: 0 <= j < 2 ==> "1+"[j] == '1' || "1+"[j] == '+';
    }
    FormatClean("1+");
    assert "1" + [Symbol(Plus)] + "" == "1+";
    SplitConcat("1", Plus, "");
    LeafRule("");
    LeafRule("1");
    assert LastRun("1") == Some((0, 1));
  }

  /** `1/0+` divides by zero to the left of an unfilled record; the unfilled
      record still decides the outcome, as `eval_ast` throws on it after the
      division has given `Infinity`. */
  lemma TestDivisionBeforeDangling()
    ensures Build(FormatStr("1/0+")) == Bin(Plus, Bin(Div, Leaf("1"), Leaf("0")), Empty)
    ensures Eval(Build(FormatStr("1/0+"))) == Err(EmptyNode)
  {
    assert NoSpace("1/0+") by {
      assert forall j :: 0 <= j < 4 ==> "1/0+"[j] in "1/0+";
    }
    FormatClean("1/0+");
    assert "1/0" + [Symbol(Plus)] + "" == "1/0+";
    SplitConcat("1/0", Plus, "");
    LeafRule("");
    QuotientTree('1', '0');
  }

  /** `build_ast` groups `10*1/3` as `10 * (1/3)`, not as `(10*1)/3`: the
      two agree on exact numbers, not on rounded ones. */
  lemma TreeRegroups()
    ensures Build("10*1/3") == Bin(Mult, Leaf("10"), Bin(Div, Leaf("1"), Leaf("3")))
  {
    var left, right := "10", "1/3";
    assert left + [Symbol(Mult)] + right == "10*1/3";
    assert forall j :: 0 <= j < |right| ==> right[j] == '1' || right[j] == '/' || right[j] == '3';
    assert forall j :: 0 <= j < |left| ==> IsDigit(left[j]);
    SplitConcat(left, Mult, right);
    DigitsTree(left);
    assert right == ['1', '/', '3'];
    QuotientTree('1', '3');
  }

  /** The tree of a quotient of two digits. */
  lemma QuotientTree(x: char, y: char)
    requires IsDigit(x) && IsDigit(y)
    ensures Build([x, '/', y]) == Bin(Div, Leaf([x]), Leaf([y]))
  {
    var left, right := [x], [y];
    DigitHasNoOperator(x);
    DigitHasNoOperator(y);
    assert left + [Symbol(Div)] + right == [x, '/', y];
    SplitConcat(left, Div, right);
    DigitsTree(left);
    DigitsTree(right);
  }

  /** A digit is no operator character. */
  lemma DigitHasNoOperator(x: char)
    requires IsDigit(x)
    ensures '+' !in [x] && '-' !in [x] && '*' !in [x] && '/' !in [x]
  {
  }

  /** A text of digits alone is a leaf holding it. */
  lemma DigitsTree(s: string)
    requires |s| > 0 && forall j :: 0 <= j < |s| ==> IsDigit(s[j])
    ensures IsNumberText(s) && Build(s) == Leaf(s)
  {
    DigitsRun(s);
    LeafRule(s);
    assert s[0..|s|] == s;
  }

  /** A text of digits alone is one run of digits and holds no operator. */
  lemma DigitsRun(s: string)
    requires |s| > 0 && forall j :: 0 <= j < |s| ==> IsDigit(s[j])
    ensures NoOperator(s) && !NoDigit(s)
    ensures LastRun(s).Some? && LastRun(s).value.0 == 0 && LastRun(s).value.1 == |s|
  {
    assert NoOperator(s) by {
      forall j | 0 <= j < |s| ensures !IsOperatorChar(s[j]) {
        assert IsDigit(s[j]);
      }
    }
    var last: nat := |s| - 1;
    assert LastDigit(s) == Some(last);
    RunStartIs(s, last, 0);
  }
}
