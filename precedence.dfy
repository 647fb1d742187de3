/** What the tree builder of calculator.js computes, stated against the
    textbook grammar of arithmetic expressions:

      expr    ::= term (('+' | '-') term)*
      term    ::= operand (('*' | '/') operand)*
      operand ::= any text without an operator character

    evaluated from left to right with `*` and `/` binding tighter than `+` and
    `-`. An operand stands for its last run of decimal digits, and for no
    number at all when it has none. The main theorem, `BuildFollowsGrammar`,
    says that for every string the tree `build_ast` builds evaluates exactly
    as this grammar prescribes, although `build_ast` splits at the LAST
    occurrence of the FIRST operator of its table and so builds a tree whose
    shape differs from the grammar's (`a - b + c` becomes `a - b` and `c`,
    `a + b - c` becomes `a` and `b - c`). */
module Precedence {
  import opened Scan
  import opened Ast
  import opened Builder

  type Operand = s: string | NoOperator(s) witness ""
  type MulOp = o: Op | o == Mult || o == Div witness Mult
  type AddOp = o: Op | o == Plus || o == Minus witness Plus

  /** `* operand` or `/ operand` inside a term. */
  datatype Factor = Factor(op: MulOp, operand: Operand)
  datatype Term = Term(first: Operand, factors: seq<Factor>)
  /** `+ term` or `- term` inside an expression. */
  datatype Summand = Summand(op: AddOp, term: Term)
  datatype Expr = Expr(first: Term, summands: seq<Summand>)

  // ---------------------------------------------------------------------------
  // Text

  function RenderFactors(first: Operand, fs: seq<Factor>): string
    decreases |fs|
  {
    if fs == [] then first
    else RenderFactors(first, fs[..|fs| - 1]) + [Symbol(fs[|fs| - 1].op)] + fs[|fs| - 1].operand
  }

  function RenderTerm(t: Term): string {
    RenderFactors(t.first, t.factors)
  }

  function RenderSummands(first: Term, ts: seq<Summand>): string
    decreases |ts|
  {
    if ts == [] then RenderTerm(first)
    else RenderSummands(first, ts[..|ts| - 1]) + [Symbol(ts[|ts| - 1].op)] + RenderTerm(ts[|ts| - 1].term)
  }

  function RenderExpr(e: Expr): string {
    RenderSummands(e.first, e.summands)
  }

  /** The operator characters of a term, in order. */
  function MulSymbols(fs: seq<Factor>): (r: string)
    ensures |r| == |fs| && forall j :: 0 <= j < |fs| ==> r[j] == Symbol(fs[j].op)
  {
    seq(|fs|, j requires 0 <= j < |fs| => Symbol(fs[j].op))
  }

  /** The operator characters between the terms of an expression, in order. */
  function AddSymbols(ts: seq<Summand>): (r: string)
    ensures |r| == |ts| && forall j :: 0 <= j < |ts| ==> r[j] == Symbol(ts[j].op)
  {
    seq(|ts|, j requires 0 <= j < |ts| => Symbol(ts[j].op))
  }

  // ---------------------------------------------------------------------------
  // Values

  /** The number an operand stands for: its last run of digits. */
  function OperandValue(o: Operand): (r: Result<real>)
    ensures r.Err? <==> NoDigit(o)
    ensures r.Err? ==> r.error == EmptyNode
  {
    match LastRun(o)
    case None => Err(EmptyNode)
    case Some((b, e)) =>
      assert forall j :: 0 <= j < |o[b..e]| ==> o[b..e][j] == o[b + j];
      Ok(DecimalValue(o[b..e]) as real)
  }

  /** A term evaluated from left to right. */
  function FactorsValue(first: Operand, fs: seq<Factor>): Result<real>
    decreases |fs|
  {
    if fs == [] then OperandValue(first)
    else Apply(fs[|fs| - 1].op, FactorsValue(first, fs[..|fs| - 1]), OperandValue(fs[|fs| - 1].operand))
  }

  function TermValue(t: Term): Result<real> {
    FactorsValue(t.first, t.factors)
  }

  /** An expression evaluated from left to right, term by term. */
  function SummandsValue(first: Term, ts: seq<Summand>): Result<real>
    decreases |ts|
  {
    if ts == [] then TermValue(first)
    else Apply(ts[|ts| - 1].op, SummandsValue(first, ts[..|ts| - 1]), TermValue(ts[|ts| - 1].term))
  }

  function ExprValue(e: Expr): Result<real> {
    SummandsValue(e.first, e.summands)
  }

  /** `a * b * c` is `a * (b * c)` for numbers. */
  lemma MulMulRegroup(x: real, y: real, z: real)
    ensures Apply(Mult, Apply(Mult, Ok(x), Ok(y)), Ok(z)) == Apply(Mult, Ok(x), Apply(Mult, Ok(y), Ok(z)))
  {
    var lhs, rhs := Apply(Mult, Apply(Mult, Ok(x), Ok(y)), Ok(z)), Apply(Mult, Ok(x), Apply(Mult, Ok(y), Ok(z)));
    assert lhs.Ok? && lhs.value == (x * y) * z;
    assert rhs.Ok? && rhs.value == x * (y * z);
  }

  /** `a * b / c` is `a * (b / c)` for numbers, a zero divisor failing on
      both sides. */
  lemma MulDivRegroup(x: real, y: real, z: real)
    ensures Apply(Div, Apply(Mult, Ok(x), Ok(y)), Ok(z)) == Apply(Mult, Ok(x), Apply(Div, Ok(y), Ok(z)))
  {
    if z != 0.0 {
      var lhs, rhs := Apply(Div, Apply(Mult, Ok(x), Ok(y)), Ok(z)), Apply(Mult, Ok(x), Apply(Div, Ok(y), Ok(z)));
      assert lhs.Ok? && lhs.value == (x * y) / z;
      assert rhs.Ok? && rhs.value == x * (y / z);
      MulDivReal(x, y, z);
    }
  }

  lemma MulDivReal(x: real, y: real, z: real)
    requires z != 0.0
    ensures (x * y) / z == x * (y / z)
  {
    var q := y / z;
    assert y == q * z;
    assert x * y == (x * q) * z;
  }

  /** `a * b` followed by `* c` or `/ c` is `a` times (`b` followed by it),
      failures included. */
  lemma MulRegroup(op: MulOp, a: Result<real>, b: Result<real>, c: Result<real>)
    ensures Apply(op, Apply(Mult, a, b), c) == Apply(Mult, a, Apply(op, b, c))
  {
    if a.Ok? && b.Ok? && c.Ok? {
      if op == Mult {
        MulMulRegroup(a.value, b.value, c.value);
      } else {
        MulDivRegroup(a.value, b.value, c.value);
      }
    }
  }

  /** `a + b` followed by `+ c` or `- c` is `a` plus (`b` followed by it),
      failures included. */
  lemma AddRegroup(op: AddOp, a: Result<real>, b: Result<real>, c: Result<real>)
    ensures Apply(op, Apply(Plus, a, b), c) == Apply(Plus, a, Apply(op, b, c))
  {
  }

  // ---------------------------------------------------------------------------
  // Splitting text and values at one operator

  /** At factor `k` a term's text is the text before it, the operator, and
      the text of the term that starts with the operand after it. */
  lemma FactorsSplit(first: Operand, fs: seq<Factor>, k: nat)
    requires k < |fs|
    ensures RenderFactors(first, fs)
         == RenderFactors(first, fs[..k]) + [Symbol(fs[k].op)] + RenderFactors(fs[k].operand, fs[k + 1..])
  {
    var o := fs[k].operand;
    var before, after := FactorsText(fs[..k]), FactorsText(fs[k + 1..]);
    FactorsReadInOrder(first, fs);
    FactorsReadInOrder(first, fs[..k]);
    FactorsReadInOrder(o, fs[k + 1..]);
    FactorsTextAt(fs, k);
    assert fs[k..][0] == fs[k] && fs[k..][1..] == fs[k + 1..];
    assert FactorsText(fs[k..]) == [Symbol(fs[k].op)] + o + after;
    Regroup(first, before, [Symbol(fs[k].op)], o, after);
  }

  /** At summand `k` an expression's text is the text before it, the
      operator, and the text of the expression that starts with the term
      after it. */
  lemma SummandsSplit(first: Term, ts: seq<Summand>, k: nat)
    requires k < |ts|
    ensures RenderSummands(first, ts)
         == RenderSummands(first, ts[..k]) + [Symbol(ts[k].op)] + RenderSummands(ts[k].term, ts[k + 1..])
  {
    var o := RenderTerm(ts[k].term);
    var before, after := SummandsText(ts[..k]), SummandsText(ts[k + 1..]);
    SummandsReadInOrder(first, ts);
    SummandsReadInOrder(first, ts[..k]);
    SummandsReadInOrder(ts[k].term, ts[k + 1..]);
    SummandsTextAt(ts, k);
    assert ts[k..][0] == ts[k] && ts[k..][1..] == ts[k + 1..];
    assert SummandsText(ts[k..]) == [Symbol(ts[k].op)] + o + after;
    Regroup(RenderTerm(first), before, [Symbol(ts[k].op)], o, after);
  }

  /** Concatenation regrouped. */
  lemma Regroup<T>(a: seq<T>, b: seq<T>, c: seq<T>, d: seq<T>, e: seq<T>)
    ensures a + (b + (c + d + e)) == a + b + c + (d + e)
  {
  }

  /** Reading a term's operators and operands up to factor `k` and then on
      from there. */
  lemma {:induction false} FactorsTextAt(fs: seq<Factor>, k: nat)
    requires k <= |fs|
    ensures FactorsText(fs) == FactorsText(fs[..k]) + FactorsText(fs[k..])
    decreases k
  {
    if k > 0 {
      var rest := fs[1..];
      FactorsTextAt(rest, k - 1);
      assert fs[..k][0] == fs[0] && fs[..k][1..] == rest[..k - 1];
      assert rest[k - 1..] == fs[k..];
    } else {
      assert fs[..0] == [] && fs[0..] == fs;
    }
  }

  /** The same for an expression's operators and terms. */
  lemma {:induction false} SummandsTextAt(ts: seq<Summand>, k: nat)
    requires k <= |ts|
    ensures SummandsText(ts) == SummandsText(ts[..k]) + SummandsText(ts[k..])
    decreases k
  {
    if k > 0 {
      var rest := ts[1..];
      SummandsTextAt(rest, k - 1);
      assert ts[..k][0] == ts[0] && ts[..k][1..] == rest[..k - 1];
      assert rest[k - 1..] == ts[k..];
    } else {
      assert ts[..0] == [] && ts[0..] == ts;
    }
  }

  /** Reading a term up to factor `k` and then reading on from there is
      reading the whole term. */
  lemma {:induction false} FactorsFoldAt(acc: Result<real>, fs: seq<Factor>, k: nat)
    requires k <= |fs|
    ensures FactorsFold(acc, fs) == FactorsFold(FactorsFold(acc, fs[..k]), fs[k..])
    decreases k
  {
    if k > 0 {
      var next := Apply(fs[0].op, acc, OperandValue(fs[0].operand));
      var rest := fs[1..];
      FactorsFoldAt(next, rest, k - 1);
      assert fs[..k][0] == fs[0] && fs[..k][1..] == rest[..k - 1];
      assert rest[k - 1..] == fs[k..];
    } else {
      assert fs[..0] == [] && fs[0..] == fs;
    }
  }

  /** The same for an expression and summand `k`. */
  lemma {:induction false} SummandsFoldAt(acc: Result<real>, ts: seq<Summand>, k: nat)
    requires k <= |ts|
    ensures SummandsFold(acc, ts) == SummandsFold(SummandsFold(acc, ts[..k]), ts[k..])
    decreases k
  {
    if k > 0 {
      var next := Apply(ts[0].op, acc, TermValue(ts[0].term));
      var rest := ts[1..];
      SummandsFoldAt(next, rest, k - 1);
      assert ts[..k][0] == ts[0] && ts[..k][1..] == rest[..k - 1];
      assert rest[k - 1..] == ts[k..];
    } else {
      assert ts[..0] == [] && ts[0..] == ts;
    }
  }

  /** Reading on from `a * v` is `a` times reading on from `v`. */
  lemma {:induction false} FactorsFoldScaled(a: Result<real>, v: Result<real>, fs: seq<Factor>)
    ensures FactorsFold(Apply(Mult, a, v), fs) == Apply(Mult, a, FactorsFold(v, fs))
    decreases |fs|
  {
    if fs != [] {
      var c := OperandValue(fs[0].operand);
      MulRegroup(fs[0].op, a, v, c);
      FactorsFoldScaled(a, Apply(fs[0].op, v, c), fs[1..]);
    }
  }

  /** Reading on from `a + v` is `a` plus reading on from `v`. */
  lemma {:induction false} SummandsFoldShifted(a: Result<real>, v: Result<real>, ts: seq<Summand>)
    ensures SummandsFold(Apply(Plus, a, v), ts) == Apply(Plus, a, SummandsFold(v, ts))
    decreases |ts|
  {
    if ts != [] {
      var c := TermValue(ts[0].term);
      AddRegroup(ts[0].op, a, v, c);
      SummandsFoldShifted(a, Apply(ts[0].op, v, c), ts[1..]);
    }
  }

  /** At a `*` the value of a term is the product of the values on either
      side; this is what lets the builder split at the last `*` even when
      `/` follows it. */
  lemma FactorsValueSplit(first: Operand, fs: seq<Factor>, k: nat)
    requires k < |fs| && fs[k].op == Mult
    ensures FactorsValue(first, fs)
         == Apply(Mult, FactorsValue(first, fs[..k]), FactorsValue(fs[k].operand, fs[k + 1..]))
  {
    var v0 := OperandValue(first);
    var a := FactorsFold(v0, fs[..k]);
    var v := OperandValue(fs[k].operand);
    FactorsValueInOrder(first, fs);
    FactorsValueInOrder(first, fs[..k]);
    FactorsValueInOrder(fs[k].operand, fs[k + 1..]);
    FactorsFoldAt(v0, fs, k);
    assert fs[k..][0] == fs[k] && fs[k..][1..] == fs[k + 1..];
    FactorsFoldScaled(a, v, fs[k + 1..]);
  }

  /** At a `+` the value of an expression is the sum of the values on either
      side. */
  lemma SummandsValueSplit(first: Term, ts: seq<Summand>, k: nat)
    requires k < |ts| && ts[k].op == Plus
    ensures SummandsValue(first, ts)
         == Apply(Plus, SummandsValue(first, ts[..k]), SummandsValue(ts[k].term, ts[k + 1..]))
  {
    var v0 := TermValue(first);
    var a := SummandsFold(v0, ts[..k]);
    var v := TermValue(ts[k].term);
    SummandsValueInOrder(first, ts);
    SummandsValueInOrder(first, ts[..k]);
    SummandsValueInOrder(ts[k].term, ts[k + 1..]);
    SummandsFoldAt(v0, ts, k);
    assert ts[k..][0] == ts[k] && ts[k..][1..] == ts[k + 1..];
    SummandsFoldShifted(a, v, ts[k + 1..]);
  }

  // ---------------------------------------------------------------------------
  // Which operator characters occur

  /** The only operator characters in a term's text are its own `*` and `/`. */
  lemma {:induction false} FactorsChars(first: Operand, fs: seq<Factor>)
    ensures forall c :: c in RenderFactors(first, fs) ==> !IsOperatorChar(c) || c in MulSymbols(fs)
    decreases |fs|
  {
    var n := |fs|;
    if n > 0 {
      var init := fs[..n - 1];
      FactorsChars(first, init);
      assert MulSymbols(init) == MulSymbols(fs)[..n - 1];
      assert MulSymbols(fs)[n - 1] == Symbol(fs[n - 1].op);
    }
  }

  /** A term's text has neither `+` nor `-`. */
  lemma TermHasNoAdd(t: Term)
    ensures '+' !in RenderTerm(t) && '-' !in RenderTerm(t)
  {
    FactorsChars(t.first, t.factors);
  }

  /** The only `+` and `-` in an expression's text are those between its
      terms. */
  lemma {:induction false} SummandsChars(first: Term, ts: seq<Summand>)
    ensures forall c :: c in RenderSummands(first, ts) && (c == '+' || c == '-') ==> c in AddSymbols(ts)
    decreases |ts|
  {
    var n := |ts|;
    if n == 0 {
      TermHasNoAdd(first);
    } else {
      var init := ts[..n - 1];
      SummandsChars(first, init);
      TermHasNoAdd(ts[n - 1].term);
      assert AddSymbols(init) == AddSymbols(ts)[..n - 1];
      assert AddSymbols(ts)[n - 1] == Symbol(ts[n - 1].op);
    }
  }

  // ---------------------------------------------------------------------------
  // The tree of rendered text

  /** An operand becomes a leaf of its last run of digits, or an empty node. */
  lemma OperandBuild(o: Operand)
    ensures Eval(Build(o)) == OperandValue(o)
  {
    LeafRule(o);
    if !NoDigit(o) {
      var (b, e) := LastRun(o).value;
      assert o[b..e][0] == o[b];
    }
  }

  /** `*` and `/` are the only symbols of a term's operators. */
  lemma MulSymbolsHaveNoAdd(fs: seq<Factor>)
    ensures '+' !in MulSymbols(fs) && '-' !in MulSymbols(fs)
  {
  }

  /** Where `build_ast` splits a term with at least one operator: at its last
      `*`, or at its last `/` when it has no `*`. */
  function MulSplit(fs: seq<Factor>): (k: nat)
    requires fs != []
    ensures k < |fs|
    ensures fs[k].op == Mult ==> '*' !in MulSymbols(fs[k + 1..])
    ensures fs[k].op == Div ==> '*' !in MulSymbols(fs) && k == |fs| - 1
  {
    var syms := MulSymbols(fs);
    match LastIndexOfAny(syms, {'*'})
    case Some(k) =>
      AbsentAfterLast(syms, {'*'}, k, '*');
      assert MulSymbols(fs[k + 1..]) == syms[k + 1..];
      k
    case None =>
      AbsentWhenNone(syms, {'*'}, '*');
      |fs| - 1
  }

  /** Where `build_ast` splits an expression with at least two terms: at its
      last `+`, or at its last `-` when it has no `+`. */
  function AddSplit(ts: seq<Summand>): (k: nat)
    requires ts != []
    ensures k < |ts|
    ensures ts[k].op == Plus ==> '+' !in AddSymbols(ts[k + 1..])
    ensures ts[k].op == Minus ==> '+' !in AddSymbols(ts) && k == |ts| - 1
  {
    var syms := AddSymbols(ts);
    match LastIndexOfAny(syms, {'+'})
    case Some(k) =>
      AbsentAfterLast(syms, {'+'}, k, '+');
      assert AddSymbols(ts[k + 1..]) == syms[k + 1..];
      k
    case None =>
      AbsentWhenNone(syms, {'+'}, '+');
      |ts| - 1
  }

  /** The tree of a term's text is split at `MulSplit`. */
  lemma TermTree(first: Operand, fs: seq<Factor>)
    requires fs != []
    ensures var k := MulSplit(fs);
      Build(RenderFactors(first, fs))
      == Bin(fs[k].op, Build(RenderFactors(first, fs[..k])), Build(RenderFactors(fs[k].operand, fs[k + 1..])))
  {
    var k := MulSplit(fs);
    var op := fs[k].op;
    FactorsSplit(first, fs, k);
    var left := RenderFactors(first, fs[..k]);
    var right := RenderFactors(fs[k].operand, fs[k + 1..]);
    FactorsChars(first, fs[..k]);
    FactorsChars(fs[k].operand, fs[k + 1..]);
    MulSymbolsHaveNoAdd(fs[..k]);
    MulSymbolsHaveNoAdd(fs[k + 1..]);
    if op == Div {
      assert MulSymbols(fs[..k]) == MulSymbols(fs)[..k];
      AbsentFromSlice(MulSymbols(fs), '*', 0, k);
      assert fs[k + 1..] == [];
    }
    SplitConcat(left, op, right);
  }

  /** The tree of an expression's text is split at `AddSplit`. */
  lemma ExprTree(first: Term, ts: seq<Summand>)
    requires ts != []
    ensures var k := AddSplit(ts);
      Build(RenderSummands(first, ts))
      == Bin(ts[k].op, Build(RenderSummands(first, ts[..k])), Build(RenderSummands(ts[k].term, ts[k + 1..])))
  {
    var k := AddSplit(ts);
    var op := ts[k].op;
    SummandsSplit(first, ts, k);
    var left := RenderSummands(first, ts[..k]);
    var right := RenderSummands(ts[k].term, ts[k + 1..]);
    SummandsChars(first, ts[..k]);
    SummandsChars(ts[k].term, ts[k + 1..]);
    if op == Minus {
      assert AddSymbols(ts[..k]) == AddSymbols(ts)[..k];
      AbsentFromSlice(AddSymbols(ts), '+', 0, k);
      assert ts[k + 1..] == [];
      TermHasNoAdd(ts[k].term);
    }
    SplitConcat(left, op, right);
  }

  /** A term's tree evaluates to the term's value. */
  lemma {:induction false} TermBuild(first: Operand, fs: seq<Factor>)
    ensures Eval(Build(RenderFactors(first, fs))) == FactorsValue(first, fs)
    decreases |fs|
  {
    if fs == [] {
      OperandBuild(first);
    } else {
      var k := MulSplit(fs);
      TermTree(first, fs);
      TermBuild(first, fs[..k]);
      TermBuild(fs[k].operand, fs[k + 1..]);
      if fs[k].op == Mult {
        FactorsValueSplit(first, fs, k);
      } else {
        assert fs[k + 1..] == [];
      }
    }
  }

  /** An expression's tree evaluates to the expression's value. */
  lemma {:induction false} ExprBuild(first: Term, ts: seq<Summand>)
    ensures Eval(Build(RenderSummands(first, ts))) == SummandsValue(first, ts)
    decreases |ts|
  {
    if ts == [] {
      TermBuild(first.first, first.factors);
    } else {
      var k := AddSplit(ts);
      ExprTree(first, ts);
      ExprBuild(first, ts[..k]);
      ExprBuild(ts[k].term, ts[k + 1..]);
      if ts[k].op == Plus {
        SummandsValueSplit(first, ts, k);
      } else {
        assert ts[k + 1..] == [];
      }
    }
  }

  // ---------------------------------------------------------------------------
  // The same text read from left to right

  /** The operators and operands of a term after its first operand, in
      reading order. */
  function FactorsText(fs: seq<Factor>): string {
    if fs == [] then "" else [Symbol(fs[0].op)] + fs[0].operand + FactorsText(fs[1..])
  }

  /** The operators and terms of an expression after its first term, in
      reading order. */
  function SummandsText(ts: seq<Summand>): string {
    if ts == [] then "" else [Symbol(ts[0].op)] + RenderTerm(ts[0].term) + SummandsText(ts[1..])
  }

  /** Rendering a term from its last operator back and reading it from
      its first operand on give the same text. */
  lemma {:induction false} FactorsReadInOrder(first: Operand, fs: seq<Factor>)
    ensures RenderFactors(first, fs) == first + FactorsText(fs)
    decreases |fs|
  {
    if fs != [] {
      var n := |fs|;
      var init, last := fs[..n - 1], fs[n - 1];
      var b, c, d := FactorsText(init), [Symbol(last.op)], last.operand;
      FactorsReadInOrder(first, init);
      assert RenderFactors(first, fs) == RenderFactors(first, init) + c + d;
      FactorsTextSnoc(init, last);
      assert init + [last] == fs;
      Append(first, b, c, d);
    }
  }

  /** Rendering an expression from its last operator back and reading it
      from its first term on give the same text. */
  lemma {:induction false} SummandsReadInOrder(first: Term, ts: seq<Summand>)
    ensures RenderSummands(first, ts) == RenderTerm(first) + SummandsText(ts)
    decreases |ts|
  {
    if ts != [] {
      var n := |ts|;
      var init, last := ts[..n - 1], ts[n - 1];
      var b, c, d := SummandsText(init), [Symbol(last.op)], RenderTerm(last.term);
      SummandsReadInOrder(first, init);
      assert RenderSummands(first, ts) == RenderSummands(first, init) + c + d;
      SummandsTextSnoc(init, last);
      assert init + [last] == ts;
      Append(RenderTerm(first), b, c, d);
    }
  }

  lemma Append<T>(a: seq<T>, b: seq<T>, c: seq<T>, d: seq<T>)
    ensures a + b + c + d == a + (b + c + d)
  {
  }

  /** Reading one more factor appends its operator and operand. */
  lemma {:induction false} FactorsTextSnoc(fs: seq<Factor>, f: Factor)
    ensures FactorsText(fs + [f]) == FactorsText(fs) + [Symbol(f.op)] + f.operand
    decreases |fs|
  {
    if fs != [] {
      assert (fs + [f])[0] == fs[0] && (fs + [f])[1..] == fs[1..] + [f];
      FactorsTextSnoc(fs[1..], f);
    } else {
      assert ([] + [f])[1..] == [];
    }
  }

  /** Reading one more summand appends its operator and term. */
  lemma {:induction false} SummandsTextSnoc(ts: seq<Summand>, p: Summand)
    ensures SummandsText(ts + [p]) == SummandsText(ts) + [Symbol(p.op)] + RenderTerm(p.term)
    decreases |ts|
  {
    if ts != [] {
      assert (ts + [p])[0] == ts[0] && (ts + [p])[1..] == ts[1..] + [p];
      SummandsTextSnoc(ts[1..], p);
    } else {
      assert ([] + [p])[1..] == [];
    }
  }

  /** A term evaluated as it is read: each operator combines the running
      value with the next operand. */
  function FactorsFold(acc: Result<real>, fs: seq<Factor>): Result<real>
    decreases |fs|
  {
    if fs == [] then acc else FactorsFold(Apply(fs[0].op, acc, OperandValue(fs[0].operand)), fs[1..])
  }

  /** An expression evaluated as it is read, term by term. */
  function SummandsFold(acc: Result<real>, ts: seq<Summand>): Result<real>
    decreases |ts|
  {
    if ts == [] then acc else SummandsFold(Apply(ts[0].op, acc, TermValue(ts[0].term)), ts[1..])
  }

  lemma {:induction false} FactorsFoldSnoc(acc: Result<real>, fs: seq<Factor>, f: Factor)
    ensures FactorsFold(acc, fs + [f]) == Apply(f.op, FactorsFold(acc, fs), OperandValue(f.operand))
    decreases |fs|
  {
    if fs != [] {
      assert (fs + [f])[0] == fs[0] && (fs + [f])[1..] == fs[1..] + [f];
      FactorsFoldSnoc(Apply(fs[0].op, acc, OperandValue(fs[0].operand)), fs[1..], f);
    } else {
      assert ([] + [f])[1..] == [];
    }
  }

  lemma {:induction false} SummandsFoldSnoc(acc: Result<real>, ts: seq<Summand>, p: Summand)
    ensures SummandsFold(acc, ts + [p]) == Apply(p.op, SummandsFold(acc, ts), TermValue(p.term))
    decreases |ts|
  {
    if ts != [] {
      assert (ts + [p])[0] == ts[0] && (ts + [p])[1..] == ts[1..] + [p];
      SummandsFoldSnoc(Apply(ts[0].op, acc, TermValue(ts[0].term)), ts[1..], p);
    } else {
      assert ([] + [p])[1..] == [];
    }
  }

  /** Evaluating a term from its last operator back and as it is read give
      the same value. */
  lemma {:induction false} FactorsValueInOrder(first: Operand, fs: seq<Factor>)
    ensures FactorsValue(first, fs) == FactorsFold(OperandValue(first), fs)
    decreases |fs|
  {
    if fs != [] {
      var n := |fs|;
      var init, last := fs[..n - 1], fs[n - 1];
      assert FactorsValue(first, fs) == Apply(last.op, FactorsValue(first, init), OperandValue(last.operand));
      assert init + [last] == fs;
      FactorsValueInOrder(first, init);
      FactorsFoldSnoc(OperandValue(first), init, last);
    }
  }

  /** Evaluating an expression from its last operator back and as it is read
      give the same value. */
  lemma {:induction false} SummandsValueInOrder(first: Term, ts: seq<Summand>)
    ensures SummandsValue(first, ts) == SummandsFold(TermValue(first), ts)
    decreases |ts|
  {
    if ts != [] {
      var n := |ts|;
      var init, last := ts[..n - 1], ts[n - 1];
      assert SummandsValue(first, ts) == Apply(last.op, SummandsValue(first, init), TermValue(last.term));
      assert init + [last] == ts;
      SummandsValueInOrder(first, init);
      SummandsFoldSnoc(TermValue(first), init, last);
    }
  }

  // ---------------------------------------------------------------------------
  // Reading any text as an expression

  lemma FactorsSnoc(first: Operand, fs: seq<Factor>, f: Factor)
    ensures RenderFactors(first, fs + [f]) == RenderFactors(first, fs) + [Symbol(f.op)] + f.operand
  {
    assert (fs + [f])[..|fs|] == fs;
  }

  lemma SummandsSnoc(first: Term, ts: seq<Summand>, p: Summand)
    ensures RenderSummands(first, ts + [p]) == RenderSummands(first, ts) + [Symbol(p.op)] + RenderTerm(p.term)
  {
    assert (ts + [p])[..|ts|] == ts;
  }

  /** A character absent from a text is absent from every piece of it. */
  lemma AbsentFromSlice(s: string, c: char, lo: nat, hi: nat)
    requires lo <= hi <= |s| && c !in s
    ensures c !in s[lo..hi]
  {
    var t := s[lo..hi];
    forall k | 0 <= k < |t| ensures t[k] != c {
      assert t[k] == s[lo + k];
    }
  }

  /** Nothing from `cs` follows the last occurrence of a member of `cs`. */
  lemma AbsentAfterLast(s: string, cs: set<char>, i: nat, c: char)
    requires LastIndexOfAny(s, cs) == Some(i) && c in cs
    ensures c !in s[i + 1..]
  {
    var t := s[i + 1..];
    forall k | 0 <= k < |t| ensures t[k] != c {
      assert t[k] == s[i + 1 + k];
    }
  }

  /** Nothing from `cs` occurs when no last occurrence exists. */
  lemma AbsentWhenNone(s: string, cs: set<char>, c: char)
    requires LastIndexOfAny(s, cs).None? && c in cs
    ensures c !in s
  {
    assert forall j :: 0 <= j < |s| ==> s[j] != c;
  }

  /** A text without any of the four operator characters is an operand. */
  lemma IsOperand(s: string)
    requires '+' !in s && '-' !in s && '*' !in s && '/' !in s
    ensures NoOperator(s)
  {
    forall j | 0 <= j < |s| ensures !IsOperatorChar(s[j]) {
      assert s[j] in s;
    }
  }

  /** Cutting a text without `+` and `-` at its last `*` or `/` leaves a
      left part without `+` and `-` and an operand on the right. */
  lemma CutTerm(s: string, i: nat)
    requires '+' !in s && '-' !in s
    requires LastIndexOfAny(s, {'*', '/'}) == Some(i)
    ensures '+' !in s[..i] && '-' !in s[..i]
    ensures NoOperator(s[i + 1..])
    ensures s[i] == '*' || s[i] == '/'
    ensures s == s[..i] + [s[i]] + s[i + 1..]
  {
    AbsentFromSlice(s, '+', 0, i);
    AbsentFromSlice(s, '-', 0, i);
    CutTermRight(s, i);
    Around(s, i);
  }

  /** The right part of the cut above. */
  lemma CutTermRight(s: string, i: nat)
    requires '+' !in s && '-' !in s
    requires LastIndexOfAny(s, {'*', '/'}) == Some(i)
    ensures NoOperator(s[i + 1..])
    ensures s[i] == '*' || s[i] == '/'
  {
    var r := s[i + 1..];
    AbsentFromSlice(s, '+', i + 1, |s|);
    AbsentFromSlice(s, '-', i + 1, |s|);
    AbsentAfterLast(s, {'*', '/'}, i, '*');
    AbsentAfterLast(s, {'*', '/'}, i, '/');
    IsOperand(r);
  }

  /** A text without any operator character is one operand. */
  lemma WholeOperand(s: string)
    requires '+' !in s && '-' !in s
    requires LastIndexOfAny(s, {'*', '/'}).None?
    ensures NoOperator(s)
  {
    AbsentWhenNone(s, {'*', '/'}, '*');
    AbsentWhenNone(s, {'*', '/'}, '/');
    IsOperand(s);
  }

  /** Cutting any text at its last `+` or `-` leaves a right part without
      `+` and `-`. */
  lemma CutExpr(s: string, i: nat)
    requires LastIndexOfAny(s, {'+', '-'}) == Some(i)
    ensures '+' !in s[i + 1..] && '-' !in s[i + 1..]
    ensures s[i] == '+' || s[i] == '-'
    ensures s == s[..i] + [s[i]] + s[i + 1..]
  {
    AbsentAfterLast(s, {'+', '-'}, i, '+');
    AbsentAfterLast(s, {'+', '-'}, i, '-');
    Around(s, i);
  }

  /** A text is the part before position `i`, the character there, and the
      part after it. */
  lemma Around(s: string, i: nat)
    requires i < |s|
    ensures s == s[..i] + [s[i]] + s[i + 1..]
  {
    assert s[i..] == [s[i]] + s[i + 1..];
    assert s == s[..i] + s[i..];
  }

  /** Cut a text without `+` and `-` into its operands at every `*` and `/`. */
  function TokenizeTerm(s: string): (t: Term)
    requires '+' !in s && '-' !in s
    ensures RenderTerm(t) == s
    decreases |s|
  {
    match LastIndexOfAny(s, {'*', '/'})
    case None =>
      WholeOperand(s);
      Term(s, [])
    case Some(i) =>
      CutTerm(s, i);
      var t := TokenizeTerm(s[..i]);
      var f := Factor(if s[i] == '*' then Mult else Div, s[i + 1..]);
      FactorsSnoc(t.first, t.factors, f);
      Term(t.first, t.factors + [f])
  }

  /** Cut any text into terms at every `+` and `-`, and each term into
      operands. */
  function Tokenize(s: string): (e: Expr)
    ensures RenderExpr(e) == s
    decreases |s|
  {
    match LastIndexOfAny(s, {'+', '-'})
    case None => Expr(TokenizeTerm(s), [])
    case Some(i) =>
      CutExpr(s, i);
      var e := Tokenize(s[..i]);
      var p := Summand(if s[i] == '+' then Plus else Minus, TokenizeTerm(s[i + 1..]));
      SummandsSnoc(e.first, e.summands, p);
      Expr(e.first, e.summands + [p])
  }

  /** The main theorem: for every string, the tree `build_ast` builds
      evaluates to what the grammar with the usual precedence and
      left-to-right evaluation gives for that string. */
  lemma BuildFollowsGrammar(s: string)
    ensures Eval(Build(s)) == ExprValue(Tokenize(s))
  {
    var e := Tokenize(s);
    ExprBuild(e.first, e.summands);
  }
}
