/** `build_ast` of calculator.js: the tree builder, first as the pure function
    `Build` that says which tree a string yields, then as the imperative code
    that fills in caller-supplied node records (`AstNode`, `BuildAst`) and the
    evaluation that walks those records (`EvalAst`). */
module Builder {
  import opened Scan
  import opened Ast

  // ---------------------------------------------------------------------------
  // The specification

  /** The match the do-while loop of `build_ast` ends up with for table entry
      `k`: the last occurrence of the operator character, or the last signed
      run of digits. */
  function FindLast(k: Kind, s: string): (r: Option<Match>)
    ensures r.Some? ==> r.value.index < |s|
    ensures k.Binary? ==> (r.None? <==> Symbol(k.op) !in s)
    ensures k.Binary? && r.Some? ==>
      && s[r.value.index] == Symbol(k.op) && r.value.text == [Symbol(k.op)]
      && forall j :: r.value.index < j < |s| ==> s[j] != Symbol(k.op)
    ensures k.Number? ==> (r.None? <==> NoDigit(s))
    ensures k.Number? && r.Some? ==> IsNumberText(r.value.text)
  {
    match k
    case Binary(op) =>
      (match LastIndexOfAny(s, {Symbol(op)})
       case None => None
       case Some(i) => Some(Match(i, [Symbol(op)])))
    case Number => LastNumber(s)
  }

  /** The for loop over the operator table from entry `i` on: the first entry
      that matches anywhere in `s`, with its last match. */
  function Select(s: string, i: nat): (r: Option<(Kind, Match)>)
    requires i <= |Ops|
    ensures r.Some? ==> FindLast(r.value.0, s) == Some(r.value.1)
    decreases |Ops| - i
  {
    if i == |Ops| then None
    else match FindLast(Ops[i], s)
      case Some(m) => Some((Ops[i], m))
      case None => Select(s, i + 1)
  }

  /** The tree `build_ast` builds for `s`: split at the chosen operator and
      recurse on the text before it and the text after it, or take the matched
      digits as a leaf, or leave the node empty when nothing matches. */
  function Build(s: string): Node
    decreases |s|
  {
    match Select(s, 0)
    case None => Empty
    case Some((k, m)) =>
      if k.Number? then Leaf(m.text)
      else Bin(k.op, Build(s[..m.index]), Build(s[m.index + 1..]))
  }

  /** The order of the operator table: the position of each operator in it. */
  function Rank(op: Op): nat {
    match op
    case Plus => 0
    case Minus => 1
    case Mult => 2
    case Div => 3
  }

  /** The table holds the four operators at their ranks and the value
      pattern last. */
  lemma TableOrder()
    ensures |Ops| == 5 && Ops[4] == Number
    ensures forall o: Op :: Rank(o) < 4 && Ops[Rank(o)] == Binary(o)
  {
  }

  /** The outcome of the for loop, entry by entry of the table: the first of
      `+ - * /` that occurs in `s` wins, and the value pattern is tried only
      when none does. */
  lemma SelectCases(s: string)
    ensures Symbol(Plus) in s ==> Select(s, 0) == Some((Binary(Plus), FindLast(Binary(Plus), s).value))
    ensures Symbol(Plus) !in s && Symbol(Minus) in s ==>
      Select(s, 0) == Some((Binary(Minus), FindLast(Binary(Minus), s).value))
    ensures Symbol(Plus) !in s && Symbol(Minus) !in s && Symbol(Mult) in s ==>
      Select(s, 0) == Some((Binary(Mult), FindLast(Binary(Mult), s).value))
    ensures Symbol(Plus) !in s && Symbol(Minus) !in s && Symbol(Mult) !in s && Symbol(Div) in s ==>
      Select(s, 0) == Some((Binary(Div), FindLast(Binary(Div), s).value))
    ensures Symbol(Plus) !in s && Symbol(Minus) !in s && Symbol(Mult) !in s && Symbol(Div) !in s ==>
      Select(s, 0) == (if NoDigit(s) then None else Some((Number, LastNumber(s).value)))
  {
    assert Ops[0] == Binary(Plus) && Ops[1] == Binary(Minus) && Ops[2] == Binary(Mult);
    assert Ops[3] == Binary(Div) && Ops[4] == Number;
    if Symbol(Plus) !in s {
      assert Select(s, 0) == Select(s, 1);
      if Symbol(Minus) !in s {
        assert Select(s, 1) == Select(s, 2);
        if Symbol(Mult) !in s {
          assert Select(s, 2) == Select(s, 3);
          if Symbol(Div) !in s {
            assert Select(s, 3) == Select(s, 4);
          }
        }
      }
    }
  }

  /** The split rule: when `op` is the first operator of the table that occurs
      in `s` and `i` is its last occurrence, the tree is an `op` node over the
      trees of the text before and the text after position `i`. */
  lemma SplitRule(s: string, op: Op, i: nat)
    requires i < |s| && s[i] == Symbol(op)
    requires forall j :: i < j < |s| ==> s[j] != Symbol(op)
    requires forall o: Op :: Rank(o) < Rank(op) ==> Symbol(o) !in s
    ensures Build(s) == Bin(op, Build(s[..i]), Build(s[i + 1..]))
  {
    SelectOperator(s, op, i);
    BuildOfSelect(s);
  }

  /** Under the conditions of the split rule, the for loop chooses `op` with
      its match at `i`. */
  lemma SelectOperator(s: string, op: Op, i: nat)
    requires i < |s| && s[i] == Symbol(op)
    requires forall j :: i < j < |s| ==> s[j] != Symbol(op)
    requires forall o: Op :: Rank(o) < Rank(op) ==> Symbol(o) !in s
    ensures Select(s, 0) == Some((Binary(op), Match(i, [Symbol(op)])))
  {
    LastIndexOfIs(s, Symbol(op), i);
    assert FindLast(Binary(op), s) == Some(Match(i, [Symbol(op)]));
    SelectCases(s);
    match op
    case Plus =>
    case Minus =>
      assert Rank(Plus) < Rank(op);
    case Mult =>
      assert Rank(Plus) < Rank(op) && Rank(Minus) < Rank(op);
    case Div =>
      assert Rank(Plus) < Rank(op) && Rank(Minus) < Rank(op) && Rank(Mult) < Rank(op);
  }

  /** Conversely, when the for loop chooses an operator, its match is the
      last occurrence of that operator, no operator earlier in the table
      occurs in the text, and both sides of the split are shorter than the
      text. */
  lemma SelectChoosesFirstLast(s: string)
    requires Select(s, 0).Some? && Select(s, 0).value.0.Binary?
    ensures var (k, m) := Select(s, 0).value;
      && m.index < |s| && s[m.index] == Symbol(k.op)
      && (forall j :: m.index < j < |s| ==> s[j] != Symbol(k.op))
      && (forall o: Op :: Rank(o) < Rank(k.op) ==> Symbol(o) !in s)
      && |s[..m.index]| < |s| && |s[m.index + 1..]| < |s|
  {
    SelectCases(s);
  }

  /** The split rule for a text given as the two sides of the operator: no
      later occurrence of `op` and no operator earlier in the table on either
      side. */
  lemma SplitConcat(left: string, op: Op, right: string)
    requires Symbol(op) !in right
    requires Rank(op) > 0 ==> '+' !in left && '+' !in right
    requires Rank(op) > 1 ==> '-' !in left && '-' !in right
    requires Rank(op) > 2 ==> '*' !in left && '*' !in right
    ensures Build(left + [Symbol(op)] + right) == Bin(op, Build(left), Build(right))
  {
    var s := left + [Symbol(op)] + right;
    assert s[..|left|] == left && s[|left| + 1..] == right;
    forall j | |left| < j < |s| ensures s[j] != Symbol(op) {
      assert s[j] == right[j - |left| - 1];
    }
    forall o: Op | Rank(o) < Rank(op) ensures Symbol(o) !in s {
      assert Symbol(o) != Symbol(op);
    }
    SplitRule(s, op, |left|);
  }

  /** A table entry that does not match passes the choice to the next one. */
  lemma SelectSkips(s: string, i: nat)
    requires i < |Ops| && FindLast(Ops[i], s).None?
    ensures Select(s, i) == Select(s, i + 1)
  {
  }

  /** One unfolding of `Build`. */
  lemma BuildOfSelect(s: string)
    ensures Select(s, 0).None? ==> Build(s) == Empty
    ensures Select(s, 0).Some? && Select(s, 0).value.0.Number? ==>
      Build(s) == Leaf(Select(s, 0).value.1.text)
    ensures Select(s, 0).Some? && Select(s, 0).value.0.Binary? ==>
      var m := Select(s, 0).value.1;
      Build(s) == Bin(Select(s, 0).value.0.op, Build(s[..m.index]), Build(s[m.index + 1..]))
  {
  }

  /** A string without operator characters yields a leaf holding its last
      maximal run of digits, or an empty node when it has no digit. */
  lemma LeafRule(s: string)
    requires NoOperator(s)
    ensures NoDigit(s) ==> Build(s) == Empty
    ensures !NoDigit(s) ==> Build(s).Leaf? && Build(s).sym == s[LastRun(s).value.0..LastRun(s).value.1]
  {
    SelectCases(s);
    if !NoDigit(s) {
      var m := LastNumber(s).value;
      var (b, e) := LastRun(s).value;
      assert m == SignedAt(s, b, e);
      assert b > 0 ==> !IsOperatorChar(s[b - 1]);
      assert Build(s) == Leaf(m.text);
    }
  }

  /** A node has an operator exactly when its text holds an operator
      character. */
  lemma BinIffOperator(s: string)
    ensures Build(s).Bin? <==> !NoOperator(s)
  {
    BuildOfSelect(s);
    if NoOperator(s) {
      LeafRule(s);
    } else {
      SelectFindsOperator(s);
    }
  }

  /** Some operator entry of the table matches a text that holds an operator
      character. */
  lemma SelectFindsOperator(s: string)
    requires !NoOperator(s)
    ensures Select(s, 0).Some? && Select(s, 0).value.0.Binary?
  {
    var j :| 0 <= j < |s| && IsOperatorChar(s[j]);
    assert s[j] in s;
    SelectCases(s);
  }

  // ---------------------------------------------------------------------------
  // The implementation

  /** One node record of the tree (`root`, `root.lhs`, `root.rhs`): the table
      entry that matched (`op`), its matched text (`sym`) and, for an operator,
      the two child records. `Tree` is the value the record and everything
      below it stand for; `Repr` is the set of those records. */
  class AstNode {
    var op: Option<Kind>
    var sym: string
    var lhs: AstNode?
    var rhs: AstNode?
    ghost var Tree: Node
    ghost var Repr: set<object>

    ghost predicate Valid()
      reads this, Repr
      decreases Repr
    {
      && this in Repr
      && match Tree
         case Empty => op.None? && lhs == null && rhs == null
         case Leaf(text) => op == Some(Number) && sym == text && lhs == null && rhs == null
         case Bin(o, l, r) =>
           && op == Some(Binary(o)) && sym == [Symbol(o)]
           && lhs != null && rhs != null
           && lhs in Repr && lhs.Repr <= Repr && this !in lhs.Repr
           && rhs in Repr && rhs.Repr <= Repr && this !in rhs.Repr
           && lhs.Repr !! rhs.Repr
           && lhs.Tree == l && rhs.Tree == r
           && lhs.Valid() && rhs.Valid()
    }

    /** `{}`: a record with nothing filled in. */
    constructor ()
      ensures Valid() && Tree == Empty && Repr == {this}
    {
      op, sym, lhs, rhs := None, "", null, null;
      Tree, Repr := Empty, {this};
    }

    /** Record a match of the value pattern: the node becomes a leaf. */
    method SetLeaf(text: NumberText)
      requires Valid() && Tree == Empty && Repr == {this}
      modifies this
      ensures Valid() && Tree == Leaf(text) && Repr == {this}
    {
      op, sym := Some(Number), text;
      Tree := Leaf(text);
    }

    /** Record a match of operator `o` and hang the two filled child records
        below the node. */
    method SetBinary(o: Op, left: AstNode, right: AstNode)
      requires Valid() && Tree == Empty && Repr == {this}
      requires left.Valid() && right.Valid()
      requires this !in left.Repr && this !in right.Repr && left.Repr !! right.Repr
      modifies this
      ensures Valid() && Tree == Bin(o, left.Tree, right.Tree)
      ensures Repr == {this} + left.Repr + right.Repr
    {
      op, sym := Some(Binary(o)), [Symbol(o)];
      lhs, rhs := left, right;
      Tree, Repr := Bin(o, left.Tree, right.Tree), {this} + left.Repr + right.Repr;
      KeepsValid(left);
      KeepsValid(right);
    }
  }

  /** A record stays well formed while nothing it reaches changes. */
  twostate lemma KeepsValid(n: AstNode)
    requires old(n.Valid())
    requires unchanged(n) && unchanged(old(n.Repr))
    ensures n.Valid() && n.Tree == old(n.Tree) && n.Repr == old(n.Repr)
  {
  }

  /** What one call of `exec` on the global pattern of table entry `k` returns
      when the search starts at `lastIndex`. */
  function Exec(k: Kind, s: string, lastIndex: nat): (r: Option<Match>)
    requires lastIndex <= |s|
    ensures r.Some? ==> lastIndex <= r.value.index && r.value.index + |r.value.text| <= |s|
    ensures r.Some? ==> |r.value.text| > 0
  {
    match k
    case Binary(op) =>
      (match NextIndexOf(s, Symbol(op), lastIndex)
       case None => None
       case Some(i) => Some(Match(i, [Symbol(op)])))
    case Number => NextNumber(s, lastIndex)
  }

  /** What the do-while loop knows after its search has reached `lastIndex`
      with `result` as the latest match: for an operator, `result` is an
      occurrence just before `lastIndex`; for the value pattern, `lastIndex`
      ends a run of digits and `result` is that run with its sign. */
  ghost predicate Scanned(k: Kind, s: string, lastIndex: nat, result: Option<Match>) {
    && lastIndex <= |s|
    && (result.None? ==> lastIndex == 0)
    && (k.Binary? ==> OperatorScanned(k.op, s, lastIndex, result))
    && (k.Number? ==> NumberScanned(s, lastIndex, result))
  }

  /** `Scanned` for an operator's pattern: the latest match is an occurrence
      just before `lastIndex`. */
  ghost predicate OperatorScanned(op: Op, s: string, lastIndex: nat, result: Option<Match>) {
    result.Some? ==>
      && lastIndex == result.value.index + 1
      && result.value.index < |s|
      && s[result.value.index] == Symbol(op)
      && result.value.text == [Symbol(op)]
  }

  /** `Scanned` for the value pattern: `lastIndex` ends a run of digits and
      the latest match is that run with its sign. */
  ghost predicate NumberScanned(s: string, lastIndex: nat, result: Option<Match>) {
    && lastIndex <= |s|
    && AtRunEnd(s, lastIndex)
    && (result.Some? ==>
          && 0 < lastIndex && RunStart(s, lastIndex - 1) < lastIndex
          && result.value == SignedAt(s, RunStart(s, lastIndex - 1), lastIndex))
  }

  /** One more `exec` that finds a match keeps `Scanned`. */
  lemma ScanStep(k: Kind, s: string, lastIndex: nat, result: Option<Match>, m: Match)
    requires Scanned(k, s, lastIndex, result) && Exec(k, s, lastIndex) == Some(m)
    ensures Scanned(k, s, m.index + |m.text|, Some(m))
  {
    match k
    case Binary(op) => OperatorStep(op, s, lastIndex, m);
    case Number => NumberStep(s, lastIndex, m);
  }

  /** `ScanStep` for an operator's pattern. */
  lemma OperatorStep(op: Op, s: string, lastIndex: nat, m: Match)
    requires lastIndex <= |s| && Exec(Binary(op), s, lastIndex) == Some(m)
    ensures Scanned(Binary(op), s, m.index + |m.text|, Some(m))
  {
    var i := NextIndexOf(s, Symbol(op), lastIndex).value;
    assert m == Match(i, [Symbol(op)]);
  }

  /** `ScanStep` for the value pattern. */
  lemma NumberStep(s: string, lastIndex: nat, m: Match)
    requires lastIndex <= |s| && AtRunEnd(s, lastIndex) && NextNumber(s, lastIndex) == Some(m)
    ensures Scanned(Number, s, m.index + |m.text|, Some(m))
  {
    NextNumberIsRun(s, lastIndex);
  }

  /** When `exec` finds nothing more, the latest match is the last one. */
  lemma ScanDone(k: Kind, s: string, lastIndex: nat, result: Option<Match>)
    requires Scanned(k, s, lastIndex, result) && Exec(k, s, lastIndex).None?
    ensures result == FindLast(k, s)
  {
    match k
    case Binary(op) =>
      assert NextIndexOf(s, Symbol(op), lastIndex).None?;
      if result.Some? {
        LastIndexOfIs(s, Symbol(op), result.value.index);
      }
    case Number =>
      assert NextNumber(s, lastIndex).None?;
      LastNumberIs(s, lastIndex);
  }

  /** The do-while loop of `build_ast`: call `exec` until it finds nothing and
      keep the match before that, so the last one. */
  method LastMatch(k: Kind, s: string) returns (result: Option<Match>)
    ensures result == FindLast(k, s)
  {
    var lastIndex := 0;
    var found: Option<Match> := None;
    result := found;
    found := Exec(k, s, lastIndex);
    while found.Some?
      invariant lastIndex <= |s|
      invariant Scanned(k, s, lastIndex, result)
      invariant found == Exec(k, s, lastIndex)
      decreases |s| - lastIndex
    {
      result, lastIndex, found := ScanOnce(k, s, lastIndex, result, found);
    }
    ScanDone(k, s, lastIndex, result);
  }

  /** One pass of the do-while body: keep the match just found, and let
      `exec` search again from where it ended. */
  method ScanOnce(k: Kind, s: string, lastIndex: nat, result: Option<Match>, found: Option<Match>)
    returns (result': Option<Match>, lastIndex': nat, found': Option<Match>)
    requires Scanned(k, s, lastIndex, result) && found == Exec(k, s, lastIndex) && found.Some?
    ensures result' == found && lastIndex < lastIndex' <= |s|
    ensures Scanned(k, s, lastIndex', result') && found' == Exec(k, s, lastIndex')
  {
    ScanStep(k, s, lastIndex, result, found.value);
    result', lastIndex' := found, found.value.index + |found.value.text|;
    found' := Exec(k, s, lastIndex');
  }

  /** The for loop of `build_ast` over the operator table: the first entry
      whose do-while search finds a match, with the last match it found. */
  method FirstMatch(str: string) returns (entry: Option<(Kind, Match)>)
    ensures entry == Select(str, 0)
  {
    var i := 0;
    while i < |Ops|
      invariant i <= |Ops|
      invariant Select(str, i) == Select(str, 0)
    {
      var result := LastMatch(Ops[i], str);
      if result.Some? {
        return Some((Ops[i], result.value));
      }
      SelectSkips(str, i);
      i := i + 1;
    }
    return None;
  }

  /** `build_ast(root, str)`: at the first table entry that matches, record
      the match in `root` and, for an operator, fill two child records from
      the text on either side of the match. When nothing matches, `root` stays
      as it was. */
  method BuildAst(root: AstNode, str: string)
    requires root.Valid() && root.Tree == Empty && root.Repr == {root}
    modifies root
    ensures root.Valid() && root.Tree == Build(str)
    ensures fresh(root.Repr - {root})
    decreases |str|, 2
  {
    var entry := FirstMatch(str);
    BuildOfSelect(str);
    if entry.Some? {
      var (k, m) := entry.value;
      if k.Binary? {
        FillBinary(root, k.op, str[..m.index], str[m.index + 1..]);
      } else {
        root.SetLeaf(m.text);
      }
    }
  }

  /** The operator branch of `build_ast`: build the text on each side of the
      operator into a fresh record and hang both below `root`. */
  method FillBinary(root: AstNode, o: Op, left: string, right: string)
    requires root.Valid() && root.Tree == Empty && root.Repr == {root}
    modifies root
    ensures root.Valid() && root.Tree == Bin(o, Build(left), Build(right))
    ensures fresh(root.Repr - {root})
    decreases |left| + |right| + 1, 1
  {
    var l, r := Children(left, right);
    KeepsValid(root);
    root.SetBinary(o, l, r);
  }

  /** `root.lhs = {}; root.rhs = {}` followed by the two recursive calls: two
      fresh, separate records standing for the text on either side. */
  method Children(left: string, right: string) returns (l: AstNode, r: AstNode)
    ensures l.Valid() && l.Tree == Build(left) && fresh(l.Repr)
    ensures r.Valid() && r.Tree == Build(right) && fresh(r.Repr)
    ensures l.Repr !! r.Repr
    decreases |left| + |right| + 1, 0
  {
    l := NewNode(left);
    label Left:
    r := NewNode(right);
    KeepsValid@Left(l);
  }

  /** `{}` handed to `build_ast` together with `str`: a fresh record that
      `build_ast` fills in. */
  method NewNode(str: string) returns (node: AstNode)
    ensures node.Valid() && node.Tree == Build(str)
    ensures fresh(node.Repr)
    decreases |str|, 3
  {
    node := new AstNode();
    BuildAst(node, str);
  }

  /** `eval_ast(root)` over the filled records: it computes exactly what the
      tree they stand for evaluates to. */
  function EvalAst(root: AstNode): (r: Result<real>)
    reads root, root.Repr
    requires root.Valid()
    ensures r == Eval(root.Tree)
    decreases root.Repr
  {
    match root.op
    case None => Err(EmptyNode)
    case Some(Number) => Ok(ParseInt(root.sym) as real)
    case Some(Binary(o)) => Apply(o, EvalAst(root.lhs), EvalAst(root.rhs))
  }
}
