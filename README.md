# calculator.js in Dafny

This project models `calculator.js`, a small evaluator of arithmetic text.
It has four parts:

- `format_str` drops every white-space character. It then puts a `0` in
  front of a leading minus sign, so that the minus reads as a subtraction.
- `build_ast` works on a caller-supplied record. It tries the table
  `+ - * /` and then the value pattern `-?\d+`, in that order. The first
  entry that matches anywhere in the text wins. A global-regex `do … while`
  loop (`exec` until it finds nothing) keeps the last match of that entry.
  - For an operator, the record gets the operator. Two fresh `{}` records are
    filled recursively from the text before the match and the text after it.
  - For the value pattern, the record gets the matched digits.
  - When nothing matches, the record stays empty.
- `eval_ast` evaluates the filled records bottom-up.
- `evaluate` composes the three.

`calculator.js` does not resolve parentheses. A parenthesis is an ordinary
character of an operand, so `(3` stands for 3.

Modules, one file each:

- `Scan` (`scan.dfy`) replaces the regular expressions with explicit
  character scans. There are two views of each pattern.
  - The forward view is what one `exec` call returns from a given
    `lastIndex`.
  - The backward view says which match is the last one.
- `Ast` (`ast.dfy`) holds:
  - the operator table;
  - the tree as a datatype;
  - `parseInt` on matched digits, and its round trip;
  - `eval_ast` on trees (`Eval`).
- `Format` (`format.dfy`) holds `format_str` and its properties.
- `Builder` (`builder.dfy`) holds:
  - the specification function `Build`, which says which tree a string
    yields;
  - its split rules;
  - the imperative code.
  The imperative part has:
  - the `AstNode` record class, with `op`/`sym`/`lhs`/`rhs` fields;
  - the `do … while` search (`LastMatch`), proved against the backward view;
  - the `for` loop over the table (`FirstMatch`);
  - `BuildAst`, which fills records in place and is proved to build `Build(str)`;
  - `EvalAst`, over the records.
- `Precedence` (`precedence.dfy`) states what the builder achieves. Take the
  textbook grammar `expr ::= term (('+'|'-') term)*` and
  `term ::= operand (('*'|'/') operand)*`. Evaluate it from left to right,
  with `*` and `/` binding tighter. `BuildFollowsGrammar` proves that for
  every string, the tree `build_ast` builds evaluates to exactly that value
  on exact numbers.
  The tree's shape is not the grammar's: `build_ast` splits at the last `+`
  even when a `-` follows. The proof therefore goes through the
  regrouping laws `(a*b) op c = a*(b op c)` and `(a+b) op c = a+(b op c)`.
- `Calculator` (`calculator.dfy`) holds `evaluate` and the expectations of
  `tests`, as lemmas. The expectations of `test_format_str` are
  `Format.FormatExamples`.

Numbers are exact reals. A failure is a `Result` error:

- `EmptyNode`: a record that no pattern filled in. JavaScript would throw
  `TypeError` on `op.name`.
- `DivisionByZero`: a zero divisor. It is reported only when the tree holds
  no unfilled record, since JavaScript goes on computing with `Infinity` and
  the throw still comes.

## Model

| member | source | states |
|---|---|---|
| Format.Strip | calculator.js:4 | `str.replace(/\s/g, '')`: the result holds no white space and is no longer than the input |
| Format.StripAppend | calculator.js:4 | removing white space from a concatenation is removing it from each piece |
| Format.StripChars | calculator.js:4 | a character occurs in the stripped text exactly when it occurs in the input and is not white space |
| Format.StripClean | calculator.js:4 | stripping leaves a text unchanged exactly when it holds no white space |
| Format.FormatStr | calculator.js:3-10 | the result of `format_str` holds no white space and never starts with `-` |
| Format.FormatClean | calculator.js:3-10 | a text without white space and without a leading `-` comes back unchanged |
| Format.FormatLeadingMinus | calculator.js:5-7 | a clean text that starts with `-` gets a `0` in front |
| Format.FormatIdempotent | calculator.js:3-10 | formatting twice is formatting once |
| Format.SpaceInsensitive | calculator.js:4 | inserting a white-space character anywhere does not change the formatted text |
| Format.FormatExamples | calculator.js:11-14 | `" 1  - 1"` formats to `"1-1"` and `"-1"` to `"0-1"` |
| Scan.LastIndexOfAny | calculator.js:27-30 | the position of the last character from a set: the character there is in the set, none after it is, and there is none exactly when no character is in the set |
| Scan.NextIndexOf | calculator.js:41 | `exec` of a one-character global pattern from `lastIndex`: the first occurrence at or after it, or none exactly when none exists |
| Scan.LastRun | calculator.js:31 | the last maximal run of digits, absent exactly when the text has no digit |
| Scan.LastRunUnique | calculator.js:31 | a text has only one last maximal run of digits |
| Scan.NextNumber | calculator.js:31 | `exec` of `/-?\d+/g` from `lastIndex`: the leftmost position at or after it where a match starts, with the sign and every following digit; none exactly when no match starts there |
| Scan.NumberStartsAt | calculator.js:31 | defines where `/-?\d+/` can match: at a digit, or at a `-` followed by a digit |
| Scan.NumberAt | calculator.js:31 | the match that starts at such a position begins there, is non-empty and lies inside the text |
| Scan.LastNumber | calculator.js:38-42 | the last `-?\d+` match is the last maximal run of digits with its sign, absent exactly when there is no digit |
| Scan.NextNumberIsRun | calculator.js:39-42 | a match found from a run end is the signed match of a whole run, and the search may resume where it ends |
| Scan.LastNumberIs | calculator.js:39-42 | when no match starts after a run end, the last match is the run ending there, or none when the search is still at the start |
| Format.IsSpace | calculator.js:4 | defines the characters `\s` matches: the ECMAScript white-space and line-terminator characters |
| Ast.ParseInt | calculator.js:70 | defines `parseInt(sym, 10)` on `-?\d+` text: the digits' decimal value, negated after a leading `-`; its properties are `Ast.ParseIntRoundTrip` and `Ast.SignedAtValue` |
| Ast.SignedAtValue | calculator.js:70 | the signed match of a run of digits is `-?\d+` text, and `parseInt` reads from it the run's decimal value, negated when the match took a `-` |
| Ast.Apply | calculator.js:73-84 | defines one arithmetic `case` of `eval_ast` on evaluated operands; its failures are stated by `Ast.ApplyFailure` |
| Ast.ApplyFailure | calculator.js:73-84 | applying an operator fails exactly when an operand failed or a division has divisor 0; it fails for an unfilled record exactly when either operand did, otherwise the left operand's failure wins, and `DivisionByZero` arises only from such a division |
| Ast.DecimalRoundTrip | calculator.js:70 | reading back the decimal notation of `n` gives `n` |
| Ast.ParseIntRoundTrip | calculator.js:70 | `parseInt(sym, 10)` reads back every integer from its `-?\d+` notation |
| Ast.Eval | calculator.js:66-86 | evaluation fails for want of an operator exactly when the tree holds an unfilled node, wherever it sits and whatever else fails |
| Builder.TableOrder | calculator.js:26-32 | the table `Ops` holds `+ - * /` at their ranks 0 to 3 and the value pattern last, at 4 |
| Builder.Build | calculator.js:24-64 | defines the tree `build_ast` builds for a text; its properties are stated by `SplitRule`, `LeafRule`, `BinIffOperator` and `SelectChoosesFirstLast` |
| Builder.FindLast | calculator.js:38-42 | what the `do … while` leaves in `result` for an operator entry: its last occurrence, absent exactly when it does not occur. For the value entry: a `-?\d+` text, absent exactly when there is no digit |
| Builder.Select | calculator.js:33-63 | the entry the `for` loop picks carries the last match of that entry |
| Builder.SelectCases | calculator.js:26-33 | the first of `+ - * /` that occurs wins; the value pattern is tried only when none occurs |
| Builder.SelectOperator | calculator.js:33-48 | if `op` occurs last at `i` and no operator earlier in the table occurs, the loop picks `op` at `i` |
| Builder.SelectChoosesFirstLast | calculator.js:26-48 | conversely, a chosen operator is matched at its last occurrence, no operator earlier in the table occurs, and both sides of the split are shorter than the text |
| Builder.SplitRule | calculator.js:45-57 | under those conditions the tree is an `op` node over the trees of the text before and after position `i` |
| Builder.SplitConcat | calculator.js:45-57 | the split rule for a text given as its two sides around the operator |
| Builder.LeafRule | calculator.js:45-51 | text without operator characters gives an empty node when it has no digit, and otherwise a leaf holding its last maximal run of digits |
| Builder.BinIffOperator | calculator.js:45-57 | a node gets an operator and two subtrees exactly when its text holds an operator character |
| Builder.AstNode.constructor | calculator.js:53-54 | `{}`: a record with nothing filled in |
| Builder.AstNode.SetLeaf | calculator.js:49-50 | recording a value match makes the record a leaf with that text |
| Builder.AstNode.SetBinary | calculator.js:49-56 | recording an operator and two filled child records makes an operator node over their trees |
| Builder.Exec | calculator.js:41 | one `exec` call returns a non-empty match inside the text, at or after `lastIndex` |
| Builder.ScanStep | calculator.js:39-42 | one more successful `exec` keeps the loop invariant: `result` is the latest match and `lastIndex` sits just behind it |
| Builder.ScanDone | calculator.js:39-42 | when `exec` finds nothing more, `result` is the last match |
| Builder.ScanOnce | calculator.js:40-41 | one pass of the do-while body keeps the match just found, moves `lastIndex` strictly forward within the text, and keeps the loop invariant |
| Builder.LastMatch | calculator.js:38-42 | the `do … while` loop returns exactly `FindLast` |
| Builder.FirstMatch | calculator.js:33-63 | the `for` loop returns exactly `Select` |
| Builder.BuildAst | calculator.js:24-64 | `build_ast` fills `root` and fresh records below it so that they stand for `Build(str)` |
| Builder.FillBinary | calculator.js:49-57 | the operator branch makes `root` an operator node over the trees of the two sides, with only fresh records below it |
| Builder.Children | calculator.js:53-56 | the two child records are fresh, separate from each other, and stand for the trees of the text before and after the operator |
| Builder.NewNode | calculator.js:53-56 | a fresh `{}` filled by `build_ast` stands for the tree of its text |
| Builder.EvalAst | calculator.js:66-86 | `eval_ast` over the filled records computes exactly what their tree evaluates to |
| Precedence.OperandValue | calculator.js:70 | an operand fails exactly when it has no digit, and then because the node is empty |
| Precedence.MulRegroup | calculator.js:76-80 | `(a * b) op c` equals `a * (b op c)` for `op` of `*` and `/`, with errors too: the same failure wins on both sides |
| Precedence.AddRegroup | calculator.js:73-83 | `(a + b) op c` equals `a + (b op c)` for `op` of `+` and `-`, with errors too |
| Precedence.FactorsValueSplit | calculator.js:76-80 | at any `*` the value of a term is the product of the values on either side, even when `/` follows |
| Precedence.SummandsValueSplit | calculator.js:73-83 | at any `+` the value of an expression is the sum of the values on either side, even when `-` follows |
| Precedence.FactorsSplit | calculator.js:46-48 | a term's text at factor `k` is the text before it, the operator, and the text after it |
| Precedence.SummandsSplit | calculator.js:46-48 | the same for an expression at summand `k` |
| Precedence.MulSplit | calculator.js:36-42 | where `build_ast` splits a term: at its last `*`, or, when it has no `*`, at its last operator, which is a `/` |
| Precedence.AddSplit | calculator.js:36-42 | where `build_ast` splits an expression: at its last `+`, or, when it has no `+`, at its last operator, which is a `-` |
| Precedence.TermTree | calculator.js:45-57 | the tree of a term's text is split at `MulSplit` |
| Precedence.ExprTree | calculator.js:45-57 | the tree of an expression's text is split at `AddSplit` |
| Precedence.TermBuild | calculator.js:24-86 | a term's tree evaluates to the term's left-to-right value |
| Precedence.ExprBuild | calculator.js:24-86 | an expression's tree evaluates to the expression's value with the usual precedence |
| Precedence.FactorsReadInOrder | calculator.js:36-37 | rendering a term from its last operator back and reading it from the front give the same text |
| Precedence.SummandsReadInOrder | calculator.js:36-37 | the same for an expression |
| Precedence.FactorsValueInOrder | calculator.js:36-37 | evaluating a term from its last operator back equals the left-to-right fold |
| Precedence.SummandsValueInOrder | calculator.js:36-37 | the same for an expression |
| Precedence.TokenizeTerm | calculator.js:29-30 | every text without `+` and `-` is the text of some term of the grammar |
| Precedence.Tokenize | calculator.js:27-30 | every text is the text of some expression of the grammar |
| Precedence.BuildFollowsGrammar | calculator.js:36-37 | for every string, the tree `build_ast` builds evaluates to the grammar's value for that string, with the usual precedence and left-to-right evaluation |
| Calculator.Evaluate | calculator.js:88-95 | `evaluate` returns the value of the formatted input's tree, which is the grammar's value for the formatted input |
| Calculator.BuildFollowsRendering | calculator.js:24-86 | the text of every grammar expression builds a tree that evaluates to the expression's value |
| Calculator.NumeralValue | calculator.js:70 | a numeral, even with a parenthesis attached, is an operand that stands for its number |
| Calculator.SumClean | calculator.js:4-7 | text written from numerals and operators is already formatted |
| Calculator.SumReads | calculator.js:36-37 | such text reads as a grammar expression whose value is worked out term by term |
| Calculator.EvaluatesAs | calculator.js:88-95 | the input evaluates to the value its terms give from left to right with the usual precedence |
| Calculator.NegatedEvaluatesAs | calculator.js:88-95 | the same for an input with a leading minus, read as a subtraction from zero |
| Calculator.TestPlusMinus | calculator.js:100 | `"1+2+3-2-1"` evaluates to 3 |
| Calculator.TestAlternatingEven | calculator.js:101 | `"1-1+1-1+1-1"` evaluates to 0 |
| Calculator.TestAlternatingOdd | calculator.js:102 | `"1-1+1-1+1-1+1"` evaluates to 1 |
| Calculator.TestTwoDigits | calculator.js:103 | `"12-6"` evaluates to 6 |
| Calculator.TestNumber | calculator.js:104 | `"555"` evaluates to 555 |
| Calculator.TestMinus | calculator.js:105 | `"5-1"` evaluates to 4 |
| Calculator.TestMinusMinus | calculator.js:106 | `"5-1-1"` evaluates to 3 |
| Calculator.TestNegative | calculator.js:107 | `"-555"` evaluates to -555 |
| Calculator.TestNegativeChain | calculator.js:108 | `"-555-100-10-1"` evaluates to -666 |
| Calculator.TestProduct | calculator.js:110 | `"5*5"` evaluates to 25 |
| Calculator.TestSumOfProduct | calculator.js:111 | `"3+5*5"` evaluates to 28 |
| Calculator.TestSumOfQuotient | calculator.js:113 | `"3+5/5"` evaluates to 4 |
| Calculator.TestFraction | calculator.js:115 | `"3/5 + 1"` evaluates to exactly 1.6 |
| Calculator.TestParens | calculator.js:118 | `"5-1-1+(3*7)/14/8"` evaluates to exactly 3.1875, with `(3` and `7)` as operands |
| Calculator.DigitsTree | calculator.js:45-51 | a text of digits alone builds a leaf holding the whole text |
| Calculator.TreeRegroups | calculator.js:45-57 | `"10*1/3"` builds `10 * (1/3)`, not `(10*1)/3` |
| Calculator.TestDanglingOperator | calculator.js:66-68 | `"1+"` leaves its right record unfilled, and evaluating it fails |
| Calculator.TestDivisionBeforeDangling | calculator.js:66-74 | `"1/0+"` is the sum of `1/0` and an unfilled record, and evaluating it fails for the unfilled record, not for the division |

## Left out

- The test scaffolding is not modelled: `require('assert')`, `console.log`, and
  the calls of `test_format_str()` and `tests()` at load time (lines 1, 15,
  97-129). Its expectations are kept as lemmas.
- The commented-out code (lines 8, 117, 130-136) is not modelled.
- The file has no parenthesis resolution, so the model has none.
- JavaScript numbers are IEEE doubles. The model uses exact reals, where
  1.6 and 3.1875 are exact values.
- Precedence.BuildFollowsGrammar: the equality with left-to-right evaluation
  holds on exact numbers only. The tree regroups operations
  (`Calculator.TreeRegroups`: `"10*1/3"` is `10 * (1/3)`). With doubles that
  is 3.333333333333333, while `(10*1)/3` is 3.3333333333333335. Likewise
  `"1/3+1-1"` is `1/3 + (1-1)`, which is 0.3333333333333333, while
  `(1/3+1)-1` is 0.33333333333333326.
- Ast.Apply: division by zero is the error `DivisionByZero`. JavaScript
  gives ±`Infinity` or `NaN` (`"-1/0"` is formatted to `0-1/0`, which is
  `-Infinity`) and goes on computing with it.
- Ast.Eval: a record no pattern filled in is the error `EmptyNode`.
  JavaScript throws `TypeError` when it reads `op.name` of `undefined`.
  An unfilled record anywhere in the tree makes `Eval` fail with
  `EmptyNode`, also when a division by zero lies to its left (`"1/0+"`),
  since JavaScript reaches the throw there after computing `Infinity`.
- Strings are sequences of Dafny characters. JavaScript's UTF-16 code units
  and surrogate pairs are not modelled. `\s` is the fixed list of
  ECMAScript white-space and line-terminator characters.
- The regular-expression engine is modelled by the scans in `Scan`. The
  `lastIndex` state is the loop variable of `LastMatch`. The table builds
  fresh pattern objects each call, so no state carries over between calls.
- `parseInt` is modelled only on text that `-?\d+` matched, which is the
  only text it receives.
- JavaScript's `{}` is the `AstNode` class. `op` holds the table entry,
  not the `{name, RE}` object.
- Calculator: the test vectors are lemmas about `Eval(Build(FormatStr(..)))`,
  not calls of `Evaluate`. Lemmas cannot call methods, and `Evaluate`'s
  postcondition says it returns exactly that value.
