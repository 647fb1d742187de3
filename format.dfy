/** `format_str` of calculator.js: drop every white-space character, then put
    a `0` in front of a leading minus sign so that it reads as a subtraction. */
module Format {

  /** `\s` of a JavaScript regular expression: the ECMAScript white-space and
      line-terminator characters. */
  predicate IsSpace(c: char) {
    || c == '\t' || c == '\n' || c == '\U{000B}' || c == '\U{000C}' || c == '\r' || c == ' '
    || c == '\U{00A0}' || c == '\U{1680}' || ('\U{2000}' <= c <= '\U{200A}')
    || c == '\U{2028}' || c == '\U{2029}' || c == '\U{202F}' || c == '\U{205F}'
    || c == '\U{3000}' || c == '\U{FEFF}'
  }

  /** True when `s` holds no white space. */
  predicate NoSpace(s: string) {
    forall j :: 0 <= j < |s| ==> !IsSpace(s[j])
  }

  /** `str.replace(/\s/g, '')`: the characters of `s` that are not white
      space, in their order. */
  function Strip(s: string): (r: string)
    ensures NoSpace(r) && |r| <= |s|
  {
    if s == [] then []
    else (if IsSpace(s[0]) then [] else [s[0]]) + Strip(s[1..])
  }

  /** Removing white space from two pieces is removing it from their
      concatenation. */
  lemma {:induction false} StripAppend(a: string, b: string)
    ensures Strip(a + b) == Strip(a) + Strip(b)
  {
    if a != [] {
      assert (a + b)[0] == a[0] && (a + b)[1..] == a[1..] + b;
      StripAppend(a[1..], b);
      var x := if IsSpace(a[0]) then [] else [a[0]];
      assert Strip(a + b) == x + (Strip(a[1..]) + Strip(b));
      assert Strip(a) == x + Strip(a[1..]);
    } else {
      assert a + b == b;
    }
  }

  /** A character survives exactly when it occurs in the input and is not
      white space. */
  lemma {:induction false} StripChars(s: string, c: char)
    ensures c in Strip(s) <==> c in s && !IsSpace(c)
  {
    if s != [] {
      StripChars(s[1..], c);
      assert c in s <==> c == s[0] || c in s[1..];
    }
  }

  /** A string without white space is left as it is, and only such a string. */
  lemma {:induction false} StripClean(s: string)
    ensures Strip(s) == s <==> NoSpace(s)
  {
    if s != [] {
      StripClean(s[1..]);
      if Strip(s) == s {
        assert |Strip(s[1..])| <= |s| - 1;
      }
    }
  }

  /** `format_str(str)`. The result has no white space and never starts with
      a minus sign. */
  function FormatStr(str: string): (r: string)
    ensures NoSpace(r)
    ensures |r| > 0 ==> r[0] != '-'
  {
    var s := Strip(str);
    if |s| > 0 && s[0] == '-' then "0" + s else s
  }

  /** Text that is already clean comes back unchanged. */
  lemma FormatClean(s: string)
    requires NoSpace(s) && (|s| > 0 ==> s[0] != '-')
    ensures FormatStr(s) == s
  {
    StripClean(s);
  }

  /** A clean text with a leading minus sign gets a `0` in front. */
  lemma FormatLeadingMinus(s: string)
    requires NoSpace(s) && |s| > 0 && s[0] == '-'
    ensures FormatStr(s) == "0" + s
  {
    StripClean(s);
  }

  /** Formatting twice is formatting once. */
  lemma FormatIdempotent(s: string)
    ensures FormatStr(FormatStr(s)) == FormatStr(s)
  {
    FormatClean(FormatStr(s));
  }

  /** White space anywhere in the input makes no difference. */
  lemma SpaceInsensitive(a: string, c: char, b: string)
    requires IsSpace(c)
    ensures FormatStr(a + [c] + b) == FormatStr(a + b)
  {
    StripAppend(a + [c], b);
    StripAppend(a, [c]);
    StripAppend(a, b);
    assert Strip([c]) == [];
    assert Strip(a + [c] + b) == Strip(a + b);
  }

  /** The two cases of `test_format_str`. */
  lemma FormatExamples()
    ensures FormatStr(" 1  - 1") == "1-1"
    ensures FormatStr("-1") == "0-1"
  {
    var s := " 1  - 1";
    assert Strip(s[6..]) == "1";
    assert Strip(s[5..]) == "1";
    assert Strip(s[4..]) == "-1";
    assert Strip(s[3..]) == "-1";
    assert Strip(s[2..]) == "-1";
    assert Strip(s[1..]) == "1-1";
    assert Strip(s) == "1-1";
    assert Strip("-1"[1..]) == "1";
  }
}
