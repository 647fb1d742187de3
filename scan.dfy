/** Explicit character scans that stand in for the regular expressions of
    calculator.js: one pattern per operator character (plus, minus, times,
    slash) and the value pattern `-?\d+` (an optionally signed run of decimal
    digits).

    For every pattern there are two views:
    - a forward one, `NextIndexOf` and `NextNumber`, which is what one call of
      `RegExp.prototype.exec` returns when the search starts at `lastIndex`;
    - a backward one, `LastIndexOfAny` and `LastNumber`, which says declaratively
      which match is the last one in the whole string. */
module Scan {

  datatype Option<T> = None | Some(value: T)

  /** One match of a pattern: where it starts (the regex `index`) and what it
      matched (`result[0]`). */
  datatype Match = Match(index: nat, text: string)

  /** `\d` of a JavaScript regular expression without the `u` flag. */
  predicate IsDigit(c: char) {
    '0' <= c <= '9'
  }

  /** True when no character of `s` is a digit. */
  predicate NoDigit(s: string) {
    forall j :: 0 <= j < |s| ==> !IsDigit(s[j])
  }

  // ---------------------------------------------------------------------------
  // Single characters

  /** Position of the last character of `s` that belongs to `cs`. */
  function LastIndexOfAny(s: string, cs: set<char>): (r: Option<nat>)
    ensures r.None? <==> forall j :: 0 <= j < |s| ==> s[j] !in cs
    ensures r.Some? ==> r.value < |s| && s[r.value] in cs
    ensures r.Some? ==> forall j :: r.value < j < |s| ==> s[j] !in cs
    decreases |s|
  {
    if s == [] then None
    else if s[|s| - 1] in cs then Some(|s| - 1)
    else LastIndexOfAny(s[..|s| - 1], cs)
  }

  /** What `exec` of a one-character global pattern returns when the search
      starts at `from`: the first occurrence of `c` at or after `from`. */
  function NextIndexOf(s: string, c: char, from: nat): (r: Option<nat>)
    requires from <= |s|
    ensures r.None? <==> forall j :: from <= j < |s| ==> s[j] != c
    ensures r.Some? ==> from <= r.value < |s| && s[r.value] == c
    ensures r.Some? ==> forall j :: from <= j < r.value ==> s[j] != c
    decreases |s| - from
  {
    if from == |s| then None
    else if s[from] == c then Some(from)
    else NextIndexOf(s, c, from + 1)
  }

  // ---------------------------------------------------------------------------
  // Digit runs and the pattern -?\d+

  /** Position of the last digit of `s`. */
  function LastDigit(s: string): (r: Option<nat>)
    ensures r.None? <==> NoDigit(s)
    ensures r.Some? ==> r.value < |s| && IsDigit(s[r.value])
    ensures r.Some? ==> forall j :: r.value < j < |s| ==> !IsDigit(s[j])
    decreases |s|
  {
    if s == [] then None
    else if IsDigit(s[|s| - 1]) then Some(|s| - 1)
    else LastDigit(s[..|s| - 1])
  }

  /** Where the run of digits that contains position `i` begins. */
  function RunStart(s: string, i: nat): (b: nat)
    requires i < |s| && IsDigit(s[i])
    ensures b <= i
    ensures forall j :: b <= j <= i ==> IsDigit(s[j])
    ensures b == 0 || !IsDigit(s[b - 1])
    decreases i
  {
    if i > 0 && IsDigit(s[i - 1]) then RunStart(s, i - 1) else i
  }

  /** Where the run of digits that starts at or continues from `q` ends
      (exclusive): the greedy `\d+`. */
  function RunEnd(s: string, q: nat): (e: nat)
    requires q <= |s|
    ensures q <= e <= |s|
    ensures forall j :: q <= j < e ==> IsDigit(s[j])
    ensures e == |s| || !IsDigit(s[e])
    decreases |s| - q
  {
    if q < |s| && IsDigit(s[q]) then RunEnd(s, q + 1) else q
  }

  /** `s[b..e]` is the last maximal run of digits in `s`. */
  ghost predicate IsLastRun(s: string, b: nat, e: nat) {
    && b < e <= |s|
    && (forall j :: b <= j < e ==> IsDigit(s[j]))
    && (b == 0 || !IsDigit(s[b - 1]))
    && (forall j :: e <= j < |s| ==> !IsDigit(s[j]))
  }

  /** The last maximal run of digits in `s`, as the pair (start, end). */
  function LastRun(s: string): (r: Option<(nat, nat)>)
    ensures r.None? <==> NoDigit(s)
    ensures r.Some? ==> IsLastRun(s, r.value.0, r.value.1)
  {
    match LastDigit(s)
    case None => None
    case Some(i) => Some((RunStart(s, i), i + 1))
  }

  /** A string has only one last maximal run of digits. */
  lemma LastRunUnique(s: string, b: nat, e: nat, b': nat, e': nat)
    requires IsLastRun(s, b, e) && IsLastRun(s, b', e')
    ensures b == b' && e == e'
  {
    assert IsDigit(s[e - 1]) && IsDigit(s[e' - 1]);
    assert b == 0 || !IsDigit(s[b - 1]);
    assert b' == 0 || !IsDigit(s[b' - 1]);
  }

  /** A run of digits ending at `i` has only one start. */
  lemma RunStartIs(s: string, i: nat, q: nat)
    requires q <= i < |s|
    requires forall j :: q <= j <= i ==> IsDigit(s[j])
    requires q == 0 || !IsDigit(s[q - 1])
    ensures RunStart(s, i) == q
  {
    var b := RunStart(s, i);
    assert b == 0 || !IsDigit(s[b - 1]);
    assert q == 0 || !IsDigit(s[q - 1]);
  }

  /** `-?\d+` can match starting at position `p`. */
  predicate NumberStartsAt(s: string, p: nat)
    requires p < |s|
  {
    IsDigit(s[p]) || (s[p] == '-' && p + 1 < |s| && IsDigit(s[p + 1]))
  }

  /** The match of `-?\d+` that starts at `p`: the optional sign, then every
      digit that follows. */
  function NumberAt(s: string, p: nat): (m: Match)
    requires p < |s| && NumberStartsAt(s, p)
    ensures m.index == p && p < p + |m.text| <= |s|
  {
    var q := if IsDigit(s[p]) then p else p + 1;
    Match(p, s[p..RunEnd(s, q)])
  }

  /** What `exec` of `/-?\d+/g` returns when the search starts at `from`: the
      match at the leftmost position at or after `from` where one begins. */
  function NextNumber(s: string, from: nat): (r: Option<Match>)
    requires from <= |s|
    ensures r.None? <==> forall j :: from <= j < |s| ==> !NumberStartsAt(s, j)
    ensures r.Some? ==> from <= r.value.index < |s| && NumberStartsAt(s, r.value.index)
    ensures r.Some? ==> r.value == NumberAt(s, r.value.index)
    ensures r.Some? ==> forall j :: from <= j < r.value.index ==> !NumberStartsAt(s, j)
    decreases |s| - from
  {
    if from == |s| then None
    else if NumberStartsAt(s, from) then Some(NumberAt(s, from))
    else NextNumber(s, from + 1)
  }

  /** The match of `-?\d+` whose digits are `s[b..e]`: it takes the `-` in
      front of the digits when there is one. */
  function SignedAt(s: string, b: nat, e: nat): (m: Match)
    requires b < e <= |s|
    ensures m.index + |m.text| == e
  {
    var p := if b > 0 && s[b - 1] == '-' then b - 1 else b;
    Match(p, s[p..e])
  }

  /** The last match that a left-to-right global search for `-?\d+` finds:
      the last maximal run of digits with its sign. */
  function LastNumber(s: string): (r: Option<Match>)
    ensures r.None? <==> NoDigit(s)
    ensures r.Some? ==> exists b, e :: IsLastRun(s, b, e) && r.value == SignedAt(s, b, e)
  {
    match LastRun(s)
    case None => None
    case Some((b, e)) => Some(SignedAt(s, b, e))
  }

  /** A search position that a `-?\d+` search can hold: the start, or the end
      of a maximal run of digits. */
  predicate AtRunEnd(s: string, from: nat) {
    from == 0 || (0 < from <= |s| && IsDigit(s[from - 1]) && (from == |s| || !IsDigit(s[from])))
  }

  /** The first `-?\d+` match at or after a run end begins with its sign,
      if any, and then a whole run of digits. */
  lemma MatchStartsRun(s: string, from: nat, p: nat)
    requires from <= p < |s| && AtRunEnd(s, from) && NumberStartsAt(s, p)
    requires forall j :: from <= j < p ==> !NumberStartsAt(s, j)
    ensures var q := if IsDigit(s[p]) then p else p + 1;
      && (q == 0 || !IsDigit(s[q - 1]))
      && p == (if q > 0 && s[q - 1] == '-' then q - 1 else q)
  {
    if IsDigit(s[p]) && p > from {
      assert !NumberStartsAt(s, p - 1);
    }
  }

  /** A match found by resuming the search at a run end is the signed match of
      a maximal run of digits, and the search may resume where it ends. */
  lemma NextNumberIsRun(s: string, from: nat)
    requires from <= |s| && AtRunEnd(s, from)
    requires NextNumber(s, from).Some?
    ensures var m := NextNumber(s, from).value;
      var e := m.index + |m.text|;
      && 0 < e <= |s| && AtRunEnd(s, e)
      && RunStart(s, e - 1) < e
      && m == SignedAt(s, RunStart(s, e - 1), e)
  {
    MatchIsRun(s, from, NextNumber(s, from).value.index);
  }

  /** The same for the match at any position `p` where the search from
      `from` can find its first match. */
  lemma MatchIsRun(s: string, from: nat, p: nat)
    requires from <= p < |s| && AtRunEnd(s, from) && NumberStartsAt(s, p)
    requires forall j :: from <= j < p ==> !NumberStartsAt(s, j)
    ensures var m := NumberAt(s, p);
      var e := p + |m.text|;
      && 0 < e <= |s| && AtRunEnd(s, e)
      && RunStart(s, e - 1) < e
      && m == SignedAt(s, RunStart(s, e - 1), e)
  {
    MatchStartsRun(s, from, p);
    var q := if IsDigit(s[p]) then p else p + 1;
    WholeRun(s, q);
    SignedRun(s, p, q);
    var e := RunEnd(s, q);
    assert p + |NumberAt(s, p).text| == e;
  }

  /** The match of `-?\d+` at `p`, where the digits begin at the start `q`
      of a run, is the signed match of that whole run. */
  lemma SignedRun(s: string, p: nat, q: nat)
    requires p < |s| && NumberStartsAt(s, p)
    requires q == (if IsDigit(s[p]) then p else p + 1)
    requires p == (if q > 0 && s[q - 1] == '-' then q - 1 else q)
    requires q < RunEnd(s, q)
    ensures NumberAt(s, p) == SignedAt(s, q, RunEnd(s, q))
    ensures p + |NumberAt(s, p).text| == RunEnd(s, q)
  {
    var e := RunEnd(s, q);
    assert NumberAt(s, p) == Match(p, s[p..e]);
  }

  /** The greedy run of digits from the start `q` of a run is that whole
      run: it ends at a run end and begins at `q`. */
  lemma WholeRun(s: string, q: nat)
    requires q < |s| && IsDigit(s[q]) && (q == 0 || !IsDigit(s[q - 1]))
    ensures var e := RunEnd(s, q);
      q < e && AtRunEnd(s, e) && RunStart(s, e - 1) == q
  {
    var e := RunEnd(s, q);
    assert e > q;
    assert IsDigit(s[e - 1]);
    RunStartIs(s, e - 1, q);
  }

  /** The last occurrence of `c` is at `i` when `s[i]` is `c` and no `c`
      follows. */
  lemma LastIndexOfIs(s: string, c: char, i: nat)
    requires i < |s| && s[i] == c
    requires forall j :: i < j < |s| ==> s[j] != c
    ensures LastIndexOfAny(s, {c}) == Some(i)
  {
  }

  /** When no `-?\d+` match starts at or after a run end `from` and the
      digits `s[b..from]` form a run, the last signed run is the one ending at
      `from`; with `from` zero, there is none. */
  lemma LastNumberIs(s: string, from: nat)
    requires from <= |s| && AtRunEnd(s, from)
    requires forall j :: from <= j < |s| ==> !NumberStartsAt(s, j)
    ensures from == 0 ==> LastNumber(s).None?
    ensures from > 0 ==> RunStart(s, from - 1) < from
    ensures from > 0 ==> LastNumber(s) == Some(SignedAt(s, RunStart(s, from - 1), from))
  {
    forall j | from <= j < |s| ensures !IsDigit(s[j]) {
      assert !NumberStartsAt(s, j);
    }
    if from > 0 {
      var b := RunStart(s, from - 1);
      assert IsLastRun(s, b, from);
      var (b', e') := LastRun(s).value;
      LastRunUnique(s, b, from, b', e');
    }
  }
}
