/**
 * The text clean-up `_safe_eval` does before parsing (bot.py:236-244, bot.py:277):
 * every comma becomes a period, then every numeric literal written directly
 * before a `%` becomes `(literal/100)`.
 *
 * The percent rewrite is `re.sub(r"(?<![A-Za-z_])((?:\d+\.\d+)|(?:\d+))%", ...)`,
 * modelled as the left-to-right scan the regex engine performs: at each position
 * it tries a match; on success it emits the replacement and resumes after the
 * `%`, otherwise it copies one character and moves on. `\d` is taken to be an
 * ASCII digit (`IsDigit`).
 */
module Percentages {
  import opened Wrappers

  predicate IsDigit(c: char) {
    '0' <= c <= '9'
  }

  /** The lookbehind class `[A-Za-z_]`. */
  predicate IsWordChar(c: char) {
    ('A' <= c <= 'Z') || ('a' <= c <= 'z') || c == '_'
  }

  predicate AllDigits(s: string) {
    forall k :: 0 <= k < |s| ==> IsDigit(s[k])
  }

  /** What the group `(?:\d+\.\d+)|(?:\d+)` can capture: an integer or a decimal. */
  predicate IsNumeral(s: string) {
    || (s != [] && AllDigits(s))
    || (exists k :: 0 < k < |s| - 1 && s[k] == '.' && AllDigits(s[..k]) && AllDigits(s[k + 1..]))
  }

  /** `expression.replace(",", ".")`. */
  function ReplaceCommas(s: string): (r: string)
    ensures |r| == |s| && ',' !in r
    ensures forall i :: 0 <= i < |s| && s[i] != ',' ==> r[i] == s[i]
    ensures forall i :: 0 <= i < |s| && s[i] == ',' ==> r[i] == '.'
  {
    if s == [] then [] else [if s[0] == ',' then '.' else s[0]] + ReplaceCommas(s[1..])
  }

  /** Length of the run of digits that starts `t`. */
  function DigitRun(t: string): (n: nat)
    ensures n <= |t| && AllDigits(t[..n]) && (n < |t| ==> !IsDigit(t[n]))
  {
    if t != [] && IsDigit(t[0]) then 1 + DigitRun(t[1..]) else 0
  }

  /** A digit run is determined by where it stops. */
  lemma {:induction false} DigitRunIs(t: string, m: nat)
    requires m <= |t| && AllDigits(t[..m]) && (m < |t| ==> !IsDigit(t[m]))
    ensures DigitRun(t) == m
  {
    if m > 0 {
      assert IsDigit(t[..m][0]);
      assert t[1..][..m - 1] == t[..m][1..];
      DigitRunIs(t[1..], m - 1);
    }
  }

  /**
   * The regex tried at the start of `t`; `blocked` says whether the character
   * before `t` is in `[A-Za-z_]`. On a match, the literal is `t[..n]` and `t[n]`
   * is the `%`; there is at most one such `n`.
   */
  function LiteralAt(blocked: bool, t: string): (r: Option<nat>)
    ensures r.Some? ==> !blocked && r.value < |t| && t[r.value] == '%' && IsNumeral(t[..r.value])
  {
    if blocked then None
    else
      var d := DigitRun(t);
      if d == 0 || d == |t| then None
      else if t[d] == '%' then Some(d)
      else if t[d] == '.' then
        var e := DigitRun(t[d + 1..]);
        if 0 < e && d + 1 + e < |t| && t[d + 1 + e] == '%' then
          assert t[..d + 1 + e][..d] == t[..d] && t[..d + 1 + e][d + 1..] == t[d + 1..][..e];
          Some(d + 1 + e)
        else None
      else None
  }

  /** `LiteralAt` finds the match whenever there is one. */
  lemma LiteralAtComplete(blocked: bool, t: string, n: nat)
    requires !blocked && n < |t| && t[n] == '%' && IsNumeral(t[..n])
    ensures LiteralAt(blocked, t) == Some(n)
  {
    if AllDigits(t[..n]) && n > 0 {
      IntegerAt(t, n);
    } else {
      var k :| 0 < k < n - 1 && t[..n][k] == '.' && AllDigits(t[..n][..k]) && AllDigits(t[..n][k + 1..]);
      DecimalAt(t, n, k);
    }
  }

  /** An integer followed by `%` at the start of `t` is the match. */
  lemma IntegerAt(t: string, n: nat)
    requires 0 < n < |t| && t[n] == '%' && AllDigits(t[..n])
    ensures LiteralAt(false, t) == Some(n)
  {
    DigitRunIs(t, n);
  }

  /** A decimal with its period at `k`, followed by `%`, at the start of `t` is the match. */
  lemma DecimalAt(t: string, n: nat, k: nat)
    requires 0 < k < n - 1 && n < |t| && t[n] == '%'
    requires t[k] == '.' && AllDigits(t[..k]) && AllDigits(t[k + 1..n])
    ensures LiteralAt(false, t) == Some(n)
  {
    DigitRunIs(t, k);
    var u := t[k + 1..];
    assert u[..n - k - 1] == t[k + 1..n];
    DigitRunIs(u, n - k - 1);
  }

  /** The replacement `repl` builds: `(number/100)`. */
  function Replacement(number: string): string {
    "(" + number + "/100)"
  }

  /** `re.sub` over `t`, where `blocked` says whether the preceding character is in `[A-Za-z_]`. */
  function RewriteAfter(blocked: bool, t: string): string
    decreases |t|
  {
    if t == [] then []
    else match LiteralAt(blocked, t)
      case Some(n) => Replacement(t[..n]) + RewriteAfter(false, t[n + 1..])
      case None => [t[0]] + RewriteAfter(IsWordChar(t[0]), t[1..])
  }

  /** `_preprocess_percentages(expr)`. */
  function PreprocessPercentages(expr: string): string {
    RewriteAfter(false, expr)
  }

  /** What `_safe_eval` hands to the parser. */
  function Clean(expression: string): string {
    PreprocessPercentages(ReplaceCommas(expression))
  }

  /** Without a `%` there is no match, so nothing changes. */
  lemma {:induction false} RewriteWithoutPercent(blocked: bool, t: string)
    requires '%' !in t
    ensures RewriteAfter(blocked, t) == t
    decreases |t|
  {
    if t != [] {
      RewriteCopy(blocked, t);
      RewriteWithoutPercent(IsWordChar(t[0]), t[1..]);
    }
  }

  lemma PreprocessWithoutPercent(expr: string)
    requires '%' !in expr
    ensures PreprocessPercentages(expr) == expr
  {
    RewriteWithoutPercent(false, expr);
  }

  /** The rewrite brings in no comma: a replacement is made of the numeral's own characters, brackets, `/`, `1` and `0`. */
  lemma {:induction false} RewriteNoComma(blocked: bool, t: string)
    requires ',' !in t
    ensures ',' !in RewriteAfter(blocked, t)
    decreases |t|
  {
    if t != [] {
      match LiteralAt(blocked, t)
      case Some(n) =>
        RewriteMatch(blocked, t, n);
        ReplacementNoComma(t[..n]);
        RewriteNoComma(false, t[n + 1..]);
      case None =>
        RewriteCopy(blocked, t);
        RewriteNoComma(IsWordChar(t[0]), t[1..]);
    }
  }

  /** A numeral is made of digits and the period, so its replacement holds no comma. */
  lemma ReplacementNoComma(number: string)
    requires IsNumeral(number)
    ensures ',' !in Replacement(number)
  {
    NumeralChars(number);
  }

  /** No comma reaches the parser, so `7,5` is never read as a tuple. */
  lemma CleanHasNoComma(expression: string)
    ensures ',' !in Clean(expression)
  {
    RewriteNoComma(false, ReplaceCommas(expression));
  }

  /** Without a `%`, cleaning is only the comma step. */
  lemma CleanWithoutPercent(expression: string)
    requires '%' !in expression
    ensures Clean(expression) == ReplaceCommas(expression)
  {
    var c := ReplaceCommas(expression);
    forall i | 0 <= i < |c|
      ensures c[i] != '%'
    {
      assert expression[i] != '%';
    }
    PreprocessWithoutPercent(c);
  }

  /** A numeral followed by `%`, not preceded by `[A-Za-z_]`, becomes `(numeral/100)`. */
  lemma PercentLiteral(number: string)
    requires IsNumeral(number)
    ensures PreprocessPercentages(number + "%") == Replacement(number)
  {
    var t := number + "%";
    assert t[..|number|] == number;
    LiteralAtComplete(false, t, |number|);
    RewriteMatch(false, t, |number|);
    assert t[|number| + 1..] == [];
  }

  /** A character that can neither be part of a match nor block the next one. */
  predicate IsSeparator(c: char) {
    !IsDigit(c) && c != '.' && c != '%' && !IsWordChar(c)
  }

  /** A match that starts in `u` cannot run past a separator that follows `u`. */
  lemma LiteralBeforeSeparator(blocked: bool, u: string, c: char, v: string)
    requires IsSeparator(c)
    ensures LiteralAt(blocked, u + [c] + v) == LiteralAt(blocked, u)
  {
    var t := u + [c] + v;
    var r := LiteralAt(blocked, t);
    if r.Some? {
      var n := r.value;
      var lit := t[..n];
      NumeralChars(lit);
      assert t[|u|] == c;
      assert forall i :: 0 <= i < |lit| ==> lit[i] == t[i];
      assert n < |u|;
      assert u[..n] == lit && u[n] == '%';
      LiteralAtComplete(blocked, u, n);
    } else if LiteralAt(blocked, u).Some? {
      var n := LiteralAt(blocked, u).value;
      assert t[..n] == u[..n] && t[n] == u[n];
      LiteralAtComplete(blocked, t, n);
    }
  }

  /** Every character of a numeral is a digit or the period. */
  lemma NumeralChars(s: string)
    requires IsNumeral(s)
    ensures forall i :: 0 <= i < |s| ==> IsDigit(s[i]) || s[i] == '.'
  {
    if !(s != [] && AllDigits(s)) {
      var k :| 0 < k < |s| - 1 && s[k] == '.' && AllDigits(s[..k]) && AllDigits(s[k + 1..]);
      assert forall i :: 0 <= i < k ==> s[..k][i] == s[i];
      assert forall i :: k < i < |s| ==> s[k + 1..][i - k - 1] == s[i];
    }
  }

  /** One step of the scan when a match starts here. */
  lemma RewriteMatch(blocked: bool, t: string, n: nat)
    requires LiteralAt(blocked, t) == Some(n)
    ensures RewriteAfter(blocked, t) == Replacement(t[..n]) + RewriteAfter(false, t[n + 1..])
  {
  }

  /** One step of the scan when no match starts here. */
  lemma RewriteCopy(blocked: bool, t: string)
    requires t != [] && ('%' !in t || LiteralAt(blocked, t) == None)
    ensures LiteralAt(blocked, t) == None
    ensures RewriteAfter(blocked, t) == [t[0]] + RewriteAfter(IsWordChar(t[0]), t[1..])
  {
  }

  /**
   * The rewrite works piecewise: at a separator such as an operator, a parenthesis
   * or a space, the text before and the text after are rewritten independently.
   */
  lemma {:induction false} RewriteAtSeparator(blocked: bool, u: string, c: char, v: string)
    requires IsSeparator(c)
    ensures RewriteAfter(blocked, u + [c] + v) == RewriteAfter(blocked, u) + [c] + RewriteAfter(false, v)
    decreases |u|, 1
  {
    if u == [] {
      SeparatorFirst(blocked, c, v);
    } else if LiteralAt(blocked, u).Some? {
      SeparatorMatchCase(blocked, u, c, v);
    } else {
      SeparatorCopyCase(blocked, u, c, v);
    }
  }

  lemma {:induction false} SeparatorMatchCase(blocked: bool, u: string, c: char, v: string)
    requires IsSeparator(c) && LiteralAt(blocked, u).Some?
    ensures RewriteAfter(blocked, u + [c] + v) == RewriteAfter(blocked, u) + [c] + RewriteAfter(false, v)
    decreases |u|, 0
  {
    var n := LiteralAt(blocked, u).value;
    SeparatorAfterMatch(blocked, u, c, v, n);
    RewriteAtSeparator(false, u[n + 1..], c, v);
    Regroup(Replacement(u[..n]), RewriteAfter(false, u[n + 1..]), c, RewriteAfter(false, v));
  }

  lemma {:induction false} SeparatorCopyCase(blocked: bool, u: string, c: char, v: string)
    requires IsSeparator(c) && u != [] && LiteralAt(blocked, u).None?
    ensures RewriteAfter(blocked, u + [c] + v) == RewriteAfter(blocked, u) + [c] + RewriteAfter(false, v)
    decreases |u|, 0
  {
    SeparatorAfterCopy(blocked, u, c, v);
    RewriteAtSeparator(IsWordChar(u[0]), u[1..], c, v);
    Regroup([u[0]], RewriteAfter(IsWordChar(u[0]), u[1..]), c, RewriteAfter(false, v));
  }

  lemma Regroup(head: string, rest: string, c: char, tail: string)
    ensures head + (rest + [c] + tail) == (head + rest) + [c] + tail
  {
  }

  /** The scan at a separator copies it and goes on unblocked. */
  lemma SeparatorFirst(blocked: bool, c: char, v: string)
    requires IsSeparator(c)
    ensures RewriteAfter(blocked, [] + [c] + v) == [] + [c] + RewriteAfter(false, v)
  {
    var t := [c] + v;
    assert [] + [c] + v == t;
    assert DigitRun(t) == 0;
    RewriteCopy(blocked, t);
    assert t[1..] == v;
  }

  lemma SeparatorAfterMatch(blocked: bool, u: string, c: char, v: string, n: nat)
    requires IsSeparator(c) && LiteralAt(blocked, u) == Some(n)
    ensures RewriteAfter(blocked, u + [c] + v) == Replacement(u[..n]) + RewriteAfter(false, u[n + 1..] + [c] + v)
    ensures RewriteAfter(blocked, u) == Replacement(u[..n]) + RewriteAfter(false, u[n + 1..])
  {
    var t := u + [c] + v;
    LiteralBeforeSeparator(blocked, u, c, v);
    assert t[n + 1..] == u[n + 1..] + [c] + v;
    assert t[..n] == u[..n];
    RewriteMatch(blocked, t, n);
    RewriteMatch(blocked, u, n);
  }

  lemma SeparatorAfterCopy(blocked: bool, u: string, c: char, v: string)
    requires IsSeparator(c) && u != [] && LiteralAt(blocked, u) == None
    ensures RewriteAfter(blocked, u + [c] + v) == [u[0]] + RewriteAfter(IsWordChar(u[0]), u[1..] + [c] + v)
    ensures RewriteAfter(blocked, u) == [u[0]] + RewriteAfter(IsWordChar(u[0]), u[1..])
  {
    var t := u + [c] + v;
    LiteralBeforeSeparator(blocked, u, c, v);
    assert t[1..] == u[1..] + [c] + v;
    assert t[0] == u[0];
    RewriteCopy(blocked, t);
    RewriteCopy(blocked, u);
  }

  /** After a letter or `_`, a numeral followed by `%` is left alone (the lookbehind fails). */
  lemma BlockedLiteral(t: string)
    ensures LiteralAt(true, t) == None
  {
  }

  /** `_preprocess_percentages("(10+5)*2%")` is `"(10+5)*(2/100)"`. */
  lemma ExampleParenthesised()
    ensures PreprocessPercentages("(10+5)*2%") == "(10+5)*(2/100)"
  {
    ParenthesisedParts();
    RewriteAtSeparator(false, "(10+5)", '*', "2" + "%");
    RewriteWithoutPercent(false, "(10+5)");
    PercentLiteral("2");
    ParenthesisedSpelling();
  }

  lemma ParenthesisedParts()
    ensures "(10+5)" + ['*'] + ("2" + "%") == "(10+5)*2%"
    ensures '%' !in "(10+5)" && IsNumeral("2") && IsSeparator('*')
  {
    assert AllDigits("2");
  }

  lemma ParenthesisedSpelling()
    ensures "(10+5)" + ['*'] + Replacement("2") == "(10+5)*(2/100)"
  {
  }

  /** The lookbehind checks one character only: `a12%` becomes `a1(2/100)`. */
  lemma ExampleLookbehind()
    ensures PreprocessPercentages("a12%") == "a1(2/100)"
  {
    var t := "a12%";
    assert LiteralAt(false, t) == None by { assert DigitRun(t) == 0; }
    assert t[1..] == "12%";
    assert LiteralAt(true, "12%") == None;
    assert "12%"[1..] == "2%";
    assert IsNumeral("2") by { assert AllDigits("2"); }
    assert "2%"[..1] == "2";
    LiteralAtComplete(false, "2%", 1);
    assert "2%"[2..] == [];
  }

  /** Commas are turned into periods first: `7,5%` becomes `(7.5/100)`. */
  lemma ExampleDecimalComma()
    ensures Clean("7,5%") == "(7.5/100)"
  {
    CommaToPeriod();
    DecimalNumeral();
    PercentLiteral("7.5");
    assert "7.5" + "%" == "7.5%";
  }

  lemma CommaToPeriod()
    ensures ReplaceCommas("7,5%") == "7.5" + "%"
  {
    var s := "7,5%";
    assert ReplaceCommas(s)[1] == '.';
  }

  lemma DecimalNumeral()
    ensures IsNumeral("7.5") && Replacement("7.5") == "(7.5/100)"
  {
    var s := "7.5";
    assert s[1] == '.' && AllDigits(s[..1]) && AllDigits(s[2..]);
  }
}
