/**
 * The slice of Python's `str` behaviour the bot relies on: `lower()`, `title()`,
 * `strip()`/`lstrip()`/`rstrip()` (with and without an explicit character set),
 * `startswith`, `find`/`rfind` and `split(maxsplit=...)` on whitespace.
 *
 * Case mapping covers ASCII letters and the basic Cyrillic block (U+0400..U+045F)
 * and preserves length; whitespace is the ASCII whitespace Python recognises.
 */
module Text {
  import opened Wrappers

  /** The characters `str.isspace()` accepts below U+0080. */
  const Whitespace: set<char> :=
    {' ', '\t', '\n', '\r', '\U{B}', '\U{C}', '\U{1C}', '\U{1D}', '\U{1E}', '\U{1F}'}

  predicate IsSpace(c: char) {
    c in Whitespace
  }

  predicate AllIn(s: string, cs: set<char>) {
    forall k :: 0 <= k < |s| ==> s[k] in cs
  }

  predicate NoSpace(s: string) {
    forall k :: 0 <= k < |s| ==> !IsSpace(s[k])
  }

  /** A non-empty string that does not start with whitespace. */
  predicate StartsWord(s: string) {
    s != [] && !IsSpace(s[0])
  }

  /** A maximal non-whitespace run, as `split()` produces. */
  predicate IsWord(s: string) {
    s != [] && NoSpace(s)
  }

  // ---------------------------------------------------------------- case mapping

  predicate IsUpper(c: char) {
    ('A' <= c <= 'Z') || ('\U{0400}' <= c <= '\U{042F}')
  }

  predicate IsLower(c: char) {
    ('a' <= c <= 'z') || ('\U{0430}' <= c <= '\U{045F}')
  }

  /** A "cased" character in the sense of `str.title()`. */
  predicate IsCased(c: char) {
    IsUpper(c) || IsLower(c)
  }

  function LowerChar(c: char): char {
    if 'A' <= c <= 'Z' || '\U{0410}' <= c <= '\U{042F}' then (c as int + 32) as char
    else if '\U{0400}' <= c <= '\U{040F}' then (c as int + 80) as char
    else c
  }

  function UpperChar(c: char): char {
    if 'a' <= c <= 'z' || '\U{0430}' <= c <= '\U{044F}' then (c as int - 32) as char
    else if '\U{0450}' <= c <= '\U{045F}' then (c as int - 80) as char
    else c
  }

  /** Case mapping only touches cased characters and keeps them cased. */
  lemma CaseMapping(c: char)
    ensures IsCased(LowerChar(c)) == IsCased(c) && IsCased(UpperChar(c)) == IsCased(c)
    ensures !IsCased(c) ==> LowerChar(c) == c && UpperChar(c) == c
    ensures LowerChar(UpperChar(c)) == LowerChar(c) && LowerChar(LowerChar(c)) == LowerChar(c)
    ensures UpperChar(LowerChar(c)) == UpperChar(c) && UpperChar(UpperChar(c)) == UpperChar(c)
    ensures IsSpace(LowerChar(c)) == IsSpace(c) && IsSpace(UpperChar(c)) == IsSpace(c)
  {
  }

  /** `s.lower()`: one character out for each character in. */
  function Lower(s: string): (r: string)
    ensures |r| == |s|
    ensures forall i :: 0 <= i < |s| ==> r[i] == LowerChar(s[i])
  {
    if s == [] then [] else [LowerChar(s[0])] + Lower(s[1..])
  }

  /** `t` is the lowercase form of `s` when it is so character by character. */
  lemma LowerIs(s: string, t: string)
    requires |s| == |t| && forall i :: 0 <= i < |s| ==> LowerChar(s[i]) == t[i]
    ensures Lower(s) == t
  {
  }

  /** Lowercasing works character by character, so it keeps a common prefix. */
  lemma LowerPrefix(s: string, prefix: string)
    requires StartsWith(s, prefix)
    ensures StartsWith(Lower(s), Lower(prefix))
  {
    assert forall k :: 0 <= k < |prefix| ==> s[k] == s[..|prefix|][k];
  }

  /**
   * `s.title()`: a cased character is upper-cased when the character before it
   * is not cased and lower-cased when it is.
   */
  function Title(s: string): (r: string)
    ensures |r| == |s| && Lower(r) == Lower(s)
    ensures forall i :: 0 <= i < |s| ==> IsSpace(r[i]) == IsSpace(s[i])
  {
    TitleAfter(false, s)
  }

  function TitleAfter(previousCased: bool, s: string): (r: string)
    ensures |r| == |s|
    ensures forall i :: 0 <= i < |s| ==> LowerChar(r[i]) == LowerChar(s[i])
    ensures forall i :: 0 <= i < |s| ==> IsCased(r[i]) == IsCased(s[i]) && IsSpace(r[i]) == IsSpace(s[i])
    decreases |s|
  {
    if s == [] then []
    else
      CaseMapping(s[0]);
      var c := if previousCased then LowerChar(s[0]) else UpperChar(s[0]);
      [c] + TitleAfter(IsCased(s[0]), s[1..])
  }

  /** One step of `title()`: the first character is cased by `previousCased`, the rest by the first. */
  lemma TitleAfterCons(previousCased: bool, s: string)
    requires s != []
    ensures TitleAfter(previousCased, s)[0] == if previousCased then LowerChar(s[0]) else UpperChar(s[0])
    ensures TitleAfter(previousCased, s)[1..] == TitleAfter(IsCased(s[0]), s[1..])
  {
  }

  /** Character `i` of the result is decided by whether the character before it, or `previousCased` at the start, is cased. */
  lemma {:induction false} TitleAfterAt(previousCased: bool, s: string, i: nat)
    requires i < |s|
    ensures TitleAfter(previousCased, s)[i] ==
      if (if i == 0 then previousCased else IsCased(s[i - 1])) then LowerChar(s[i]) else UpperChar(s[i])
    decreases i
  {
    TitleAfterCons(previousCased, s);
    if 0 < i {
      var r, tail := TitleAfter(previousCased, s), s[1..];
      assert r[i] == r[1..][i - 1];
      TitleAfterAt(IsCased(s[0]), tail, i - 1);
      assert tail[i - 1] == s[i];
      assert (if i - 1 == 0 then IsCased(s[0]) else IsCased(tail[i - 2])) == IsCased(s[i - 1]);
    }
  }

  /**
   * The whole of `title()`, position by position: a character after a cased
   * one is lower-cased and any other is upper-cased (uncased characters are
   * left as they are by both).
   */
  lemma TitleAt(s: string)
    ensures forall i :: 0 <= i < |s| ==>
      Title(s)[i] == if 0 < i && IsCased(s[i - 1]) then LowerChar(s[i]) else UpperChar(s[i])
  {
    forall i | 0 <= i < |s|
      ensures Title(s)[i] == if 0 < i && IsCased(s[i - 1]) then LowerChar(s[i]) else UpperChar(s[i])
    {
      TitleAfterAt(false, s, i);
    }
  }

  /** Title-casing twice is title-casing once. */
  lemma {:induction false} TitleAfterIdempotent(previousCased: bool, s: string)
    ensures TitleAfter(previousCased, TitleAfter(previousCased, s)) == TitleAfter(previousCased, s)
    decreases |s|
  {
    if s != [] {
      var t := TitleAfter(previousCased, s);
      CaseMapping(s[0]);
      assert t[1..] == TitleAfter(IsCased(s[0]), s[1..]);
      TitleAfterIdempotent(IsCased(s[0]), s[1..]);
    }
  }

  lemma TitleIdempotent(s: string)
    ensures Title(Title(s)) == Title(s)
  {
    TitleAfterIdempotent(false, s);
  }

  /** Title-casing runs left to right, so a string can be title-cased in two pieces. */
  lemma {:induction false} TitleAfterAppend(previousCased: bool, a: string, b: string)
    requires a != []
    ensures TitleAfter(previousCased, a + b) == TitleAfter(previousCased, a) + TitleAfter(IsCased(a[|a| - 1]), b)
    decreases |a|
  {
    if |a| == 1 {
      assert (a + b)[1..] == b;
    } else {
      assert (a + b)[1..] == a[1..] + b;
      TitleAfterAppend(IsCased(a[0]), a[1..], b);
    }
  }

  /** A run of lower-case letters after a cased character is left as it is. */
  lemma {:induction false} TitleAfterLowerRun(s: string)
    requires forall i :: 0 <= i < |s| ==> IsLower(s[i])
    ensures TitleAfter(true, s) == s
    decreases |s|
  {
    if s != [] {
      TitleAfterLowerRun(s[1..]);
    }
  }

  /** A word of one cased letter and lower-case letters after it gets a capital and nothing else. */
  lemma TitleWord(w: string)
    requires w != [] && IsCased(w[0]) && forall i :: 1 <= i < |w| ==> IsLower(w[i])
    ensures Title(w) == [UpperChar(w[0])] + w[1..]
  {
    assert w == w[..1] + w[1..];
    TitleAfterAppend(false, w[..1], w[1..]);
    TitleAfterLowerRun(w[1..]);
  }

  // ---------------------------------------------------------------- stripping

  /** `s.lstrip(cs)`: drop the longest prefix made of characters of `cs`. */
  function StripLeft(s: string, cs: set<char>): (r: string)
    ensures |r| <= |s| && r == s[|s| - |r|..]
    ensures forall k :: 0 <= k < |s| - |r| ==> s[k] in cs
    ensures r == [] || r[0] !in cs
    decreases |s|
  {
    if s != [] && s[0] in cs then StripLeft(s[1..], cs) else s
  }

  /** `s.rstrip(cs)`: drop the longest suffix made of characters of `cs`. */
  function StripRight(s: string, cs: set<char>): (r: string)
    ensures |r| <= |s| && r == s[..|r|]
    ensures forall k :: |r| <= k < |s| ==> s[k] in cs
    ensures r == [] || r[|r| - 1] !in cs
    decreases |s|
  {
    if s != [] && s[|s| - 1] in cs then StripRight(s[..|s| - 1], cs) else s
  }

  /** `s.strip(cs)`. */
  function StripChars(s: string, cs: set<char>): (r: string)
    ensures |r| <= |s|
    ensures r == [] || (r[0] !in cs && r[|r| - 1] !in cs)
    ensures r == [] <==> AllIn(s, cs)
  {
    var l := StripLeft(s, cs);
    var r := StripRight(l, cs);
    assert r == [] ==> l == [];
    r
  }

  /** `s.strip()`. */
  function Strip(s: string): (r: string)
    ensures |r| <= |s| && IsStripped(r)
    ensures r == [] <==> AllIn(s, Whitespace)
  {
    StripChars(s, Whitespace)
  }

  /** No leading or trailing whitespace: what `strip()` leaves. */
  predicate IsStripped(s: string) {
    s == [] || (!IsSpace(s[0]) && !IsSpace(s[|s| - 1]))
  }

  /** Whatever prefix of `cs` characters precedes the first other character, `StripLeft` removes exactly it. */
  lemma StripLeftIs(s: string, cs: set<char>, a: string, u: string)
    requires s == a + u && AllIn(a, cs)
    requires u == [] || u[0] !in cs
    ensures StripLeft(s, cs) == u
  {
    var r := StripLeft(s, cs);
    assert forall k :: 0 <= k < |a| ==> s[k] == a[k];
    assert u != [] ==> s[|a|] == u[0];
    assert r != [] ==> s[|s| - |r|] == r[0];
  }

  lemma StripRightIs(s: string, cs: set<char>, u: string, b: string)
    requires s == u + b && AllIn(b, cs)
    requires u == [] || u[|u| - 1] !in cs
    ensures StripRight(s, cs) == u
  {
    var r := StripRight(s, cs);
    assert forall k :: |u| <= k < |s| ==> s[k] == b[k - |u|];
    assert u != [] ==> s[|u| - 1] == u[|u| - 1];
    assert r != [] ==> s[|r| - 1] == r[|r| - 1];
  }

  /**
   * Uniqueness of the split into leading run, kept part and trailing run:
   * `strip` returns the one kept part whose ends are not in `cs`.
   */
  lemma StripCharsIs(s: string, cs: set<char>, a: string, t: string, b: string)
    requires s == a + t + b && AllIn(a, cs) && AllIn(b, cs)
    requires t == [] || (t[0] !in cs && t[|t| - 1] !in cs)
    ensures StripChars(s, cs) == t
  {
    if t == [] {
      assert AllIn(s, cs) by {
        forall k | 0 <= k < |s| ensures s[k] in cs {
          if k < |a| { assert s[k] == a[k]; } else { assert s[k] == b[k - |a|]; }
        }
      }
    } else {
      assert s == a + (t + b);
      StripLeftIs(s, cs, a, t + b);
      StripRightIs(t + b, cs, t, b);
    }
  }

  lemma StripIs(s: string, a: string, t: string, b: string)
    requires s == a + t + b && AllIn(a, Whitespace) && AllIn(b, Whitespace)
    requires t == [] || (!IsSpace(t[0]) && !IsSpace(t[|t| - 1]))
    ensures Strip(s) == t
  {
    StripCharsIs(s, Whitespace, a, t, b);
  }

  /** A string with no surrounding whitespace is its own `strip()`. */
  lemma StripWord(w: string)
    requires IsStripped(w)
    ensures Strip(w) == w
  {
    StripIs(w, [], w, []);
  }

  /** Stripping a stripped string changes nothing. */
  lemma StripIdempotent(s: string)
    ensures Strip(Strip(s)) == Strip(s)
  {
    var t := Strip(s);
    StripIs(t, [], t, []);
  }

  // ---------------------------------------------------------------- searching

  predicate StartsWith(s: string, prefix: string) {
    |prefix| <= |s| && s[..|prefix|] == prefix
  }

  /** A string starts with any string it is made by extending. */
  lemma StartsWithAppend(s: string, t: string)
    ensures StartsWith(s + t, s)
  {
    assert (s + t)[..|s|] == s;
  }

  /** A prefix of a prefix of `s` is a prefix of `s`. */
  lemma StartsWithTransitive(s: string, t: string, prefix: string)
    requires StartsWith(s, t) && StartsWith(t, prefix)
    ensures StartsWith(s, prefix)
  {
    assert s[..|prefix|] == s[..|t|][..|prefix|];
  }

  /** `sub` occurs in `s` starting at index `i`. */
  predicate OccursAt(s: string, sub: string, i: nat) {
    i + |sub| <= |s| && s[i..i + |sub|] == sub
  }

  /** `s.rfind(sub)`, with `None` for Python's `-1`. */
  function LastIndexOf(s: string, sub: string): (r: Option<nat>)
    ensures r.Some? ==> OccursAt(s, sub, r.value)
    ensures r.Some? ==> forall j: nat :: r.value < j ==> !OccursAt(s, sub, j)
    ensures r.None? ==> forall j: nat :: !OccursAt(s, sub, j)
  {
    if |sub| <= |s| then LastIndexAtOrBefore(s, sub, |s| - |sub|) else None
  }

  function LastIndexAtOrBefore(s: string, sub: string, i: nat): (r: Option<nat>)
    requires i + |sub| <= |s|
    ensures r.Some? ==> r.value <= i && OccursAt(s, sub, r.value)
    ensures r.Some? ==> forall j: nat :: r.value < j <= i ==> !OccursAt(s, sub, j)
    ensures r.None? ==> forall j: nat :: j <= i ==> !OccursAt(s, sub, j)
  {
    if OccursAt(s, sub, i) then Some(i)
    else if i == 0 then None
    else LastIndexAtOrBefore(s, sub, i - 1)
  }

  /**
   * `sub` occurs at `i`, at no later start that overlaps it, and nowhere in
   * what follows it: `rfind` answers `i`.
   */
  lemma LastIndexIs(s: string, sub: string, i: nat)
    requires OccursAt(s, sub, i)
    requires forall j: nat :: i < j < i + |sub| ==> !OccursAt(s, sub, j)
    requires LastIndexOf(s[i + |sub|..], sub) == None
    ensures LastIndexOf(s, sub) == Some(i)
  {
    var rest := s[i + |sub|..];
    forall j: nat | i + |sub| <= j
      ensures !OccursAt(s, sub, j)
    {
      if OccursAt(s, sub, j) {
        assert rest[j - i - |sub|..j - i] == s[j..j + |sub|];
        assert OccursAt(rest, sub, j - i - |sub|);
      }
    }
    var r := LastIndexOf(s, sub);
    assert r.Some?;
    assert !(r.value < i) && !(i < r.value);
  }

  /** Where `sub` starts nowhere, `rfind` finds nothing. */
  lemma NoOccurrence(s: string, sub: string)
    requires forall j: nat :: j + |sub| <= |s| ==> !OccursAt(s, sub, j)
    ensures LastIndexOf(s, sub) == None
  {
  }

  /** A string that lacks the first character of `sub` has no occurrence of it. */
  lemma AbsentFirstChar(s: string, sub: string)
    requires sub != [] && sub[0] !in s
    ensures LastIndexOf(s, sub) == None
  {
  }

  /** `s.find(c)` for one character, with `None` for Python's `-1`. */
  function IndexOf(s: string, c: char): (r: Option<nat>)
    ensures r.Some? ==> r.value < |s| && s[r.value] == c
    ensures r.Some? ==> forall j :: 0 <= j < r.value ==> s[j] != c
    ensures r.None? ==> forall j :: 0 <= j < |s| ==> s[j] != c
  {
    if s == [] then None
    else if s[0] == c then Some(0)
    else match IndexOf(s[1..], c)
      case Some(i) => Some(i + 1)
      case None => None
  }

  // ---------------------------------------------------------------- splitting

  /** The first index at or after `i` whose character is not whitespace, or `|s|`. */
  function SkipSpaces(s: string, i: nat): (j: nat)
    requires i <= |s|
    ensures i <= j <= |s| && (j < |s| ==> !IsSpace(s[j]))
    ensures forall k :: i <= k < j ==> IsSpace(s[k])
    decreases |s| - i
  {
    if i < |s| && IsSpace(s[i]) then SkipSpaces(s, i + 1) else i
  }

  /** The first index at or after `i` whose character is whitespace, or `|s|`. */
  function SkipWord(s: string, i: nat): (j: nat)
    requires i <= |s|
    ensures i <= j <= |s| && (j < |s| ==> IsSpace(s[j]))
    ensures forall k :: i <= k < j ==> !IsSpace(s[k])
    decreases |s| - i
  {
    if i < |s| && !IsSpace(s[i]) then SkipWord(s, i + 1) else i
  }

  /** A run of whitespace from `i` up to a non-whitespace character at `j` (or the end) is what `SkipSpaces` skips. */
  lemma SkipSpacesIs(s: string, i: nat, j: nat)
    requires i <= j <= |s| && (j < |s| ==> !IsSpace(s[j]))
    requires forall k :: i <= k < j ==> IsSpace(s[k])
    ensures SkipSpaces(s, i) == j
  {
  }

  /** A run of non-whitespace from `i` up to whitespace at `j` (or the end) is what `SkipWord` skips. */
  lemma SkipWordIs(s: string, i: nat, j: nat)
    requires i <= j <= |s| && (j < |s| ==> IsSpace(s[j]))
    requires forall k :: i <= k < j ==> !IsSpace(s[k])
    ensures SkipWord(s, i) == j
  {
  }

  /**
   * `s.split(maxsplit=m)`: at most `m` splits on runs of whitespace, leading
   * whitespace ignored; once `m` splits are made, the rest of the string, with its
   * leading whitespace removed and its trailing whitespace kept, is the last part.
   */
  function Split(s: string, maxsplit: nat): (parts: seq<string>)
    ensures |parts| <= maxsplit + 1
    ensures parts == [] <==> AllIn(s, Whitespace)
  {
    SplitFromEmpty(s, 0, maxsplit);
    SplitFrom(s, 0, maxsplit)
  }

  /** `split` applied to the characters of `s` from index `i` on. */
  function SplitFrom(s: string, i: nat, maxsplit: nat): (parts: seq<string>)
    requires i <= |s|
    ensures |parts| <= maxsplit + 1
    decreases maxsplit
  {
    var j := SkipSpaces(s, i);
    if j == |s| then []
    else if maxsplit == 0 then [s[j..]]
    else
      var e := SkipWord(s, j);
      [s[j..e]] + SplitFrom(s, e, maxsplit - 1)
  }

  /** With a split to spare and a token ahead, the first part is that token. */
  lemma SplitFromToken(s: string, i: nat, maxsplit: nat)
    requires i <= |s| && SkipSpaces(s, i) < |s| && maxsplit > 0
    ensures SplitFrom(s, i, maxsplit)
      == [s[SkipSpaces(s, i)..SkipWord(s, SkipSpaces(s, i))]] + SplitFrom(s, SkipWord(s, SkipSpaces(s, i)), maxsplit - 1)
  {
  }

  /** No parts come out exactly when only whitespace follows `i`. */
  lemma SplitFromEmpty(s: string, i: nat, maxsplit: nat)
    requires i <= |s|
    ensures SplitFrom(s, i, maxsplit) == [] <==> forall k :: i <= k < |s| ==> IsSpace(s[k])
  {
  }

  /**
   * Part `k` is non-empty and starts with non-whitespace; it is a word unless it is
   * the last of `maxsplit + 1` parts, which holds the rest of the string.
   */
  lemma {:induction false} SplitFromPart(s: string, i: nat, maxsplit: nat, k: nat)
    requires i <= |s| && k < |SplitFrom(s, i, maxsplit)|
    ensures StartsWord(SplitFrom(s, i, maxsplit)[k])
    ensures k < |SplitFrom(s, i, maxsplit)| - 1 || |SplitFrom(s, i, maxsplit)| <= maxsplit ==> IsWord(SplitFrom(s, i, maxsplit)[k])
    decreases maxsplit
  {
    var parts := SplitFrom(s, i, maxsplit);
    var j := SkipSpaces(s, i);
    if maxsplit == 0 {
      assert parts[k] == s[j..] && s[j..][0] == s[j];
    } else {
      var e := SkipWord(s, j);
      var rest := SplitFrom(s, e, maxsplit - 1);
      assert parts == [s[j..e]] + rest;
      if k == 0 {
        assert forall x :: 0 <= x < e - j ==> s[j..e][x] == s[j + x];
      } else {
        SplitFromPart(s, e, maxsplit - 1, k - 1);
        assert parts[k] == rest[k - 1];
      }
    }
  }

  /** No part is empty or starts with whitespace. */
  lemma SplitStartsWords(s: string, maxsplit: nat)
    ensures forall k :: 0 <= k < |Split(s, maxsplit)| ==> StartsWord(Split(s, maxsplit)[k])
  {
    forall k | 0 <= k < |Split(s, maxsplit)| ensures StartsWord(Split(s, maxsplit)[k]) {
      SplitFromPart(s, 0, maxsplit, k);
    }
  }

  /**
   * Every part but the last is a word, and when fewer than `maxsplit + 1` parts
   * come out the last one is a word too.
   */
  lemma SplitWords(s: string, maxsplit: nat)
    ensures forall k :: 0 <= k < |Split(s, maxsplit)| - 1 ==> IsWord(Split(s, maxsplit)[k])
    ensures |Split(s, maxsplit)| <= maxsplit ==> forall k :: 0 <= k < |Split(s, maxsplit)| ==> IsWord(Split(s, maxsplit)[k])
  {
    forall k | 0 <= k < |Split(s, maxsplit)| && (k < |Split(s, maxsplit)| - 1 || |Split(s, maxsplit)| <= maxsplit)
      ensures IsWord(Split(s, maxsplit)[k])
    {
      SplitFromPart(s, 0, maxsplit, k);
    }
  }

  /** One step of `split`: skip the whitespace in `[i, j)`, take the token in `[j, e)`. */
  lemma SplitFromStep(s: string, i: nat, j: nat, e: nat, m: nat)
    requires i <= j < e <= |s| && (e < |s| ==> IsSpace(s[e]))
    requires forall k :: i <= k < j ==> IsSpace(s[k])
    requires forall k :: j <= k < e ==> !IsSpace(s[k])
    ensures SplitFrom(s, i, m + 1) == [s[j..e]] + SplitFrom(s, e, m)
  {
    SkipSpacesIs(s, i, j);
    SkipWordIs(s, j, e);
    SplitFromToken(s, i, m + 1);
  }

  /** The last step of `split`: after the whitespace in `[i, j)`, everything from `j` on. */
  lemma SplitFromLast(s: string, i: nat, j: nat)
    requires i <= j < |s| && !IsSpace(s[j])
    requires forall k :: i <= k < j ==> IsSpace(s[k])
    ensures SplitFrom(s, i, 0) == [s[j..]]
  {
    SkipSpacesIs(s, i, j);
  }

  /** Nothing but whitespace from `i` on: no parts. */
  lemma SplitFromBlank(s: string, i: nat, m: nat)
    requires i <= |s| && forall k :: i <= k < |s| ==> IsSpace(s[k])
    ensures SplitFrom(s, i, m) == []
  {
    SkipSpacesIs(s, i, |s|);
  }

  /** A single word splits into itself. */
  lemma SplitOneWord(s: string, m: nat)
    requires IsWord(s)
    ensures Split(s, m) == [s]
  {
    if m == 0 {
      SplitFromLast(s, 0, 0);
    } else {
      SplitFromStep(s, 0, 0, |s|, m - 1);
      SplitFromBlank(s, |s|, m - 1);
      assert s[0..|s|] == s;
    }
  }

  /** A word in `[0, a)`, whitespace in `[a, b)` and a word in `[b, |s|)` split into the two words. */
  lemma SplitTwoWords(s: string, a: nat, b: nat, m: nat)
    requires 0 < a < b < |s| && m >= 1
    requires forall k :: 0 <= k < a ==> !IsSpace(s[k])
    requires forall k :: a <= k < b ==> IsSpace(s[k])
    requires forall k :: b <= k < |s| ==> !IsSpace(s[k])
    ensures Split(s, m) == [s[..a], s[b..]]
  {
    SplitFromStep(s, 0, 0, a, m - 1);
    assert s[0..a] == s[..a] && s[b..|s|] == s[b..];
    if m == 1 {
      SplitFromLast(s, a, b);
    } else {
      SplitFromStep(s, a, b, |s|, m - 2);
      SplitFromBlank(s, |s|, m - 2);
    }
  }

  /** With `maxsplit` 1, the second part runs to the end of the string. */
  lemma SplitRestEnds(s: string)
    requires |Split(s, 1)| == 2
    ensures var rest := Split(s, 1)[1]; rest[|rest| - 1] == s[|s| - 1]
  {
    var j := SkipSpaces(s, 0);
    var e := SkipWord(s, j);
    SplitFromToken(s, 0, 1);
    var k := SkipSpaces(s, e);
    assert SplitFrom(s, e, 0) == [s[k..]];
  }

  /** With `maxsplit` 1, a word, whitespace and then the rest of the string from its next non-whitespace character. */
  lemma SplitWordRest(s: string, a: nat, b: nat)
    requires 0 < a < b < |s| && !IsSpace(s[b])
    requires forall k :: 0 <= k < a ==> !IsSpace(s[k])
    requires forall k :: a <= k < b ==> IsSpace(s[k])
    ensures Split(s, 1) == [s[..a], s[b..]]
  {
    SplitFromStep(s, 0, 0, a, 0);
    SplitFromLast(s, a, b);
    assert s[0..a] == s[..a];
  }

  /** With `maxsplit` 1, a word, whitespace and a rest starting with non-whitespace split into the word and the rest. */
  lemma SplitWordGapRest(head: string, gap: string, rest: string)
    requires IsWord(head) && gap != [] && AllIn(gap, Whitespace) && StartsWord(rest)
    ensures Split(head + gap + rest, 1) == [head, rest]
  {
    var s, a, b := head + gap + rest, |head|, |head| + |gap|;
    assert forall k :: 0 <= k < a ==> s[k] == head[k];
    assert forall k :: a <= k < b ==> s[k] == gap[k - a];
    assert s[b] == rest[0];
    SplitWordRest(s, a, b);
    assert s[..a] == head && s[b..] == rest;
  }

  /**
   * With `maxsplit` 2, two words separated by whitespace and then, after more
   * whitespace, the rest of the string from its next non-whitespace character.
   */
  lemma SplitTwoWordsRest(s: string, a: nat, b: nat, c: nat, d: nat)
    requires 0 < a < b < c < d < |s| && !IsSpace(s[d])
    requires forall k :: 0 <= k < a ==> !IsSpace(s[k])
    requires forall k :: a <= k < b ==> IsSpace(s[k])
    requires forall k :: b <= k < c ==> !IsSpace(s[k])
    requires forall k :: c <= k < d ==> IsSpace(s[k])
    ensures Split(s, 2) == [s[..a], s[b..c], s[d..]]
  {
    SplitFromStep(s, 0, 0, a, 1);
    SplitFromStep(s, a, b, c, 0);
    SplitFromLast(s, c, d);
    assert s[0..a] == s[..a];
  }

  /** With `maxsplit` 2, a word, whitespace and a word split into the two words. */
  lemma SplitWordWord(first: string, gap: string, second: string)
    requires IsWord(first) && IsWord(second) && gap != [] && AllIn(gap, Whitespace)
    ensures Split(first + gap + second, 2) == [first, second]
  {
    var s := first + gap + second;
    var a, b := |first|, |first| + |gap|;
    assert s[..a] == first && s[b..] == second;
    assert forall k :: 0 <= k < a ==> s[k] == first[k];
    assert forall k :: a <= k < b ==> s[k] == gap[k - a];
    assert forall k :: b <= k < |s| ==> s[k] == second[k - b];
    SplitTwoWords(s, a, b, 2);
  }

  /** With `maxsplit` 2, two words and a rest, apart by whitespace, split into the words and the rest as written. */
  lemma SplitWordWordRest(first: string, gap1: string, second: string, gap2: string, rest: string)
    requires IsWord(first) && IsWord(second) && rest != [] && !IsSpace(rest[0])
    requires gap1 != [] && AllIn(gap1, Whitespace) && gap2 != [] && AllIn(gap2, Whitespace)
    ensures Split(first + gap1 + second + gap2 + rest, 2) == [first, second, rest]
  {
    var s := first + gap1 + second + gap2 + rest;
    var a, b := |first|, |first| + |gap1|;
    var c, d := b + |second|, b + |second| + |gap2|;
    assert s[..a] == first && s[b..c] == second && s[d..] == rest;
    assert forall k :: 0 <= k < a ==> s[k] == first[k];
    assert forall k :: a <= k < b ==> s[k] == gap1[k - a];
    assert forall k :: b <= k < c ==> s[k] == second[k - b];
    assert forall k :: c <= k < d ==> s[k] == gap2[k - c];
    assert s[d] == rest[0];
    SplitTwoWordsRest(s, a, b, c, d);
  }
}
