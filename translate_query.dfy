/**
 * `parse_inline_translate_query` (bot.py:281-339): read a free-form inline
 * query as a translation request. The result is the text to translate and
 * the target language, when the query names one. The rules are tried in a
 * fixed order and the first one that applies wins:
 *
 *  - an alias prefix (`/translate`, `translate `, `trans `, `bkb `) followed by
 *    positional arguments;
 *  - `text -> lang`, split at the last `->`;
 *  - `text to: lang`, split at the last ` to:` in any letter case;
 *  - `text to lang`, split at the last ` to ` in any letter case;
 *  - `lang: text`, split at the first `:`, with a language of at most 20 characters.
 */
module TranslateQuery {
  import opened Wrappers
  import opened Text

  /** A translation request: the text, and the target language if the query names one. */
  datatype Request = Request(text: string, lang: Option<string>)

  /** The tokens that, alone after an alias, read as a language with no text (bot.py:299). */
  const KnownLanguageTokens: set<string> := {
    "en", "eng", "english", "ru", "rus", "russian", "de", "german",
    "fr", "french", "es", "spanish", "it", "italian", "pt", "portuguese"
  }

  /** The alias test of bot.py:290, on the lowercased query. */
  predicate IsAlias(lowerQuery: string) {
    || StartsWith(lowerQuery, "/translate")
    || StartsWith(lowerQuery, "translate ")
    || StartsWith(lowerQuery, "trans ")
    || StartsWith(lowerQuery, "bkb ")
  }

  /** The text of a request is never empty, and neither is a language it names. */
  predicate WellFormed(r: Request) {
    r.text != [] && (r.lang.Some? ==> r.lang.value != [])
  }

  /**
   * The alias branch (bot.py:291-308) on the stripped, non-blank query `q`:
   * `q.split(maxsplit=2)` gives the alias, then a language and a text, or a lone token.
   */
  function AliasRequest(q: string): (r: Option<Request>)
    requires !AllIn(q, Whitespace)
    ensures r.Some? ==> WellFormed(r.value) && IsStripped(r.value.text)
  {
    var parts := Split(q, 2);
    SplitWords(q, 2);
    if |parts| == 1 then None
    else if |parts| == 2 then
      var token := Strip(parts[1]);
      if Lower(token) in KnownLanguageTokens || |token| <= 3 then None
      else Some(Request(parts[1], None))
    else
      var lang := Strip(parts[1]);
      var text := Strip(parts[2]);
      SplitStartsWords(q, 2);
      if text == [] then None else Some(Request(text, Some(lang)))
  }

  /** `text -> lang` (bot.py:312-317), at the last `->`. */
  function ArrowRequest(q: string): (r: Option<Request>)
    ensures r.Some? ==> WellFormed(r.value) && IsStripped(r.value.text)
  {
    match LastIndexOf(q, "->")
    case None => None
    case Some(idx) =>
      var text := Strip(q[..idx]);
      var lang := Strip(q[idx + 2..]);
      if text != [] && lang != [] then Some(Request(text, Some(lang))) else None
  }

  /** `text to: lang` (bot.py:319-324): the last ` to:` of `lower`, used as an index into `q`. */
  function ToColonRequest(q: string, lower: string): (r: Option<Request>)
    requires |lower| == |q|
    ensures r.Some? ==> WellFormed(r.value) && IsStripped(r.value.text)
  {
    match LastIndexOf(lower, " to:")
    case None => None
    case Some(idx) =>
      var text := Strip(q[..idx]);
      var lang := StripChars(q[idx + 4..], {' ', ':'});
      if text != [] && lang != [] then Some(Request(text, Some(lang))) else None
  }

  /** `text to lang` (bot.py:325-331): the last ` to ` of `lower`, used as an index into `q`. */
  function ToRequest(q: string, lower: string): (r: Option<Request>)
    requires |lower| == |q|
    ensures r.Some? ==> WellFormed(r.value) && IsStripped(r.value.text)
  {
    match LastIndexOf(lower, " to ")
    case None => None
    case Some(idx) =>
      var text := Strip(q[..idx]);
      var lang := Strip(q[idx + 4..]);
      if text != [] && lang != [] then Some(Request(text, Some(lang))) else None
  }

  /** The longest language name the `lang: text` form accepts. */
  const MaxColonLanguage: nat := 20

  /** `lang: text` (bot.py:333-338), at the first `:`. */
  function ColonRequest(q: string): (r: Option<Request>)
    ensures r.Some? ==> WellFormed(r.value) && IsStripped(r.value.text)
    ensures r.Some? ==> r.value.lang.Some? && |r.value.lang.value| <= MaxColonLanguage
  {
    match IndexOf(q, ':')
    case None => None
    case Some(i) =>
      var lang := Strip(q[..i]);
      var text := Strip(q[i + 1..]);
      if lang != [] && text != [] && |lang| <= MaxColonLanguage then Some(Request(text, Some(lang))) else None
  }

  /** `parse_inline_translate_query(query)`. */
  function ParseInlineTranslateQuery(query: string): (r: Option<Request>)
    ensures AllIn(query, Whitespace) ==> r == None
    ensures r.Some? ==> WellFormed(r.value) && IsStripped(r.value.text)
  {
    var q := Strip(query);
    if q == [] then None
    else
      var lower := Lower(q);
      if IsAlias(lower) then AliasRequest(q)
      else if ArrowRequest(q).Some? then ArrowRequest(q)
      else if ToColonRequest(q, lower).Some? then ToColonRequest(q, lower)
      else if ToRequest(q, lower).Some? then ToRequest(q, lower)
      else ColonRequest(q)
  }

  // ---------------------------------------------------------------- the alias branch

  /** With three parts the text is a `split` token, so the `not txt` test at bot.py:305 never succeeds. */
  lemma AliasTextNeverEmpty(q: string)
    requires !AllIn(q, Whitespace) && |Split(q, 2)| == 3
    ensures Strip(Split(q, 2)[2]) != []
    ensures AliasRequest(q) == Some(Request(Strip(Split(q, 2)[2]), Some(Strip(Split(q, 2)[1]))))
  {
    var parts := Split(q, 2);
    SplitStartsWords(q, 2);
    assert !AllIn(parts[2], Whitespace) by { assert !IsSpace(parts[2][0]); }
  }

  /** A stripped query with an alias prefix is read by the alias branch alone. */
  lemma AliasBranch(q: string)
    requires q != [] && IsStripped(q) && IsAlias(Lower(q))
    ensures ParseInlineTranslateQuery(q) == AliasRequest(q)
  {
    StripWord(q);
  }

  /** The alias alone, as in `/translate`, is no request. */
  lemma AliasAlone(alias: string)
    requires IsWord(alias) && IsAlias(Lower(alias))
    ensures ParseInlineTranslateQuery(alias) == None
  {
    AliasBranch(alias);
    SplitOneWord(alias, 2);
  }

  /**
   * The alias and one more token: a known language name or a token of at most
   * three characters is no request; anything else is text for the default language.
   */
  lemma AliasOneToken(alias: string, gap: string, token: string)
    requires IsWord(alias) && IsWord(token) && gap != [] && AllIn(gap, Whitespace)
    requires IsAlias(Lower(alias + gap + token))
    ensures ParseInlineTranslateQuery(alias + gap + token) ==
      if Lower(token) in KnownLanguageTokens || |token| <= 3 then None else Some(Request(token, None))
  {
    var q := alias + gap + token;
    assert IsStripped(q) by {
      assert q[0] == alias[0] && q[|q| - 1] == token[|token| - 1];
    }
    AliasBranch(q);
    SplitWordWord(alias, gap, token);
    AliasTokenRequest(q, alias, token);
  }

  lemma AliasTokenRequest(q: string, alias: string, token: string)
    requires !AllIn(q, Whitespace) && Split(q, 2) == [alias, token] && IsWord(token)
    ensures AliasRequest(q) ==
      if Lower(token) in KnownLanguageTokens || |token| <= 3 then None else Some(Request(token, None))
  {
    assert IsStripped(token);
    StripWord(token);
  }

  /** The alias, a language and a text: the text is translated into that language. */
  lemma AliasThreeParts(alias: string, gap1: string, lang: string, gap2: string, text: string)
    requires IsWord(alias) && IsWord(lang) && text != [] && IsStripped(text)
    requires gap1 != [] && AllIn(gap1, Whitespace) && gap2 != [] && AllIn(gap2, Whitespace)
    requires IsAlias(Lower(alias + gap1 + lang + gap2 + text))
    ensures ParseInlineTranslateQuery(alias + gap1 + lang + gap2 + text) == Some(Request(text, Some(lang)))
  {
    var q := alias + gap1 + lang + gap2 + text;
    assert IsStripped(q) by {
      assert q[0] == alias[0] && q[|q| - 1] == text[|text| - 1];
    }
    AliasBranch(q);
    SplitWordWordRest(alias, gap1, lang, gap2, text);
    StripWord(lang);
    StripWord(text);
  }

  // ---------------------------------------------------------------- the free patterns

  /** When the arrow form applies to a stripped query without an alias, it decides the result. */
  lemma ArrowBranch(q: string)
    requires q != [] && IsStripped(q) && !IsAlias(Lower(q)) && ArrowRequest(q).Some?
    ensures ParseInlineTranslateQuery(q) == ArrowRequest(q)
  {
    StripWord(q);
  }

  /** The arrow between the two sides is the last one in the query. */
  lemma LastArrow(left: string, pad2: string, lang: string)
    requires AllIn(pad2, Whitespace) && LastIndexOf(lang, "->") == None
    ensures LastIndexOf(left + "->" + pad2 + lang, "->") == Some(|left|)
  {
    var q, idx := left + "->" + pad2 + lang, |left|;
    var rest := q[idx + 2..];
    assert rest == pad2 + lang;
    forall j: nat | j + 2 <= |rest|
      ensures !OccursAt(rest, "->", j)
    {
      if j < |pad2| {
        assert rest[j..j + 2][0] == pad2[j];
      } else {
        assert rest[j..j + 2] == lang[j - |pad2|..j - |pad2| + 2];
        assert !OccursAt(lang, "->", j - |pad2|);
      }
    }
    NoOccurrence(rest, "->");
    assert q[idx..idx + 2] == "->";
    assert !OccursAt(q, "->", idx + 1) by {
      if idx + 3 <= |q| {
        assert q[idx + 1..idx + 3][0] == '>';
      }
    }
    LastIndexIs(q, "->", idx);
  }

  /** `text -> lang`, with any whitespace around the arrow, gives back the two sides. */
  lemma ArrowRoundTrip(text: string, pad1: string, pad2: string, lang: string)
    requires text != [] && IsStripped(text) && lang != [] && IsStripped(lang)
    requires AllIn(pad1, Whitespace) && AllIn(pad2, Whitespace)
    requires LastIndexOf(lang, "->") == None
    requires !IsAlias(Lower(text + pad1 + "->" + pad2 + lang))
    ensures ParseInlineTranslateQuery(text + pad1 + "->" + pad2 + lang) == Some(Request(text, Some(lang)))
  {
    var q := text + pad1 + "->" + pad2 + lang;
    ArrowPadded(text, pad1, pad2, lang);
    assert IsStripped(q) by {
      assert q[0] == text[0] && q[|q| - 1] == lang[|lang| - 1];
    }
    ArrowBranch(q);
  }

  lemma ArrowPadded(text: string, pad1: string, pad2: string, lang: string)
    requires text != [] && IsStripped(text) && lang != [] && IsStripped(lang)
    requires AllIn(pad1, Whitespace) && AllIn(pad2, Whitespace)
    requires LastIndexOf(lang, "->") == None
    ensures ArrowRequest(text + pad1 + "->" + pad2 + lang) == Some(Request(text, Some(lang)))
  {
    var left, right := text + pad1, pad2 + lang;
    LastArrow(left, pad2, lang);
    assert left + "->" + pad2 + lang == left + "->" + right;
    assert text + pad1 + "->" + pad2 + lang == left + "->" + right;
    StripIs(left, [], text, pad1);
    StripIs(right, pad2, lang, []);
    ArrowSides(left, right);
  }

  /** The arrow form splits at the arrow it finds and strips both sides. */
  lemma ArrowSides(left: string, right: string)
    requires LastIndexOf(left + "->" + right, "->") == Some(|left|)
    requires Strip(left) != [] && Strip(right) != []
    ensures ArrowRequest(left + "->" + right) == Some(Request(Strip(left), Some(Strip(right))))
  {
    var q := left + "->" + right;
    assert q[..|left|] == left;
    assert q[|left| + 2..] == right;
  }

  /**
   * Lowercasing goes character by character, so a query made of three parts
   * lowercases to the three parts lowercased, at the same places.
   */
  lemma LowerParts(left: string, sep: string, right: string)
    ensures var q, a, b := left + sep + right, |left|, |left| + |sep|;
      |Lower(q)| == |q| && Lower(q)[a..b] == Lower(sep) && Lower(q)[b..] == Lower(right)
  {
    var q, a, b := left + sep + right, |left|, |left| + |sep|;
    assert forall k :: a <= k < b ==> q[k] == sep[k - a];
    assert forall k :: b <= k < |q| ==> q[k] == right[k - b];
  }

  /** A ` to:` followed by no other ` to:` is the last one. */
  lemma ToColonIsLast(lower: string, idx: nat)
    requires idx + 4 <= |lower| && lower[idx..idx + 4] == " to:"
    requires LastIndexOf(lower[idx + 4..], " to:") == None
    ensures LastIndexOf(lower, " to:") == Some(idx)
  {
    forall j: nat | idx < j < idx + 4 && j + 4 <= |lower|
      ensures !OccursAt(lower, " to:", j)
    {
      assert lower[j] == lower[idx..idx + 4][j - idx] != ' ';
    }
    LastIndexIs(lower, " to:", idx);
  }

  /**
   * A ` to ` is the last one when no other ` to ` follows it and what follows it
   * does not start with `to ` (which would make its closing space open another).
   */
  lemma ToIsLast(lower: string, idx: nat)
    requires idx + 4 <= |lower| && lower[idx..idx + 4] == " to "
    requires LastIndexOf(lower[idx + 4..], " to ") == None && !StartsWith(lower[idx + 4..], "to ")
    ensures LastIndexOf(lower, " to ") == Some(idx)
  {
    forall j: nat | idx < j < idx + 4 && j + 4 <= |lower|
      ensures !OccursAt(lower, " to ", j)
    {
      if j < idx + 3 {
        assert lower[j] == lower[idx..idx + 4][j - idx] != ' ';
      } else {
        assert lower[j + 1..j + 4] == lower[idx + 4..][..3];
      }
    }
    LastIndexIs(lower, " to ", idx);
  }

  /**
   * `text to: lang` splits at the last ` to:` in any letter case: with a
   * separator after which no other ` to:` follows, the text is what precedes it,
   * stripped, and the language what follows it, stripped of spaces and colons.
   */
  lemma ToColonSplit(left: string, sep: string, right: string)
    requires Lower(sep) == " to:"
    requires LastIndexOf(Lower(right), " to:") == None
    ensures var q := left + sep + right;
      ToColonRequest(q, Lower(q)) ==
        var text, lang := Strip(left), StripChars(right, {' ', ':'});
        if text != [] && lang != [] then Some(Request(text, Some(lang))) else None
  {
    var q, idx := left + sep + right, |left|;
    LowerParts(left, sep, right);
    ToColonIsLast(Lower(q), idx);
    assert q[..idx] == left && q[idx + 4..] == right;
  }

  /**
   * `text to lang` splits at the last ` to ` in any letter case: with a separator
   * after which no other ` to ` starts (not even one sharing its closing space),
   * the text is what precedes it and the language what follows it, both stripped.
   */
  lemma ToSplit(left: string, sep: string, right: string)
    requires Lower(sep) == " to "
    requires LastIndexOf(Lower(right), " to ") == None && !StartsWith(Lower(right), "to ")
    ensures var q := left + sep + right;
      ToRequest(q, Lower(q)) ==
        var text, lang := Strip(left), Strip(right);
        if text != [] && lang != [] then Some(Request(text, Some(lang))) else None
  {
    var q, idx := left + sep + right, |left|;
    LowerParts(left, sep, right);
    ToIsLast(Lower(q), idx);
    assert q[..idx] == left && q[idx + 4..] == right;
  }

  /**
   * `lang: text` splits at the first colon: the language is what precedes it and
   * the text what follows it, both stripped, and the language may have at most
   * `MaxColonLanguage` characters.
   */
  lemma ColonSplit(left: string, right: string)
    requires ':' !in left
    ensures ColonRequest(left + ":" + right) ==
      var lang, text := Strip(left), Strip(right);
      if lang != [] && text != [] && |lang| <= MaxColonLanguage then Some(Request(text, Some(lang))) else None
  {
    var q := left + ":" + right;
    assert forall j :: 0 <= j < |left| ==> q[j] == left[j];
    assert q[|left|] == ':';
    var i := IndexOf(q, ':');
    assert i.Some? && i.value == |left|;
    assert q[..|left|] == left && q[|left| + 1..] == right;
  }

  /** Lowercasing makes no colon, so a query without a colon has no ` to:` in any letter case. */
  lemma NoColonNoToColon(q: string)
    requires ':' !in q
    ensures LastIndexOf(Lower(q), " to:") == None
  {
    var lower := Lower(q);
    forall j: nat | j + 4 <= |lower|
      ensures !OccursAt(lower, " to:", j)
    {
      assert q[j + 3] in q;
      assert lower[j + 3] == LowerChar(q[j + 3]) != ':';
      assert lower[j..j + 4][3] != " to:"[3];
    }
    NoOccurrence(lower, " to:");
  }

  /** A word without spaces neither holds a ` to ` nor starts with `to `, in any letter case. */
  lemma NoSpaceNoTo(lang: string)
    requires ' ' !in lang
    ensures LastIndexOf(Lower(lang), " to ") == None && !StartsWith(Lower(lang), "to ")
  {
    var lower := Lower(lang);
    forall j | 0 <= j < |lang|
      ensures lower[j] != ' '
    {
      assert lang[j] in lang;
      assert lower[j] == LowerChar(lang[j]);
    }
    forall j: nat | j + 4 <= |lower|
      ensures !OccursAt(lower, " to ", j)
    {
      assert lower[j..j + 4][0] != " to "[0];
    }
    NoOccurrence(lower, " to ");
    if 3 <= |lower| {
      assert lower[..3][2] != "to "[2];
    }
  }

  /**
   * `text to: lang` read back: a query with no alias prefix and no `->`, made of
   * a text, a ` to:` in any letter case and a part with no further ` to:`, gives
   * the text and that part stripped of spaces and colons.
   */
  lemma ToColonRoundTrip(text: string, sep: string, right: string)
    requires text != [] && IsStripped(text) && right != [] && !IsSpace(right[|right| - 1])
    requires Lower(sep) == " to:" && LastIndexOf(Lower(right), " to:") == None
    requires StripChars(right, {' ', ':'}) != []
    requires !IsAlias(Lower(text + sep + right)) && LastIndexOf(text + sep + right, "->") == None
    ensures ParseInlineTranslateQuery(text + sep + right) == Some(Request(text, Some(StripChars(right, {' ', ':'}))))
  {
    var q := text + sep + right;
    assert IsStripped(q) by {
      assert q[0] == text[0] && q[|q| - 1] == right[|right| - 1];
    }
    StripWord(text);
    ToColonSplit(text, sep, right);
    ToColonBranch(q);
  }

  /** When the ` to:` form applies to a stripped query that neither the alias nor the arrow form reads, it decides the result. */
  lemma ToColonBranch(q: string)
    requires q != [] && IsStripped(q) && !IsAlias(Lower(q)) && ArrowRequest(q).None?
    requires ToColonRequest(q, Lower(q)).Some?
    ensures ParseInlineTranslateQuery(q) == ToColonRequest(q, Lower(q))
  {
    StripWord(q);
  }

  /**
   * `text to lang` read back: a query with no alias prefix, no `->` and no ` to:`,
   * made of a text, a ` to ` in any letter case and a language after which no
   * other ` to ` can be found, gives the text and the language.
   */
  lemma ToRoundTrip(text: string, sep: string, lang: string)
    requires text != [] && IsStripped(text) && lang != [] && IsStripped(lang)
    requires Lower(sep) == " to " && LastIndexOf(Lower(lang), " to ") == None && !StartsWith(Lower(lang), "to ")
    requires !IsAlias(Lower(text + sep + lang)) && LastIndexOf(text + sep + lang, "->") == None
    requires LastIndexOf(Lower(text + sep + lang), " to:") == None
    ensures ParseInlineTranslateQuery(text + sep + lang) == Some(Request(text, Some(lang)))
  {
    var q := text + sep + lang;
    assert IsStripped(q) by {
      assert q[0] == text[0] && q[|q| - 1] == lang[|lang| - 1];
    }
    StripWord(text);
    StripWord(lang);
    ToSplit(text, sep, lang);
    ToBranch(q);
  }

  /**
   * Around a ` to ` separator, a text that does not start like an alias and
   * parts without `-` and `:` make a query that no form before ` to ` reads.
   */
  lemma PlainToQuery(text: string, sep: string, lang: string)
    requires Lower(sep) == " to "
    requires text != [] && LowerChar(text[0]) != '/' && LowerChar(text[0]) != 't' && LowerChar(text[0]) != 'b'
    requires '-' !in text && ':' !in text && '-' !in lang && ':' !in lang
    ensures !IsAlias(Lower(text + sep + lang))
    ensures LastIndexOf(text + sep + lang, "->") == None
    ensures LastIndexOf(Lower(text + sep + lang), " to:") == None
  {
    var q, a, b := text + sep + lang, |text|, |text| + |sep|;
    assert Lower(q)[0] == LowerChar(text[0]);
    NotAlias(Lower(q));
    forall k | 0 <= k < |q|
      ensures q[k] != '-' && q[k] != ':'
    {
      if k < a {
        assert q[k] == text[k] && text[k] in text;
      } else if k < b {
        assert q[k] == sep[k - a] && LowerChar(sep[k - a]) == Lower(sep)[k - a];
      } else {
        assert q[k] == lang[k - b] && lang[k - b] in lang;
      }
    }
    AbsentFirstChar(q, "->");
    NoColonNoToColon(q);
  }

  /** When the ` to ` form applies to a stripped query that no earlier form reads, it decides the result. */
  lemma ToBranch(q: string)
    requires q != [] && IsStripped(q) && !IsAlias(Lower(q)) && ArrowRequest(q).None?
    requires ToColonRequest(q, Lower(q)).None? && ToRequest(q, Lower(q)).Some?
    ensures ParseInlineTranslateQuery(q) == ToRequest(q, Lower(q))
  {
    StripWord(q);
  }

  /**
   * `lang: text` read back: a query with no alias prefix, no `->`, no ` to:` and no ` to `,
   * made of a language of at most `MaxColonLanguage` characters without a colon,
   * a colon and a text, gives the text stripped and the language.
   */
  lemma ColonRoundTrip(lang: string, right: string)
    requires lang != [] && IsStripped(lang) && ':' !in lang && |lang| <= MaxColonLanguage
    requires right != [] && !IsSpace(right[|right| - 1])
    requires !IsAlias(Lower(lang + ":" + right)) && LastIndexOf(lang + ":" + right, "->") == None
    requires LastIndexOf(Lower(lang + ":" + right), " to:") == None && LastIndexOf(Lower(lang + ":" + right), " to ") == None
    ensures ParseInlineTranslateQuery(lang + ":" + right) == Some(Request(Strip(right), Some(lang)))
  {
    ColonBranch(lang, right);
    StripWord(lang);
  }

  /** A language longer than `MaxColonLanguage` characters before the first colon gives no request. */
  lemma ColonTooLong(lang: string, right: string)
    requires lang != [] && IsStripped(lang) && ':' !in lang && |lang| > MaxColonLanguage
    requires right != [] && !IsSpace(right[|right| - 1])
    requires !IsAlias(Lower(lang + ":" + right)) && LastIndexOf(lang + ":" + right, "->") == None
    requires LastIndexOf(Lower(lang + ":" + right), " to:") == None && LastIndexOf(Lower(lang + ":" + right), " to ") == None
    ensures ParseInlineTranslateQuery(lang + ":" + right) == None
  {
    ColonBranch(lang, right);
    StripWord(lang);
  }

  /** When no earlier form applies, the colon form decides the result. */
  lemma ColonBranch(left: string, right: string)
    requires left != [] && !IsSpace(left[0]) && ':' !in left
    requires right != [] && !IsSpace(right[|right| - 1])
    requires !IsAlias(Lower(left + ":" + right)) && LastIndexOf(left + ":" + right, "->") == None
    requires LastIndexOf(Lower(left + ":" + right), " to:") == None && LastIndexOf(Lower(left + ":" + right), " to ") == None
    ensures ParseInlineTranslateQuery(left + ":" + right) == ColonRequest(left + ":" + right)
    ensures ColonRequest(left + ":" + right) ==
      var lang, text := Strip(left), Strip(right);
      if lang != [] && text != [] && |lang| <= MaxColonLanguage then Some(Request(text, Some(lang))) else None
  {
    var q := left + ":" + right;
    assert IsStripped(q) by {
      assert q[0] == left[0] && q[|q| - 1] == right[|right| - 1];
    }
    StripWord(q);
    ColonSplit(left, right);
  }

  /** A query that fits no form (no alias prefix, no `->`, no colon, no ` to `) gives no request. */
  lemma NoPatternNone(q: string)
    requires q != [] && IsStripped(q) && !IsAlias(Lower(q))
    requires LastIndexOf(q, "->") == None && ':' !in q && LastIndexOf(Lower(q), " to ") == None
    ensures ParseInlineTranslateQuery(q) == None
  {
    StripWord(q);
    NoColonNoToColon(q);
  }

  /** An arrow with nothing after it leaves the arrow form without a language, so it does not apply. */
  lemma ArrowAtEnd(left: string)
    ensures ArrowRequest(left + "->") == None
  {
    var q, idx := left + "->", |left|;
    assert q[idx..idx + 2] == "->";
    NoOccurrence(q[idx + 2..], "->");
    LastIndexIs(q, "->", idx);
    assert q[idx + 2..] == [];
  }

  /**
   * A query ending in an arrow has nothing to translate into on the arrow's right,
   * so the arrow form gives nothing and the ` to ` form reads the whole query,
   * arrow included: `text to word ->` asks for `text` in the language `word ->`.
   */
  lemma ArrowFallsThrough(text: string, sep: string, word: string)
    requires text != [] && IsStripped(text) && Lower(sep) == " to "
    requires LowerChar(text[0]) != '/' && LowerChar(text[0]) != 't' && LowerChar(text[0]) != 'b'
    requires ':' !in text && IsWord(word) && ':' !in word && LowerChar(word[0]) != 't'
    ensures ParseInlineTranslateQuery(text + sep + (word + " ->")) == Some(Request(text, Some(word + " ->")))
  {
    var right := word + " ->";
    var q := text + sep + right;
    ArrowTail(text + sep, word);
    ArrowAtEnd(text + sep + word + " ");
    FallThroughQuery(text, sep, right);
    NoColonNoToColon(q);
    SpacedArrowNoTo(word);
    StripWord(text);
    StripWord(right);
    ToSplit(text, sep, right);
    ToBranch(q);
  }

  /** `word ->` is stripped and holds no colon when `word` is a word without one, and ends a query with its arrow. */
  lemma ArrowTail(left: string, word: string)
    requires IsWord(word) && ':' !in word
    ensures IsStripped(word + " ->") && ':' !in word + " ->"
    ensures left + (word + " ->") == left + word + " " + "->"
  {
    var right := word + " ->";
    assert right[0] == word[0] && right[|right| - 1] == '>';
  }

  /** A text, a ` to ` and a right part of no colon, ending in non-whitespace, make a stripped query with no alias prefix and no colon. */
  lemma FallThroughQuery(text: string, sep: string, right: string)
    requires text != [] && IsStripped(text) && Lower(sep) == " to "
    requires LowerChar(text[0]) != '/' && LowerChar(text[0]) != 't' && LowerChar(text[0]) != 'b'
    requires right != [] && !IsSpace(right[|right| - 1])
    requires ':' !in text && ':' !in right
    ensures IsStripped(text + sep + right)
    ensures !IsAlias(Lower(text + sep + right))
    ensures ':' !in text + sep + right
  {
    var q := text + sep + right;
    SeparatorNoColon(sep);
    assert Lower(q)[0] == LowerChar(text[0]);
    NotAlias(Lower(q));
    assert q[0] == text[0] && q[|q| - 1] == right[|right| - 1];
  }

  /** A ` to ` in any letter case holds no colon. */
  lemma SeparatorNoColon(sep: string)
    requires Lower(sep) == " to "
    ensures ':' !in sep
  {
    forall k | 0 <= k < |sep|
      ensures sep[k] != ':'
    {
      assert LowerChar(sep[k]) == Lower(sep)[k];
    }
  }

  /** `word ->`, for a word not starting with `t`, holds no ` to ` and does not start with `to `. */
  lemma SpacedArrowNoTo(word: string)
    requires IsWord(word) && LowerChar(word[0]) != 't'
    ensures LastIndexOf(Lower(word + " ->"), " to ") == None && !StartsWith(Lower(word + " ->"), "to ")
  {
    var right := word + " ->";
    var lower := Lower(right);
    forall j: nat | j + 4 <= |lower|
      ensures !OccursAt(lower, " to ", j)
    {
      assert j < |word| && right[j] == word[j];
      assert lower[j] == LowerChar(word[j]) != ' ';
      assert lower[j..j + 4][0] == lower[j];
    }
    NoOccurrence(lower, " to ");
    assert lower[0] == LowerChar(word[0]);
    if 3 <= |lower| {
      assert lower[..3][0] != "to "[0];
    }
  }

  // ---------------------------------------------------------------- examples

  /** Every alias starts with `/`, `t` or `b`. */
  lemma NotAlias(lower: string)
    requires lower != [] && lower[0] != '/' && lower[0] != 't' && lower[0] != 'b'
    ensures !IsAlias(lower)
  {
  }

  /** A query that starts with `trans` in any letter case and a space takes the alias branch. */
  lemma TransPrefix(alias: string, q: string)
    requires Lower(alias) == "trans" && StartsWith(q, alias + " ")
    ensures IsAlias(Lower(q))
  {
    var prefix := alias + " ";
    LowerPrefix(q, prefix);
    assert Lower(prefix) == "trans " by {
      assert Lower(prefix)[..5] == Lower(alias);
    }
    StartsWithTransitive(Lower(q), Lower(prefix), "trans ");
  }

  /** A word of ASCII letters, such as most language names. */
  predicate LetterWord(s: string) {
    s != [] && forall k :: 0 <= k < |s| ==> 'a' <= s[k] <= 'z' || 'A' <= s[k] <= 'Z'
  }

  /** A word of letters is a stripped word and holds no space, hyphen or colon. */
  lemma LetterWordPlain(s: string)
    requires LetterWord(s)
    ensures IsWord(s) && IsStripped(s) && ' ' !in s && '-' !in s && ':' !in s
  {
  }

  /** `trans en` names a language but no text: no request. */
  lemma ExampleBareAlias()
    ensures ParseInlineTranslateQuery("trans" + " " + "en") == None
  {
    var alias, gap, token := "trans", " ", "en";
    LetterWordPlain(alias);
    LetterWordPlain(token);
    LowerIs(alias, alias);
    assert AllIn(gap, Whitespace);
    TransPrefix(alias, alias + gap + token);
    AliasOneToken(alias, gap, token);
  }

  /** `trans en Hello` translates `Hello` into `en`. */
  lemma ExampleAliasLangText()
    ensures ParseInlineTranslateQuery("trans" + " " + "en" + " " + "Hello") == Some(Request("Hello", Some("en")))
  {
    var alias, gap, lang, text := "trans", " ", "en", "Hello";
    LetterWordPlain(alias);
    LetterWordPlain(lang);
    LetterWordPlain(text);
    LowerIs(alias, alias);
    assert AllIn(gap, Whitespace);
    var q := alias + gap + lang + gap + text;
    StartsWithAppend(alias + gap, lang);
    StartsWithAppend(alias + gap + lang, gap);
    StartsWithTransitive(alias + gap + lang + gap, alias + gap + lang, alias + gap);
    StartsWithAppend(alias + gap + lang + gap, text);
    StartsWithTransitive(q, alias + gap + lang + gap, alias + gap);
    TransPrefix(alias, q);
    AliasThreeParts(alias, gap, lang, gap, text);
  }

  /** `Hello -> Russian`. */
  lemma ExampleArrow()
    ensures ParseInlineTranslateQuery("Hello" + " " + "->" + " " + "Russian") == Some(Request("Hello", Some("Russian")))
  {
    var text, pad, lang := "Hello", " ", "Russian";
    LetterWordPlain(text);
    LetterWordPlain(lang);
    assert AllIn(pad, Whitespace);
    AbsentFirstChar(lang, "->");
    var q := text + pad + "->" + pad + lang;
    assert q[0] == text[0] && LowerChar(text[0]) == 'h';
    NotAlias(Lower(q));
    ArrowRoundTrip(text, pad, pad, lang);
  }

  /** `Hello to Russian`. */
  lemma ExampleTo()
    ensures ParseInlineTranslateQuery("Hello" + " to " + "Russian") == Some(Request("Hello", Some("Russian")))
  {
    var text, sep, lang := "Hello", " to ", "Russian";
    LowerIs(sep, sep);
    LetterWordPlain(text);
    LetterWordPlain(lang);
    assert LowerChar(text[0]) == 'h';
    NoSpaceNoTo(lang);
    PlainToQuery(text, sep, lang);
    ToRoundTrip(text, sep, lang);
  }

  /** `a to b ->` asks for `a` in the language `b ->`. */
  lemma ExampleArrowFallsThrough()
    ensures ParseInlineTranslateQuery("a" + " to " + ("b" + " ->")) == Some(Request("a", Some("b" + " ->")))
  {
    var text, sep, word := "a", " to ", "b";
    LowerIs(sep, sep);
    assert LowerChar(text[0]) == 'a' && LowerChar(word[0]) == 'b';
    ArrowFallsThrough(text, sep, word);
  }
}
