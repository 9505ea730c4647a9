/**
 * The two helpers nested in `translate_text`: `normalize_language_name`
 * (bot.py:131-169), which turns what the user typed as a target language into
 * the language name the translation prompt uses, and `_strip_quotes`
 * (bot.py:171-177), which cleans the model's answer.
 */
module Language {
  import opened Wrappers
  import opened Text

  /** The number of languages in the alias table. */
  const LanguageCount := 14

  /**
   * Language `g` of the alias table of bot.py:139-168, in its order: the
   * canonical English name and the lowercase aliases that map to it.
   */
  function AliasGroup(g: nat): (string, seq<string>)
    requires g < LanguageCount
  {
    match g
    case 0 => ("English", ["en", "eng", "english"])
    case 1 => ("Russian", ["ru", "rus", "russian", "рус", "русский"])
    case 2 => ("Ukrainian", ["uk", "ua", "ukrainian", "украинский"])
    case 3 => ("German", ["de", "ger", "deu", "german", "нем", "немецкий"])
    case 4 => ("French", ["fr", "fra", "fre", "french", "французский"])
    case 5 => ("Spanish", ["es", "spa", "spanish", "испанский"])
    case 6 => ("Italian", ["it", "ita", "italian", "итальянский"])
    case 7 => ("Portuguese", ["pt", "por", "portuguese", "португальский"])
    case 8 => ("Chinese", ["zh", "cmn", "chinese", "中文", "китайский"])
    case 9 => ("Japanese", ["ja", "jpn", "japanese", "японский"])
    case 10 => ("Korean", ["ko", "kor", "korean", "корейский"])
    case 11 => ("Turkish", ["tr", "tur", "turkish", "турецкий"])
    case 12 => ("Arabic", ["ar", "ara", "arabic", "арабский"])
    case 13 => ("Polish", ["pl", "pol", "polish", "польский"])
    case _ => ("", [])
  }

  /** Every language of the table has a non-empty name and only non-empty aliases. */
  lemma AliasGroupWellFormed(g: nat)
    requires g < LanguageCount
    ensures AliasGroup(g).0 != [] && [] !in AliasGroup(g).1
  {
  }

  /**
   * No alias of language `g` is listed again under a later language. The
   * lemmas below check it language by language; together they make the
   * first-match search agree with the lookup of a dictionary literal, where a
   * repeated key would keep its last value.
   */
  predicate NoLaterRepeat(g: nat)
    requires g < LanguageCount
  {
    forall h, i :: g < h < LanguageCount && 0 <= i < |AliasGroup(g).1| ==> AliasGroup(g).1[i] !in AliasGroup(h).1
  }

  lemma NoRepeatAfterEnglish()
    ensures NoLaterRepeat(0)
  {
  }

  lemma NoRepeatAfterRussian()
    ensures NoLaterRepeat(1)
  {
  }

  lemma NoRepeatAfterUkrainian()
    ensures NoLaterRepeat(2)
  {
  }

  lemma NoRepeatAfterGerman()
    ensures NoLaterRepeat(3)
  {
  }

  lemma NoRepeatAfterFrench()
    ensures NoLaterRepeat(4)
  {
  }

  lemma NoRepeatAfterSpanish()
    ensures NoLaterRepeat(5)
  {
  }

  lemma NoRepeatAfterItalian()
    ensures NoLaterRepeat(6)
  {
  }

  lemma NoRepeatAfterPortuguese()
    ensures NoLaterRepeat(7)
  {
  }

  lemma NoRepeatAfterChinese()
    ensures NoLaterRepeat(8)
  {
  }

  lemma NoRepeatAfterJapanese()
    ensures NoLaterRepeat(9)
  {
  }

  lemma NoRepeatAfterKorean()
    ensures NoLaterRepeat(10)
  {
  }

  lemma NoRepeatAfterTurkish()
    ensures NoLaterRepeat(11)
  {
  }

  lemma NoRepeatAfterArabic()
    ensures NoLaterRepeat(12)
  {
  }

  /** No alias is listed under two languages. */
  lemma AliasesUnique(g: nat, h: nat, k: string)
    requires g < h < LanguageCount && k in AliasGroup(g).1
    ensures k !in AliasGroup(h).1
  {
    match g
    case 0 => NoRepeatAfterEnglish();
    case 1 => NoRepeatAfterRussian();
    case 2 => NoRepeatAfterUkrainian();
    case 3 => NoRepeatAfterGerman();
    case 4 => NoRepeatAfterFrench();
    case 5 => NoRepeatAfterSpanish();
    case 6 => NoRepeatAfterItalian();
    case 7 => NoRepeatAfterPortuguese();
    case 8 => NoRepeatAfterChinese();
    case 9 => NoRepeatAfterJapanese();
    case 10 => NoRepeatAfterKorean();
    case 11 => NoRepeatAfterTurkish();
    case 12 => NoRepeatAfterArabic();
  }

  /** The alias table as a sequence of languages, in the order of bot.py:139-168. */
  const Table: seq<(string, seq<string>)> := seq(LanguageCount, g requires 0 <= g < LanguageCount => AliasGroup(g))

  /** The search of `table` from row `g` on: the name of the first row that lists `key`. */
  function LookupFrom(table: seq<(string, seq<string>)>, key: string, g: nat): (name: Option<string>)
    requires g <= |table|
    ensures name.None? <==> forall h :: g <= h < |table| ==> key !in table[h].1
    ensures name.Some? ==> exists h :: g <= h < |table| && key in table[h].1 && name.value == table[h].0
    decreases |table| - g
  {
    if g == |table| then None
    else if key in table[g].1 then Some(table[g].0)
    else LookupFrom(table, key, g + 1)
  }

  /** The search reaches row `g` when no row before it lists `key`. */
  lemma {:induction false} LookupFromFinds(table: seq<(string, seq<string>)>, key: string, from: nat, g: nat)
    requires from <= g < |table| && key in table[g].1
    requires forall h :: from <= h < g ==> key !in table[h].1
    ensures LookupFrom(table, key, from) == Some(table[g].0)
    decreases g - from
  {
    if from < g {
      LookupFromFinds(table, key, from + 1, g);
    }
  }

  /** An alias listed under language `g` is found there, because no earlier language lists it. */
  lemma LookupFindsOwnLanguage(key: string)
    ensures forall g :: 0 <= g < LanguageCount && key in AliasGroup(g).1 ==> LookupFrom(Table, key, 0) == Some(AliasGroup(g).0)
  {
    forall g | 0 <= g < LanguageCount && key in AliasGroup(g).1
      ensures LookupFrom(Table, key, 0) == Some(AliasGroup(g).0)
    {
      forall h | 0 <= h < g
        ensures key !in Table[h].1
      {
        if key in AliasGroup(h).1 {
          AliasesUnique(h, g, key);
        }
      }
      LookupFromFinds(Table, key, 0, g);
    }
  }

  /**
   * `mapping.get(alias)` on the alias table of bot.py:139-168: nothing when no
   * language lists the alias, otherwise the name of the language that does.
   */
  function LookupAlias(alias: string): (name: Option<string>)
    ensures name.None? <==> forall g :: 0 <= g < LanguageCount ==> alias !in AliasGroup(g).1
    ensures forall g :: 0 <= g < LanguageCount && alias in AliasGroup(g).1 ==> name == Some(AliasGroup(g).0)
    ensures name.Some? ==> alias != [] && name.value != []
  {
    LookupFindsOwnLanguage(alias);
    var name := LookupFrom(Table, alias, 0);
    if name.Some? then
      var g :| 0 <= g < LanguageCount && alias in AliasGroup(g).1 && name.value == AliasGroup(g).0;
      AliasGroupWellFormed(g);
      name
    else name
  }

  /** The language used when none is given. */
  const DefaultLanguage: string := "English"

  /**
   * `normalize_language_name(raw)`: English when nothing is given, the table's
   * language for any spelling of one of its aliases, and otherwise the input
   * only title-cased, so never longer than the input.
   */
  function NormalizeLanguageName(raw: Option<string>): (name: string)
    ensures raw.None? || raw.value == [] ==> name == DefaultLanguage
    ensures raw.Some? && raw.value != [] ==>
      forall g :: 0 <= g < LanguageCount && Lower(Strip(raw.value)) in AliasGroup(g).1 ==> name == AliasGroup(g).0
    ensures raw.Some? && raw.value != [] && LookupAlias(Lower(Strip(raw.value))).None? ==> |name| <= |raw.value|
  {
    if raw.None? || raw.value == [] then DefaultLanguage
    else
      match LookupAlias(Lower(Strip(raw.value)))
      case Some(canonical) => canonical
      case None => Title(Strip(raw.value))
  }

  /** A canonical name is non-empty, stripped, and found in the table under its own lowercase form. */
  predicate IsCanonical(name: string) {
    name != [] && IsStripped(name) && LookupAlias(Lower(name)) == Some(name)
  }

  /**
   * Language `g`'s name is canonical once its letters lowercase, one by one, to
   * its `j`-th alias.
   */
  lemma CanonicalByLetters(g: nat, j: nat)
    requires g < LanguageCount && j < |AliasGroup(g).1|
    requires var name, key := AliasGroup(g).0, AliasGroup(g).1[j];
      |name| == |key| && forall i :: 0 <= i < |name| ==> LowerChar(name[i]) == key[i]
    requires var name := AliasGroup(g).0; name != [] && !IsSpace(name[0]) && !IsSpace(name[|name| - 1])
    ensures IsCanonical(AliasGroup(g).0)
  {
    var name, key := AliasGroup(g).0, AliasGroup(g).1[j];
    LowerIs(name, key);
  }

  /** Every name the table yields is found again under its own lowercase spelling. */
  lemma LanguageNamesCanonical(g: nat)
    requires g < LanguageCount
    ensures IsCanonical(AliasGroup(g).0)
  {
    if g <= 3 {
      NamesCanonicalEnglishToGerman(g);
    } else if g <= 7 {
      NamesCanonicalFrenchToPortuguese(g);
    } else if g <= 10 {
      NamesCanonicalChineseToKorean(g);
    } else {
      NamesCanonicalTurkishToPolish(g);
    }
  }

  /** The names of English through German, letter by letter. */
  lemma NamesCanonicalEnglishToGerman(g: nat)
    requires 0 <= g <= 3
    ensures IsCanonical(AliasGroup(g).0)
  {
    match g
    case 0 => CanonicalByLetters(0, 2);
    case 1 => CanonicalByLetters(1, 2);
    case 2 => CanonicalByLetters(2, 2);
    case 3 => CanonicalByLetters(3, 3);
  }

  /** The names of French through Portuguese, letter by letter. */
  lemma NamesCanonicalFrenchToPortuguese(g: nat)
    requires 4 <= g <= 7
    ensures IsCanonical(AliasGroup(g).0)
  {
    match g
    case 4 => CanonicalByLetters(4, 3);
    case 5 => CanonicalByLetters(5, 2);
    case 6 => CanonicalByLetters(6, 2);
    case 7 => CanonicalByLetters(7, 2);
  }

  /** The names of Chinese through Korean, letter by letter. */
  lemma NamesCanonicalChineseToKorean(g: nat)
    requires 8 <= g <= 10
    ensures IsCanonical(AliasGroup(g).0)
  {
    match g
    case 8 => CanonicalByLetters(8, 2);
    case 9 => CanonicalByLetters(9, 2);
    case 10 => CanonicalByLetters(10, 2);
  }

  /** The names of Turkish through Polish, letter by letter. */
  lemma NamesCanonicalTurkishToPolish(g: nat)
    requires 11 <= g <= 13
    ensures IsCanonical(AliasGroup(g).0)
  {
    match g
    case 11 => CanonicalByLetters(11, 2);
    case 12 => CanonicalByLetters(12, 2);
    case 13 => CanonicalByLetters(13, 2);
  }

  /** A table hit is a non-empty name. */
  lemma NormalizeHit(raw: string)
    requires raw != [] && LookupAlias(Lower(Strip(raw))).Some?
    ensures NormalizeLanguageName(Some(raw)) != []
  {
  }

  /** Only an input with some non-whitespace can hit the table: the empty string is no alias. */
  lemma HitNotBlank(raw: string)
    requires LookupAlias(Lower(Strip(raw))).Some?
    ensures !AllIn(raw, Whitespace)
  {
  }

  /** Off the table, the title-cased input is empty exactly when the input is all whitespace. */
  lemma NormalizeMiss(raw: string)
    requires raw != [] && LookupAlias(Lower(Strip(raw))).None?
    ensures NormalizeLanguageName(Some(raw)) == [] <==> AllIn(raw, Whitespace)
  {
  }

  /**
   * The result is empty exactly when the input is a non-empty run of whitespace
   * (stripped, it is no alias, and the title case of nothing is nothing); `None`
   * and the empty string give the default.
   */
  lemma NormalizeEmpty(raw: Option<string>)
    ensures NormalizeLanguageName(raw) == [] <==> raw.Some? && raw.value != [] && AllIn(raw.value, Whitespace)
    ensures raw.None? || raw.value == [] ==> NormalizeLanguageName(raw) == DefaultLanguage
  {
    if raw.Some? && raw.value != [] {
      if LookupAlias(Lower(Strip(raw.value))).Some? {
        NormalizeHit(raw.value);
        HitNotBlank(raw.value);
      } else {
        NormalizeMiss(raw.value);
      }
    }
  }

  /** A canonical name normalizes to itself. */
  lemma CanonicalFixed(name: string)
    requires IsCanonical(name)
    ensures NormalizeLanguageName(Some(name)) == name
  {
    StripWord(name);
  }

  /** A title-cased name off the table normalizes to itself. */
  lemma TitledFixed(t: string)
    requires t != [] && IsStripped(t) && LookupAlias(Lower(t)).None?
    ensures NormalizeLanguageName(Some(Title(t))) == Title(t)
  {
    TitleKeepsAlias(t);
    TitleIdempotent(t);
    StripWord(Title(t));
  }

  /** Normalizing a normalized name changes nothing (for any input that is not blank-but-non-empty). */
  lemma NormalizeIdempotent(raw: Option<string>)
    requires !(raw.Some? && raw.value != [] && AllIn(raw.value, Whitespace))
    ensures NormalizeLanguageName(Some(NormalizeLanguageName(raw))) == NormalizeLanguageName(raw)
  {
    if raw.None? || raw.value == [] {
      LanguageNamesCanonical(0);
      CanonicalFixed(DefaultLanguage);
    } else {
      var t := Strip(raw.value);
      var hit := LookupAlias(Lower(t));
      if hit.Some? {
        var g :| 0 <= g < LanguageCount && Lower(t) in AliasGroup(g).1;
        LanguageNamesCanonical(g);
        CanonicalFixed(hit.value);
      } else {
        TitledFixed(t);
      }
    }
  }

  /** Title-casing a stripped string keeps it stripped and keeps its lowercase form. */
  lemma TitleKeepsAlias(t: string)
    requires IsStripped(t)
    ensures IsStripped(Title(t)) && Lower(Title(t)) == Lower(t)
  {
  }

  /**
   * The table applies to every spelling of an alias: an input that strips and
   * lowercases to an alias listed under language `g` gives that language's name.
   */
  lemma NormalizeAlias(raw: string, g: nat)
    requires raw != [] && g < LanguageCount && Lower(Strip(raw)) in AliasGroup(g).1
    ensures NormalizeLanguageName(Some(raw)) == AliasGroup(g).0
  {
  }

  /** An input that strips and lowercases to no alias of the table is only title-cased. */
  lemma NormalizeUnlisted(raw: string)
    requires raw != [] && forall g :: 0 <= g < LanguageCount ==> Lower(Strip(raw)) !in AliasGroup(g).1
    ensures NormalizeLanguageName(Some(raw)) == Title(Strip(raw))
  {
  }

  /**
   * Whitespace around a spelling whose letters lowercase to an alias of language
   * `g` is stripped off, and the spelling gives that language.
   */
  lemma NormalizeSpelling(raw: string, before: string, word: string, after: string, key: string, g: nat)
    requires raw == before + word + after && AllIn(before, Whitespace) && AllIn(after, Whitespace)
    requires g < LanguageCount && key in AliasGroup(g).1 && IsStripped(word)
    requires |word| == |key| && forall i :: 0 <= i < |word| ==> LowerChar(word[i]) == key[i]
    ensures NormalizeLanguageName(Some(raw)) == AliasGroup(g).0
  {
    AliasGroupWellFormed(g);
    StripIs(raw, before, word, after);
    LowerIs(word, key);
    NormalizeAlias(raw, g);
  }

  /** `None` and the empty string give English. */
  lemma ExampleDefault()
    ensures NormalizeLanguageName(None) == "English"
    ensures NormalizeLanguageName(Some("")) == "English"
  {
  }

  /** The table is consulted on the stripped, lowercased input: `"  RU "` is Russian. */
  lemma ExamplePaddedCode()
    ensures NormalizeLanguageName(Some("  RU ")) == "Russian"
  {
    NormalizeSpelling("  RU ", "  ", "RU", " ", "ru", 1);
  }

  /** Cyrillic capitals are lowered too: `"Русский"` is Russian. */
  lemma ExampleCyrillicName()
    ensures NormalizeLanguageName(Some("Русский")) == "Russian"
  {
    NormalizeSpelling("Русский", "", "Русский", "", "русский", 1);
  }

  // ---------------------------------------------------------------- _strip_quotes

  predicate IsQuote(c: char) {
    c == '"' || c == '\''
  }

  /** The string starts and ends with the same quote character. */
  predicate Quoted(t: string) {
    t != [] && IsQuote(t[0]) && t[|t| - 1] == t[0]
  }

  /**
   * `_strip_quotes(s)`: the empty string is returned as is; anything else is
   * stripped and, when it starts and ends with the same quote character, loses
   * that one pair and is stripped again. A lone quote character is both the
   * opening and the closing one, and leaves the empty string.
   */
  function StripQuotes(s: string): (r: string)
    ensures IsStripped(r)
    ensures |r| <= |s|
    ensures !Quoted(Strip(s)) ==> r == Strip(s)
    ensures Quoted(Strip(s)) && |Strip(s)| == 1 ==> r == []
  {
    if s == [] then s
    else
      var t := Strip(s);
      if Quoted(t) then (if |t| == 1 then [] else Strip(t[1..|t| - 1])) else t
  }

  /**
   * One pair of quotes around a text, with any whitespace outside, is removed
   * and the text inside is stripped in turn; a stripped text comes back exactly.
   */
  lemma StripQuotesRoundTrip(u: string, q: char, left: string, right: string)
    requires IsQuote(q)
    requires AllIn(left, Whitespace) && AllIn(right, Whitespace)
    ensures StripQuotes(left + [q] + u + [q] + right) == Strip(u)
  {
    var t := [q] + u + [q];
    var s := left + t + right;
    assert left + [q] + u + [q] + right == s;
    StripIs(s, left, t, right);
    assert |t| >= 2 && Quoted(t);
    assert t[1..|t| - 1] == u;
  }

  /** A lone quote, with any whitespace around it, counts as a quoted empty text and leaves nothing. */
  lemma StripQuotesLoneQuote(q: char, left: string, right: string)
    requires IsQuote(q)
    requires AllIn(left, Whitespace) && AllIn(right, Whitespace)
    ensures StripQuotes(left + [q] + right) == []
  {
    StripIs(left + [q] + right, left, [q], right);
  }

  /** `"` on its own becomes the empty text. */
  lemma ExampleLoneQuote()
    ensures StripQuotes("\"") == []
  {
    assert "\"" == [] + ['"'] + [];
    StripQuotesLoneQuote('"', [], []);
  }

  /** A quoted word with a space on each side inside the quotes loses the quotes and the spaces. */
  lemma QuotedPaddedWord(q: char, w: string)
    requires IsQuote(q) && w != [] && IsStripped(w)
    ensures StripQuotes([q] + " " + w + " " + [q]) == w
  {
    var u := " " + w + " ";
    assert [q] + " " + w + " " + [q] == [] + [q] + u + [q] + [];
    StripQuotesRoundTrip(u, q, [], []);
    StripIs(u, " ", w, " ");
  }

  lemma PaddedQuotesSpelling()
    ensures "\" hi \"" == ['"'] + " " + "hi" + " " + ['"']
    ensures IsQuote('"') && IsStripped("hi")
  {
  }

  /** Whitespace inside the quotes goes too: `" hi "` in quotes becomes `hi`. */
  lemma ExamplePaddedQuotes()
    ensures StripQuotes("\" hi \"") == "hi"
  {
    PaddedQuotesSpelling();
    QuotedPaddedWord('"', "hi");
  }

  /** Only one pair is removed: `""x""` becomes `"x"`. */
  lemma StripQuotesOnePair(x: string)
    requires IsStripped(x)
    ensures StripQuotes("\"" + ("\"" + x + "\"") + "\"") == "\"" + x + "\""
  {
    var inner := "\"" + x + "\"";
    assert IsStripped(inner);
    assert "\"" + inner + "\"" == [] + ['"'] + inner + ['"'] + [];
    StripQuotesRoundTrip(inner, '"', [], []);
    StripWord(inner);
  }
}
