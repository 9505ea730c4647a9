# Ai-Proofreader-Bot: the input-interpretation core in Dafny

The Telegram bot in `bot.py` corrects text, translates it and evaluates arithmetic.
It does all three through the OpenRouter chat API, except the arithmetic, which it
computes locally. This project models the part of the bot that decides what a
message means before any network call is made, and proves properties of that model:

- **Text** (`text.dfy`): the Python `str` behaviour the bot relies on: `lower()`,
  `title()`, `strip()` with and without a character set, `startswith`, `find`/`rfind`,
  and `split(maxsplit=n)` on whitespace.
- **Percentages** (`percentages.dfy`): the clean-up `_safe_eval` does before parsing.
  Commas become periods, then `_preprocess_percentages` rewrites every `N%` that is not
  preceded by `[A-Za-z_]` to `(N/100)`. The `re.sub` is modelled as the left-to-right
  scan of the regex engine.
- **Evaluator** (`evaluator.dfy`): `_safe_eval` and its allow-list walker `eval_node`
  over a datatype of Python expression trees. `ast.parse` is a parameter.
- **TranslateQuery** (`translate_query.dfy`): `parse_inline_translate_query`. It reads a
  free-form inline query as a translation request through five rules tried in order:
  an alias prefix, `->`, ` to:`, ` to `, and `lang:`.
- **Language** (`language.dfy`): `normalize_language_name`, which maps a language alias
  to its canonical name through a 14-language table, and `_strip_quotes`.
- **Router** (`router.dfy`): what `inline_handler` does with a query. It chooses between
  suggestion cards, the calculator, translation and correction. This module also holds
  the "translate the correction, else the raw text" retry, how a correction is shown,
  and the argument handling of `/translate` and `/calc`.
- **Wrappers** (`wrappers.dfy`): `Option` and `Result`.

The model is pure: the source keeps no state between messages, so every operation is
a function over values. The correction and translation services are not modelled.
Their answers are parameters of type `Option<string>`, where `None` stands for a failed
call, and `Some("")` is as false as `None`, as in Python.

Two behaviours of the code are worth noting.
A language argument made only of whitespace normalizes to `""`, the title case of
nothing, not to English. A translation alias followed by a single language-like token
is not a request: the inline handler then falls through to correction.

## Model

| member | source | states |
|---|---|---|
| Text.Lower | bot.py:384 | `lower()` keeps the length and lowercases character by character |
| Text.LowerPrefix | bot.py:290 | lowercasing keeps a common prefix, so a `startswith` test survives it |
| Text.TitleIdempotent | bot.py:169 | `title()` applied twice is `title()` applied once |
| Text.TitleWord | bot.py:169 | a cased letter followed by lowercase letters only gets its first letter capitalised |
| Text.Title | bot.py:169 | `title()` changes only letter case: the length, the lowercase form and the whitespace stay; `TitleAt` gives every character of the result |
| Text.TitleAfterAt | bot.py:169 | within the scan, each character is lower-cased when the one before it (or the flag carried in, at the start) is cased, and upper-cased otherwise |
| Text.TitleAt | bot.py:169 | every character of `title()` is lower-cased when the character before it is cased and upper-cased otherwise, the first one included |
| Text.StripChars | bot.py:322 | `strip(chars)` leaves no chosen character at either end and is empty exactly when every character is a chosen one |
| Text.Strip | bot.py:347 | `strip()` leaves no whitespace at either end and is empty exactly when the input is all whitespace |
| Text.StripIs | bot.py:347 | any whitespace around a stripped core is removed, giving exactly that core |
| Text.StripIdempotent | bot.py:286 | stripping twice is stripping once |
| Text.LastIndexOf | bot.py:313 | `rfind` returns an occurrence with no occurrence after it, or nothing when there is none |
| Text.LastIndexIs | bot.py:320 | an occurrence followed by no other occurrence is what `rfind` returns |
| Text.IndexOf | bot.py:334 | `find` returns the first occurrence of a character, or nothing |
| Text.Split | bot.py:386 | `split(maxsplit=n)` gives at most n+1 parts, and none exactly when the input is all whitespace |
| Text.SplitStartsWords | bot.py:291 | no part of `split` is empty or starts with whitespace |
| Text.SplitWords | bot.py:291 | every part but the last unsplit remainder is a whitespace-free word |
| Text.SplitOneWord | bot.py:387 | a single word splits into itself |
| Text.SplitWordRest | bot.py:386 | `split(maxsplit=1)` gives the first word and the rest from the next non-whitespace character on |
| Text.SplitWordGapRest | bot.py:386 | a word, whitespace and a remainder split with `maxsplit=1` into the word and the remainder as written |
| Text.SplitWordWord | bot.py:530 | two words split with `maxsplit=2` into those two words |
| Text.SplitWordWordRest | bot.py:530 | two words and a remainder split with `maxsplit=2` into the two words and the remainder as written |
| Percentages.ReplaceCommas | bot.py:277 | `replace(",", ".")` keeps the length, turns every comma into a period and changes nothing else |
| Percentages.LiteralAt | bot.py:244 | a match found at the scan position is a numeral directly followed by `%`, and is never found after a letter or `_` |
| Percentages.LiteralAtComplete | bot.py:244 | whenever an integer or decimal numeral followed by `%` starts the text and the lookbehind allows it, the match is found |
| Percentages.BlockedLiteral | bot.py:244 | the negative lookbehind suppresses any match after a letter or `_` |
| Percentages.RewriteAfter | bot.py:244 | the scan `re.sub` performs; `RewriteWithoutPercent`, `RewriteAtSeparator` and `RewriteNoComma` state what it produces |
| Percentages.PreprocessPercentages | bot.py:236-244 | `_preprocess_percentages`; `PercentLiteral`, `PreprocessWithoutPercent` and the examples state its result |
| Percentages.RewriteWithoutPercent | bot.py:236-244 | text with no `%` is left unchanged, whatever the preceding character |
| Percentages.PreprocessWithoutPercent | bot.py:236-244 | `_preprocess_percentages` is the identity on text without `%` |
| Percentages.PercentLiteral | bot.py:236-244 | a numeral followed by `%` becomes `(numeral/100)` |
| Percentages.LiteralBeforeSeparator | bot.py:244 | a match cannot run past an operator, bracket or space |
| Percentages.RewriteAtSeparator | bot.py:236-244 | the rewrite is compositional at operators: each side is rewritten on its own |
| Percentages.RewriteNoComma | bot.py:236-244 | the rewrite brings in no comma |
| Percentages.Clean | bot.py:277 | what `_safe_eval` hands to the parser; `CleanHasNoComma`, `CleanWithoutPercent` and `ExampleDecimalComma` state its result |
| Percentages.CleanHasNoComma | bot.py:277 | no comma reaches the parser |
| Percentages.CleanWithoutPercent | bot.py:277 | without a `%`, cleaning only turns commas into periods |
| Percentages.ExampleParenthesised | bot.py:374 | the bot's own example `(10+5)*2%` becomes `(10+5)*(2/100)` |
| Percentages.ExampleLookbehind | bot.py:244 | the lookbehind checks one character, so `a12%` becomes `a1(2/100)` |
| Percentages.ExampleDecimalComma | bot.py:277-278 | `7,5%` is cleaned to `(7.5/100)`, because commas are replaced first |
| Evaluator.EvalNode | bot.py:262-275 | a tree evaluates exactly when every node is on the allow-list and no divisor evaluates to zero, and the result is its arithmetic value |
| Evaluator.EvalNodeErrors | bot.py:262-275 | an allowed tree fails only by division by zero; a tree with a forbidden node always fails |
| Evaluator.RejectedAtRoot | bot.py:275 | names, calls and every other node kind raise `Unsupported expression` at once |
| Evaluator.ComplexIsNotReal | bot.py:263-264 | a complex literal passes the `ast.Num` test but `float()` rejects it |
| Evaluator.BoolConstant | bot.py:273-274 | a bool constant is an int, so `True` is 1 and `False` is 0 |
| Evaluator.DivisionByZeroIsError | bot.py:253-270 | dividing by an operand whose value is zero is an error, however the zero is written |
| Evaluator.ExampleSuggestion | bot.py:372 | the tree of `(10+5)*(2/100)` evaluates to 0.3, as the calculator card promises |
| Evaluator.SafeEval | bot.py:246-279 | no parse gives a syntax error; otherwise the cleaned text evaluates exactly when its tree is allowed and divides by no zero, to the tree's value |
| TranslateQuery.IsAlias | bot.py:290 | the alias test on the lowercased query; `TransPrefix`, `NotAlias` and `AliasBranch` state what passes it and what it decides |
| TranslateQuery.AliasRequest | bot.py:290-308 | a request from the alias branch has non-empty stripped text and, if any, a non-empty language |
| TranslateQuery.ArrowRequest | bot.py:312-317 | a request from the arrow rule is well formed with stripped text |
| TranslateQuery.ToColonRequest | bot.py:319-324 | a request from the ` to:` rule is well formed with stripped text |
| TranslateQuery.ToRequest | bot.py:325-331 | a request from the ` to ` rule is well formed with stripped text |
| TranslateQuery.ColonRequest | bot.py:333-338 | a request from the `lang:` rule names a language of at most 20 characters |
| TranslateQuery.ParseInlineTranslateQuery | bot.py:281-339 | a blank query gives no request; any request is well formed with stripped text |
| TranslateQuery.AliasTextNeverEmpty | bot.py:303-308 | with three parts the text is never empty, so the `not txt` test cannot fire, and the request is (third part, second part) |
| TranslateQuery.AliasBranch | bot.py:290 | a query with an alias prefix is decided by the alias branch alone |
| TranslateQuery.AliasAlone | bot.py:293-294 | an alias alone is no request |
| TranslateQuery.AliasOneToken | bot.py:295-302 | one token after the alias is no request when it is a known language or at most three characters long; otherwise it is the text, with no language |
| TranslateQuery.AliasThreeParts | bot.py:303-308 | alias, language and text give that text in that language |
| TranslateQuery.ArrowBranch | bot.py:312-317 | when the arrow rule applies and no alias prefix does, it decides the result |
| TranslateQuery.LastArrow | bot.py:313 | the arrow before a language without `->` is the last one |
| TranslateQuery.ArrowSides | bot.py:313-317 | the arrow rule splits at the last `->` and strips both sides |
| TranslateQuery.ArrowRoundTrip | bot.py:312-317 | `text -> lang`, with any whitespace around the arrow, parses back to (text, lang) |
| TranslateQuery.ToColonSplit | bot.py:319-324 | the ` to:` rule splits at the last ` to:` in any letter case and strips the language of spaces and colons |
| TranslateQuery.ToColonRoundTrip | bot.py:319-324 | `text to: lang` parses back to text and the language with surrounding spaces and colons removed |
| TranslateQuery.ToColonBranch | bot.py:319-324 | when the ` to:` rule applies and no earlier rule does, it decides the result |
| TranslateQuery.ToSplit | bot.py:325-331 | the ` to ` rule splits at the last ` to ` in any letter case |
| TranslateQuery.ToRoundTrip | bot.py:325-331 | `text to lang` parses back to (text, lang) |
| TranslateQuery.ToBranch | bot.py:325-331 | when the ` to ` rule applies and no earlier rule does, it decides the result |
| TranslateQuery.ColonSplit | bot.py:333-338 | the `lang:` rule splits at the first colon and strips both sides |
| TranslateQuery.ColonRoundTrip | bot.py:333-338 | `lang:text`, with a language of at most 20 characters, parses back to (text, lang) |
| TranslateQuery.ColonTooLong | bot.py:337 | a language longer than 20 characters before the colon gives no request |
| TranslateQuery.ColonBranch | bot.py:333-338 | when no earlier rule applies, the colon rule decides the result |
| TranslateQuery.NoPatternNone | bot.py:339 | a query that fits no rule gives no request |
| TranslateQuery.ArrowAtEnd | bot.py:316 | an arrow with nothing after it leaves no language, so the arrow rule does not apply |
| TranslateQuery.ArrowFallsThrough | bot.py:312-331 | `text to word ->` falls through the arrow rule to the ` to ` rule, which keeps `word ->` as the language |
| TranslateQuery.NoColonNoToColon | bot.py:319 | a query without a colon has no ` to:` in any letter case |
| TranslateQuery.NoSpaceNoTo | bot.py:326 | a language without spaces holds no ` to ` in any letter case |
| TranslateQuery.PlainToQuery | bot.py:290-319 | a query that starts with no alias letter and has no hyphen or colon skips the alias, arrow and ` to:` rules |
| TranslateQuery.TransPrefix | bot.py:290 | `trans` in any letter case followed by a space is an alias prefix |
| TranslateQuery.NotAlias | bot.py:290 | every alias starts with `/`, `t` or `b` |
| TranslateQuery.ExampleBareAlias | bot.py:299-300 | `trans en` is no request |
| TranslateQuery.ExampleAliasLangText | bot.py:303-308 | `trans en Hello` translates `Hello` into `en` |
| TranslateQuery.ExampleArrow | bot.py:312-317 | `Hello -> Russian` |
| TranslateQuery.ExampleTo | bot.py:325-331 | `Hello to Russian` |
| TranslateQuery.ExampleArrowFallsThrough | bot.py:312-331 | `a to b ->` asks for `a` in the language `b ->` |
| Language.AliasGroupWellFormed | bot.py:139-168 | every canonical name and every alias of the table is non-empty |
| Language.AliasesUnique | bot.py:139-168 | no alias is listed under two languages |
| Language.LookupFrom | bot.py:169 | the search finds a language listing the key exactly when one does |
| Language.LookupFromFinds | bot.py:169 | the search stops at the first language that lists the key |
| Language.LookupFindsOwnLanguage | bot.py:139-169 | the first-match search agrees with a dictionary lookup: every alias is found under its own language |
| Language.LookupAlias | bot.py:169 | `mapping.get` gives nothing for an unlisted key and the listing language's name otherwise |
| Language.LanguageNamesCanonical | bot.py:139-168 | every canonical name is found again under its own lowercase spelling |
| Language.NormalizeLanguageName | bot.py:131-169 | nothing given gives English; any spelling of an alias of the table gives that alias's language; anything else is no longer than the input |
| Language.NormalizeAlias | bot.py:138-169 | an input that strips and lowercases to an alias gives that alias's language |
| Language.NormalizeUnlisted | bot.py:169 | an input that is no alias is stripped and title-cased |
| Language.NormalizeEmpty | bot.py:136-169 | `None` and `""` give English; the result is empty exactly for a non-empty all-whitespace input |
| Language.NormalizeMiss | bot.py:169 | off the table, the result is empty exactly when the input is all whitespace |
| Language.CanonicalFixed | bot.py:138-169 | a canonical name normalizes to itself |
| Language.TitledFixed | bot.py:169 | a title-cased name off the table normalizes to itself |
| Language.NormalizeIdempotent | bot.py:131-169 | normalizing a normalized name changes nothing |
| Language.NormalizeSpelling | bot.py:138-169 | whitespace and letter case around an alias do not matter |
| Language.ExampleDefault | bot.py:136-137 | `None` and `""` give English |
| Language.ExamplePaddedCode | bot.py:138-169 | `"  RU "` is Russian |
| Language.ExampleCyrillicName | bot.py:138-169 | `"Русский"` is Russian |
| Language.StripQuotes | bot.py:171-177 | the result is stripped and no longer than the input; an unquoted input is only stripped, and a lone quote leaves the empty text; `StripQuotesRoundTrip` gives the result for any other quoted input |
| Language.StripQuotesLoneQuote | bot.py:175-176 | a single quote character with only whitespace around it becomes the empty text |
| Language.ExampleLoneQuote | bot.py:175-176 | `"` on its own becomes the empty text |
| Language.StripQuotesRoundTrip | bot.py:171-177 | one pair of matching quotes around any text, with any whitespace outside, is removed, and the text inside is stripped |
| Language.ExamplePaddedQuotes | bot.py:175-176 | whitespace inside the quotes is stripped too: `" hi "` becomes `hi` |
| Language.StripQuotesOnePair | bot.py:175-176 | only one pair of quotes is removed |
| Router.Dispatch | bot.py:383-455 | a non-blank query reaches the calculator exactly when it has a calculator prefix; a calculator expression is stripped and non-empty; a translation is well formed; a correction keeps the query |
| Router.Route | bot.py:347-455 | the suggestion cards are shown exactly for a blank query; a correction is of the stripped query |
| Router.SplitRestStripped | bot.py:386-400 | the expression after the calculator word is stripped |
| Router.CalcTakesRest | bot.py:385-400 | a calculator prefix, whitespace and an expression send exactly that expression to the calculator, before any translation rule |
| Router.CalcAlone | bot.py:385-399 | a calculator prefix alone shows the calculator card |
| Router.TranslateAlone | bot.py:417-430 | a translation prefix alone shows the translation card |
| Router.TranslateOrCorrect | bot.py:432-455 | past the prefix tests a parsed request is translated and anything else is corrected as written |
| Router.IsCalcPrefix | bot.py:385 | the calculator test, a prefix test with no word boundary; `CalcPrefixExtends`, `NotCalc` and `CalciumIsCalculated` state what passes it |
| Router.IsTranslatePrefix | bot.py:417 | the translation-hint test, a prefix test with no following space; `AliasIsTranslatePrefix` relates it to the parser's alias test |
| Router.AliasIsTranslatePrefix | bot.py:290-417 | every alias the inline parser accepts also passes the translation-hint test |
| Router.CalcPrefixExtends | bot.py:385 | a calculator prefix stays one when more text follows |
| Router.NotCalc | bot.py:385 | every calculator prefix starts with `/` or `c` |
| Router.ExampleTranslateHint | bot.py:417-430 | `trans` alone shows the translation card |
| Router.BareAliasCorrected | bot.py:299-455 | an alias followed by a language-like token alone is corrected, not translated |
| Router.ExampleBareAliasCorrected | bot.py:299-455 | `trans en` is corrected as written |
| Router.CalciumIsCalculated | bot.py:385 | as written, `calcium levels` is sent to the calculator with `levels` |
| Router.RouteByWord | bot.py:385 | with the calculator test on the first word, the suggestion cards are still shown exactly for a blank query |
| Router.CalcWordTakesRest | bot.py:385-400 | with the word test, a head word reaches the calculator exactly when it is `/calc`, `calc` or `calculate` |
| Router.CalciumIsNotCalculated | bot.py:385 | with the word test, `calcium levels` is not sent to the calculator |
| Router.TranslationRequests | bot.py:436-440 | the first translation is of the correction if there is one, otherwise of the text; a second translation (here and, identically, in `/translate` at bot.py:543-547) of the raw text happens exactly when the first failed and a correction existed |
| Router.Translated | bot.py:436-441 | a translation is obtained exactly when the first one succeeds, or a correction existed and the retry succeeds; the first success is kept |
| Router.NoCorrectionNoRetry | bot.py:439-440 | a failed or empty correction never causes a second request |
| Router.TranslationReply | bot.py:548-551 | `/translate` always replies something: the translation, or the apology |
| Router.ShowCorrection | bot.py:457-478 | a correction is shown exactly when it is non-empty and differs from the query; otherwise the query is echoed |
| Router.TranslateCommandArgs | bot.py:529-540 | a message of no words is the `IndexError` case; the text starts a word and a language is a word |
| Router.TranslateCommandAlone | bot.py:531-533 | the command alone gives the usage hint |
| Router.TranslateCommandText | bot.py:534-537 | one word after the command is the text, with no language |
| Router.TranslateCommandLangText | bot.py:538-540 | the first word after the command is the language and the rest, as written, the text |
| Router.CalcExpression | bot.py:559-560 | the expression is stripped; `CalcCommandEvaluates` and `CalcCommandEmpty` give it for `/calc` followed by an expression or by nothing |
| Router.CalcCommand | bot.py:559-569 | `/calc` replies `0` exactly when there is no expression or evaluating it fails, and otherwise the value |
| Router.CalcCommandEvaluates | bot.py:559-566 | `/calc`, whitespace and an expression evaluate that expression as written |
| Router.CalcCommandEmpty | bot.py:561-563 | `/calc` alone or followed by whitespace replies `0` |

## Left out

- Network services: `correct_text` and `translate_text` call the OpenRouter API. Their results are `Option<string>` parameters. The prompts, headers, timeouts and error handling around the calls are not modelled.
- Telegram I/O: the aiogram handlers, the message and card contents, the card ids and thumbnails, `cache_time`, the `/start` and `/help` texts, and `main`. `Router.Outcome` names which card is shown, not its fields.
- Router.TranslateCommandArgs: aiogram's `Command("translate")` filter only lets messages that start with the command through. The model accepts any text, so its `NoWords` case, the `IndexError` on a blank message, cannot arise in the running bot.
- Router.CalcCommand: the reply is `str(value)` of a Python float. The model returns the real number and does not model float formatting, so `0.0` and the error fallback `0` differ only in that formatting.
- Text.Lower: case mapping covers ASCII letters and the basic Cyrillic block U+0400–U+045F only. Python's `lower()`/`title()` map all of Unicode, and some characters change length, for example `İ`. Here every mapping keeps the length.
- Text.IsSpace: whitespace is the ten ASCII characters `str.isspace()` accepts. Unicode spaces such as U+00A0 and U+2028 are not whitespace here, though Python's `strip()` and `split()` treat them as such.
- PreprocessPercentages: `\d` is modelled as an ASCII digit. On a `str` pattern Python's `\d` matches every Unicode decimal digit (category Nd), so `٥%` becomes `(٥/100)` in the bot and stays `٥%` here. `ast.parse` rejects non-ASCII digits either way, so the evaluation result is the same.
- Evaluator.SafeEval: `ast.parse(..., mode="eval")` is a parameter `parse` that returns the body of the parsed tree, or `None` for a `SyntaxError`. The grammar, its precedence and its other errors are not modelled.
- Evaluator.EvalNode: numbers are `real`. IEEE floats are not modelled: no rounding, no infinities or NaN, no `OverflowError` from `float()` on a huge int literal, and no divisor that underflows to `0.0`.
- Evaluator.EvalNode: there is no recursion limit. Python's `eval_node` raises `RecursionError` on a tree about 1000 levels deep, so for example a 4096-character `/calc 1+1+…+1` or `----…-1` replies `0`. The model returns the value.
- Evaluator.IsNum: `ast.Num` exists only through Python 3.13. On later versions the `isinstance(node, ast.Num)` test fails with an `AttributeError`, so every expression replies `0`. The model follows Python 3.8–3.13, where complex constants pass the test and fail in `float()`.
- Round trips: the round-trip lemmas of TranslateQuery (`ArrowRoundTrip`, `ToRoundTrip`, `ToColonRoundTrip`, `ColonRoundTrip`) state their preconditions as the facts that keep the earlier rules from applying: no alias prefix, no later `->`, and so on. They are not stated for every possible text.
- Router.Dispatch: the inline calculator's reply (`str(value)` of `_safe_eval`, or an empty answer) is not part of `Outcome`. `Calc(expr)` names the expression, and `Evaluator.SafeEval` gives its value.

## Findings

| source | as written | input that shows it | evidently intended | confidence | as-written member | corrected member |
|---|---|---|---|---|---|---|
| bot.py:385 | the calculator test is `lower.startswith("calc")`, a prefix with no word boundary | `calcium levels`: it is routed to the calculator with expression `levels`, which fails to evaluate, so the user gets an empty answer instead of a correction | the calculator is chosen only when the first word is `/calc`, `calc` or `calculate`, as the help text (`calc <expression>`) describes | not executed | Router.CalciumIsCalculated | Router.CalcWordTakesRest |
