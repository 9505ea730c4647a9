/**
 * What the bot does with a message before it calls any network service:
 * the routing of an inline query (`inline_handler`, bot.py:345-478), the
 * "translate the correction, else the raw text" retry shared by inline
 * translation and `/translate` (bot.py:436-440, 543-547), how a correction is
 * shown (bot.py:455-478), and the argument handling of the `/translate`
 * (bot.py:529-551) and `/calc` (bot.py:559-569) commands.
 *
 * The correction and translation services are not modelled: their answers are
 * parameters of type `Option<string>`, `None` standing for a failed call.
 */
module Router {
  import opened Wrappers
  import opened Text
  import TranslateQuery
  import Evaluator

  /** The card an inline query is answered with, before any service is called. */
  datatype Outcome =
    | Suggestions                                  // a blank query: the three suggestion cards
    | CalcHint                                     // a calculator prefix alone: the calculator card
    | Calc(expr: string)                           // a calculator prefix and an expression to evaluate
    | TranslateHint                                // a translation prefix alone: the translation card
    | Translate(text: string, lang: Option<string>) // a translation request
    | Correct(query: string)                       // anything else: the text to correct

  /** The calculator test of bot.py:385, on the lowercased query: a prefix, not a word. */
  predicate IsCalcPrefix(lower: string) {
    StartsWith(lower, "/calc") || StartsWith(lower, "calc") || StartsWith(lower, "calculate")
  }

  /** The translation test of bot.py:417, on the lowercased query: a prefix, not a word. */
  predicate IsTranslatePrefix(lower: string) {
    || StartsWith(lower, "/translate") || StartsWith(lower, "translate")
    || StartsWith(lower, "trans") || StartsWith(lower, "bkb")
  }

  /**
   * The routing of the stripped, non-blank `query` once the calculator test has
   * been decided (`calculator`): the calculator reads the rest after the first run of
   * whitespace (bot.py:386-400); a translation prefix with no argument shows the
   * translation card (bot.py:417-430); then the query is read as a translation
   * request (bot.py:432-434), and otherwise it is corrected (bot.py:455).
   */
  function Dispatch(query: string, calculator: bool): (o: Outcome)
    requires query != [] && IsStripped(query)
    ensures o != Suggestions
    ensures calculator <==> o.CalcHint? || o.Calc?
    ensures o.Calc? ==> StartsWord(o.expr) && IsStripped(o.expr)
    ensures o.Translate? ==> TranslateQuery.WellFormed(TranslateQuery.Request(o.text, o.lang))
    ensures o.Correct? ==> o.query == query
  {
    var parts := Split(query, 1);
    SplitStartsWords(query, 1);
    if calculator then
      if |parts| == 1 then CalcHint
      else
        SplitRestStripped(query);
        Calc(parts[1])
    else if IsTranslatePrefix(Lower(query)) && |parts| == 1 then TranslateHint
    else match TranslateQuery.ParseInlineTranslateQuery(query)
      case Some(r) => Translate(r.text, r.lang)
      case None => Correct(query)
  }

  /** `inline_handler(inline_query)` up to the first service call. */
  function Route(raw: string): (o: Outcome)
    ensures o == Suggestions <==> AllIn(raw, Whitespace)
    ensures o.Correct? ==> o.query == Strip(raw)
  {
    var query := Strip(raw);
    if query == [] then Suggestions
    else Dispatch(query, IsCalcPrefix(Lower(query)))
  }

  /** The last part `split(maxsplit=1)` gives of a stripped string is stripped too. */
  lemma SplitRestStripped(query: string)
    requires query != [] && IsStripped(query) && |Split(query, 1)| == 2
    ensures IsStripped(Split(query, 1)[1])
  {
    SplitStartsWords(query, 1);
    SplitRestEnds(query);
  }

  // ---------------------------------------------------------------- routing

  /**
   * A calculator prefix wins over everything after it: a query whose first word
   * starts with `/calc`, `calc` or `calculate` in any letter case, followed by
   * whitespace and an expression, evaluates that expression, even when the
   * expression would read as a translation request.
   */
  lemma CalcTakesRest(head: string, gap: string, expr: string)
    requires IsWord(head) && IsCalcPrefix(Lower(head))
    requires gap != [] && AllIn(gap, Whitespace)
    requires StartsWord(expr) && IsStripped(expr)
    ensures Route(head + gap + expr) == Calc(expr)
  {
    var q := head + gap + expr;
    assert IsStripped(q) by {
      assert q[0] == head[0] && q[|q| - 1] == expr[|expr| - 1];
    }
    StripWord(q);
    CalcPrefixExtends(q, head);
    SplitWordGapRest(head, gap, expr);
  }

  /** A calculator prefix with nothing after it shows the calculator card. */
  lemma CalcAlone(word: string)
    requires IsWord(word) && IsCalcPrefix(Lower(word))
    ensures Route(word) == CalcHint
  {
    assert IsStripped(word);
    StripWord(word);
    SplitOneWord(word, 1);
  }

  /**
   * A word starting with a translation prefix (and no calculator prefix) shows
   * the translation card, whatever the rest of the word is.
   */
  lemma TranslateAlone(word: string)
    requires IsWord(word) && IsTranslatePrefix(Lower(word)) && !IsCalcPrefix(Lower(word))
    ensures Route(word) == TranslateHint
  {
    assert IsStripped(word);
    StripWord(word);
    SplitOneWord(word, 1);
  }

  /**
   * A query past the calculator and translation-card tests is a translation
   * request exactly when `parse_inline_translate_query` reads one, and is
   * corrected otherwise.
   */
  lemma TranslateOrCorrect(q: string)
    requires q != [] && IsStripped(q) && !IsCalcPrefix(Lower(q))
    requires !IsTranslatePrefix(Lower(q)) || |Split(q, 1)| == 2
    ensures TranslateQuery.ParseInlineTranslateQuery(q).Some? ==>
      var r := TranslateQuery.ParseInlineTranslateQuery(q).value;
      Route(q) == Translate(r.text, r.lang)
    ensures TranslateQuery.ParseInlineTranslateQuery(q).None? ==> Route(q) == Correct(q)
  {
    StripWord(q);
  }

  /** The calculator prefixes still hold once more text follows them. */
  lemma CalcPrefixExtends(q: string, head: string)
    requires StartsWith(q, head) && IsCalcPrefix(Lower(head))
    ensures IsCalcPrefix(Lower(q))
  {
    LowerPrefix(q, head);
    var lq, lh := Lower(q), Lower(head);
    if StartsWith(lh, "/calc") {
      StartsWithTransitive(lq, lh, "/calc");
    } else if StartsWith(lh, "calc") {
      StartsWithTransitive(lq, lh, "calc");
    } else {
      StartsWithTransitive(lq, lh, "calculate");
    }
  }

  /** Every calculator prefix starts with `/` or `c`. */
  lemma NotCalc(lower: string)
    requires lower != [] && lower[0] != '/' && lower[0] != 'c'
    ensures !IsCalcPrefix(lower)
  {
  }

  /**
   * Every alias prefix the inline parser accepts also passes the looser
   * translation test, whose prefixes need no following space.
   */
  lemma AliasIsTranslatePrefix(lower: string)
    requires TranslateQuery.IsAlias(lower)
    ensures IsTranslatePrefix(lower)
  {
    if StartsWith(lower, "translate ") {
      StartsWithAppend("translate", " ");
      StartsWithTransitive(lower, "translate" + " ", "translate");
    } else if StartsWith(lower, "trans ") {
      StartsWithAppend("trans", " ");
      StartsWithTransitive(lower, "trans" + " ", "trans");
    } else if StartsWith(lower, "bkb ") {
      StartsWithAppend("bkb", " ");
      StartsWithTransitive(lower, "bkb" + " ", "bkb");
    }
  }

  /** `trans` alone shows the translation card. */
  lemma ExampleTranslateHint()
    ensures Route("trans") == TranslateHint
  {
    var word := "trans";
    TranslateQuery.LetterWordPlain(word);
    LowerIs(word, word);
    assert word[0] == 't' && word[..5] == word;
    NotCalc(word);
    TranslateAlone(word);
  }

  /**
   * An alias followed by a language name or a short token alone passes the
   * translation-card test (it has an argument) but reads as no request, so the
   * query is corrected as written.
   */
  lemma BareAliasCorrected(alias: string, gap: string, token: string)
    requires IsWord(alias) && IsWord(token) && gap != [] && AllIn(gap, Whitespace)
    requires TranslateQuery.IsAlias(Lower(alias + gap + token)) && !IsCalcPrefix(Lower(alias + gap + token))
    requires Lower(token) in TranslateQuery.KnownLanguageTokens || |token| <= 3
    ensures Route(alias + gap + token) == Correct(alias + gap + token)
  {
    var q := alias + gap + token;
    TranslateQuery.AliasOneToken(alias, gap, token);
    SplitWordGapRest(alias, gap, token);
    assert IsStripped(q) by {
      assert q[0] == alias[0] && q[|q| - 1] == token[|token| - 1];
    }
    TranslateOrCorrect(q);
  }

  /** `trans en` is corrected as written. */
  lemma ExampleBareAliasCorrected()
    ensures Route("trans" + " " + "en") == Correct("trans" + " " + "en")
  {
    var alias, gap, token := "trans", " ", "en";
    var q := alias + gap + token;
    TranslateQuery.LetterWordPlain(alias);
    TranslateQuery.LetterWordPlain(token);
    LowerIs(alias, alias);
    assert AllIn(gap, Whitespace);
    StartsWithAppend(alias + gap, token);
    TranslateQuery.TransPrefix(alias, q);
    assert Lower(q)[0] == LowerChar(alias[0]) == 't';
    NotCalc(Lower(q));
    BareAliasCorrected(alias, gap, token);
  }

  // ---------------------------------------------------------------- the calculator word

  /**
   * The calculator test looks at a prefix, not at the first word, so any text
   * starting with `calc` goes to the calculator: `calcium levels` is read as the
   * expression `levels`, which does not evaluate, and the user gets no card at
   * all instead of a correction.
   */
  lemma CalciumIsCalculated()
    ensures Route("calcium" + " " + "levels") == Calc("levels")
  {
    CalciumLevels();
    CalcTakesRest("calcium", " ", "levels");
  }

  /** The words that name the calculator, in lower case. */
  const CalcWords: set<string> := {"/calc", "calc", "calculate"}

  /** The calculator test on the first word of the stripped, non-blank query. */
  predicate IsCalcWord(query: string)
    requires query != [] && IsStripped(query)
  {
    var parts := Split(query, 1);
    |parts| >= 1 && Lower(parts[0]) in CalcWords
  }

  /** `Route` with the calculator test on the first word, as the bot's help text describes it. */
  function RouteByWord(raw: string): (o: Outcome)
    ensures o == Suggestions <==> AllIn(raw, Whitespace)
  {
    var query := Strip(raw);
    if query == [] then Suggestions
    else Dispatch(query, IsCalcWord(query))
  }

  /**
   * With the word test, a word and an expression reach the calculator exactly
   * when the word is `/calc`, `calc` or `calculate` in any letter case.
   */
  lemma CalcWordTakesRest(head: string, gap: string, expr: string)
    requires IsWord(head) && gap != [] && AllIn(gap, Whitespace)
    requires StartsWord(expr) && IsStripped(expr)
    ensures Lower(head) in CalcWords ==> RouteByWord(head + gap + expr) == Calc(expr)
    ensures Lower(head) !in CalcWords ==> !RouteByWord(head + gap + expr).Calc? && !RouteByWord(head + gap + expr).CalcHint?
  {
    var q := head + gap + expr;
    assert IsStripped(q) by {
      assert q[0] == head[0] && q[|q| - 1] == expr[|expr| - 1];
    }
    StripWord(q);
    SplitWordGapRest(head, gap, expr);
  }

  /** The words of `calcium levels`: `calcium` starts with `calc` but is no calculator word. */
  lemma CalciumLevels()
    ensures IsWord("calcium") && IsCalcPrefix(Lower("calcium")) && Lower("calcium") !in CalcWords
    ensures AllIn(" ", Whitespace) && StartsWord("levels") && IsStripped("levels")
  {
    CalciumWord();
    CalciumPrefix();
    TranslateQuery.LetterWordPlain("levels");
  }

  lemma CalciumWord()
    ensures IsWord("calcium") && Lower("calcium") == "calcium"
  {
    var head := "calcium";
    TranslateQuery.LetterWordPlain(head);
    LowerIs(head, head);
  }

  lemma CalciumPrefix()
    ensures StartsWith("calcium", "calc") && "calcium" !in CalcWords
  {
    var head := "calcium";
    assert head[0] == 'c' && head[1] == 'a' && head[2] == 'l' && head[3] == 'c';
    assert head[..4] == "calc";
  }

  /** With the word test, `calcium levels` is not sent to the calculator. */
  lemma CalciumIsNotCalculated()
    ensures !RouteByWord("calcium" + " " + "levels").Calc?
  {
    CalciumLevels();
    CalcWordTakesRest("calcium", " ", "levels");
  }

  // ---------------------------------------------------------------- translation and retry

  /** Python's truth value of an optional string: `None` and `""` are both false. */
  predicate Truthy(s: Option<string>) {
    s.Some? && s.value != []
  }

  /**
   * The texts handed to `translate_text`, in order (bot.py:436-440, 543-547):
   * the correction when it is truthy, else the text itself; and, when that
   * first translation is not truthy but the correction was, the text once more.
   */
  function TranslationRequests(text: string, corrected: Option<string>, first: Option<string>): (calls: seq<string>)
    ensures 1 <= |calls| <= 2
    ensures calls[0] == (if Truthy(corrected) then corrected.value else text)
    ensures |calls| == 2 <==> !Truthy(first) && Truthy(corrected)
    ensures |calls| == 2 ==> calls[1] == text
  {
    var source := if Truthy(corrected) then corrected.value else text;
    if !Truthy(first) && Truthy(corrected) then [source, text] else [source]
  }

  /**
   * The translation the bot ends up with: `first` answers the first request
   * and `retry` the second, which is made only when `TranslationRequests` says so.
   */
  function Translated(corrected: Option<string>, first: Option<string>, retry: Option<string>): (r: Option<string>)
    ensures Truthy(r) <==> Truthy(first) || (Truthy(corrected) && Truthy(retry))
    ensures Truthy(first) ==> r == first
    ensures r == first || r == retry
  {
    if !Truthy(first) && Truthy(corrected) then retry else first
  }

  /** A failed or empty correction never causes a second translation request. */
  lemma NoCorrectionNoRetry(text: string, first: Option<string>, retry: Option<string>)
    ensures TranslationRequests(text, None, first) == [text]
    ensures TranslationRequests(text, Some([]), first) == [text]
    ensures Translated(None, first, retry) == first && Translated(Some([]), first, retry) == first
  {
  }

  /** The reply of `/translate` (bot.py:548-551): the translation, or an apology. */
  function TranslationReply(translated: Option<string>): (reply: string)
    ensures reply != []
    ensures Truthy(translated) ==> reply == translated.value
  {
    if Truthy(translated) then translated.value else "Translation failed. Try again later."
  }

  // ---------------------------------------------------------------- correction card

  /** The card of a correction (bot.py:457-478): the corrected text, or the query unchanged. */
  datatype CorrectionCard = Corrected(text: string) | NoCorrections(query: string)

  function ShowCorrection(query: string, corrected: Option<string>): (card: CorrectionCard)
    ensures card.Corrected? <==> Truthy(corrected) && corrected.value != query
    ensures card.Corrected? ==> card.text == corrected.value && card.text != [] && card.text != query
    ensures card.NoCorrections? ==> card.query == query
  {
    if Truthy(corrected) && corrected.value != query then Corrected(corrected.value) else NoCorrections(query)
  }

  // ---------------------------------------------------------------- commands

  /**
   * What `/translate` makes of its message (bot.py:529-540): a usage hint for
   * the command alone, the rest as text with no language for one argument, or
   * a language and the rest as text. A message with no words at all makes
   * `parts[1]` raise `IndexError`: `NoWords`.
   */
  datatype TranslateArgs = Usage | Args(text: string, lang: Option<string>) | NoWords

  /** `message.text or ""`: a missing text reads as empty. */
  function MessageText(message: Option<string>): (text: string)
    ensures message.Some? ==> text == message.value
    ensures message.None? ==> text == []
  {
    if message.Some? then message.value else []
  }

  function TranslateCommandArgs(message: Option<string>): (args: TranslateArgs)
    ensures args == NoWords <==> AllIn(MessageText(message), Whitespace)
    ensures args.Args? ==> StartsWord(args.text)
    ensures args.Args? && args.lang.Some? ==> IsWord(args.lang.value)
  {
    var parts := Split(MessageText(message), 2);
    SplitStartsWords(MessageText(message), 2);
    SplitWords(MessageText(message), 2);
    if |parts| == 1 then Usage
    else if |parts| == 2 then Args(parts[1], None)
    else if |parts| == 3 then Args(parts[2], Some(parts[1]))
    else NoWords
  }

  /** `/translate` alone gives the usage hint. */
  lemma TranslateCommandAlone(command: string)
    requires IsWord(command)
    ensures TranslateCommandArgs(Some(command)) == Usage
  {
    SplitOneWord(command, 2);
  }

  /** `/translate text`: one word after the command is the text, in the default language. */
  lemma TranslateCommandText(command: string, gap: string, text: string)
    requires IsWord(command) && IsWord(text) && gap != [] && AllIn(gap, Whitespace)
    ensures TranslateCommandArgs(Some(command + gap + text)) == Args(text, None)
  {
    SplitWordWord(command, gap, text);
  }

  /** `/translate lang text...`: the first word is the language and the rest, as written, the text. */
  lemma TranslateCommandLangText(command: string, gap1: string, lang: string, gap2: string, text: string)
    requires IsWord(command) && IsWord(lang) && StartsWord(text)
    requires gap1 != [] && AllIn(gap1, Whitespace) && gap2 != [] && AllIn(gap2, Whitespace)
    ensures TranslateCommandArgs(Some(command + gap1 + lang + gap2 + text)) == Args(text, Some(lang))
  {
    SplitWordWordRest(command, gap1, lang, gap2, text);
  }

  /**
   * The reply of `/calc` (bot.py:559-569): the value of the expression, or the
   * fallback `0` when there is no expression or evaluating it raises.
   */
  datatype CalcReply = Number(value: real) | Zero

  /** The expression `/calc` evaluates: what follows the first five characters, stripped (bot.py:560). */
  function CalcExpression(message: Option<string>): (expr: string)
    ensures IsStripped(expr)
  {
    var text := MessageText(message);
    Strip(if |text| <= 5 then [] else text[5..])
  }

  function CalcCommand(message: Option<string>, parse: string -> Option<Evaluator.Node>): (reply: CalcReply)
    ensures reply == Zero <==>
      CalcExpression(message) == [] || Evaluator.SafeEval(CalcExpression(message), parse).Failure?
    ensures reply.Number? ==> Evaluator.SafeEval(CalcExpression(message), parse) == Success(reply.value)
  {
    var expr := CalcExpression(message);
    if expr == [] then Zero
    else match Evaluator.SafeEval(expr, parse)
      case Success(v) => Number(v)
      case Failure(_) => Zero
  }

  /** `/calc`, then whitespace and an expression: the expression is evaluated as written. */
  lemma CalcCommandEvaluates(gap: string, expr: string, parse: string -> Option<Evaluator.Node>)
    requires AllIn(gap, Whitespace) && expr != [] && IsStripped(expr)
    ensures CalcExpression(Some("/calc" + gap + expr)) == expr
    ensures CalcCommand(Some("/calc" + gap + expr), parse) ==
      match Evaluator.SafeEval(expr, parse)
      case Success(v) => Number(v)
      case Failure(_) => Zero
  {
    var text := "/calc" + gap + expr;
    assert text[5..] == gap + expr;
    StripIs(gap + expr, gap, expr, []);
  }

  /** `/calc` alone, or followed only by whitespace, replies `0`. */
  lemma CalcCommandEmpty(gap: string, parse: string -> Option<Evaluator.Node>)
    requires AllIn(gap, Whitespace)
    ensures CalcCommand(Some("/calc" + gap), parse) == Zero
  {
    var text := "/calc" + gap;
    if |text| > 5 {
      assert text[5..] == gap;
    }
  }
}
