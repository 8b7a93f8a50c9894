/**
 * The language heuristic in `speak`: the first of eight tests on the text
 * that succeeds picks the speech locale, otherwise the configured default
 * ("en-US") is kept. Seven tests look for one character in a range of code
 * points; the Spanish test looks for one of eight two-character sequences.
 *
 * Those eight sequences are what the UTF-8 bytes of ¿ ¡ á é í ó ú ñ look like
 * when read as Windows-1252 ("Â¿", "Ã¡", ...): the test as written fires on
 * text that was itself mis-decoded, not on Spanish. `SelectLocale` models the
 * test as written; `SelectLocaleIntended` tests the characters themselves.
 */
module Locale {
  import opened JsText

  /** `/[\uLO-\uHI]/.test(text)` */
  predicate HasCharIn(text: string, lo: int, hi: int) {
    exists k :: 0 <= k < |text| && lo <= text[k] as int <= hi
  }

  /** The alternatives of the Spanish test, exactly as the source text spells them. */
  const SpanishAsWritten: seq<string> := [
    "\U{C2}\U{BF}", "\U{C2}\U{A1}", "\U{C3}\U{A1}", "\U{C3}\U{A9}",
    "\U{C3}\U{AD}", "\U{C3}\U{B3}", "\U{C3}\U{BA}", "\U{C3}\U{B1}"
  ]

  /** ¿ ¡ á é í ó ú ñ, the characters those sequences stand for. */
  const SpanishIntended: seq<string> := [
    "\U{BF}", "\U{A1}", "\U{E1}", "\U{E9}", "\U{ED}", "\U{F3}", "\U{FA}", "\U{F1}"
  ]

  /** `/a|b|.../.test(text)` */
  predicate HasAnyOf(text: string, alternatives: seq<string>) {
    exists k :: 0 <= k < |alternatives| && Contains(text, alternatives[k])
  }

  /** The locales the rules choose from. */
  const Locales: seq<string> := ["ar-SA", "zh-CN", "ru-RU", "hi-IN", "es-ES", "ja-JP", "th-TH", "ko-KR"]

  /** The heuristic with the Spanish test as written. */
  function SelectLocale(text: string, default: string): string {
    if HasCharIn(text, 0x0600, 0x06FF) then "ar-SA"
    else if HasCharIn(text, 0x4E00, 0x9FFF) then "zh-CN"
    else if HasCharIn(text, 0x0400, 0x04FF) then "ru-RU"
    else if HasCharIn(text, 0x0900, 0x097F) then "hi-IN"
    else if HasAnyOf(text, SpanishAsWritten) then "es-ES"
    else if HasCharIn(text, 0x3040, 0x30FF) then "ja-JP"
    else if HasCharIn(text, 0x0E00, 0x0E7F) then "th-TH"
    else if HasCharIn(text, 0xAC00, 0xD7AF) then "ko-KR"
    else default
  }

  /** The heuristic with the Spanish test on the characters meant. */
  function SelectLocaleIntended(text: string, default: string): string {
    if HasCharIn(text, 0x0600, 0x06FF) then "ar-SA"
    else if HasCharIn(text, 0x4E00, 0x9FFF) then "zh-CN"
    else if HasCharIn(text, 0x0400, 0x04FF) then "ru-RU"
    else if HasCharIn(text, 0x0900, 0x097F) then "hi-IN"
    else if HasAnyOf(text, SpanishIntended) then "es-ES"
    else if HasCharIn(text, 0x3040, 0x30FF) then "ja-JP"
    else if HasCharIn(text, 0x0E00, 0x0E7F) then "th-TH"
    else if HasCharIn(text, 0xAC00, 0xD7AF) then "ko-KR"
    else default
  }

  /** One test of the heuristic and the locale it picks. */
  datatype Rule = CharRange(lo: int, hi: int, lang: string) | AnyOf(alternatives: seq<string>, lang: string)

  predicate Fires(rule: Rule, text: string) {
    match rule
    case CharRange(lo, hi, _) => HasCharIn(text, lo, hi)
    case AnyOf(alts, _) => HasAnyOf(text, alts)
  }

  /** The heuristic as an ordered table, with the Spanish alternatives given. */
  function Rules(spanish: seq<string>): seq<Rule> {
    [ CharRange(0x0600, 0x06FF, "ar-SA"), CharRange(0x4E00, 0x9FFF, "zh-CN"),
      CharRange(0x0400, 0x04FF, "ru-RU"), CharRange(0x0900, 0x097F, "hi-IN"),
      AnyOf(spanish, "es-ES"), CharRange(0x3040, 0x30FF, "ja-JP"),
      CharRange(0x0E00, 0x0E7F, "th-TH"), CharRange(0xAC00, 0xD7AF, "ko-KR") ]
  }

  /** Index of the first rule from `i` on that fires. */
  function FirstFiring(rules: seq<Rule>, text: string, i: nat): (r: Option<nat>)
    ensures r.Some? ==> i <= r.value < |rules| && Fires(rules[r.value], text)
    ensures r.Some? ==> forall j :: i <= j < r.value ==> !Fires(rules[j], text)
    ensures r.None? ==> forall j :: i <= j < |rules| ==> !Fires(rules[j], text)
    decreases |rules| - i
  {
    if i >= |rules| then None
    else if Fires(rules[i], text) then Some(i)
    else FirstFiring(rules, text, i + 1)
  }

  /** The locale of the first rule that fires, or the default. */
  function FirstMatch(rules: seq<Rule>, text: string, default: string): string {
    match FirstFiring(rules, text, 0)
    case Some(i) => rules[i].lang
    case None => default
  }

  /** Either heuristic picks one of the eight locales or keeps the default; Spanish only when a Spanish alternative occurs. */
  lemma ChosenLocale(text: string, default: string)
    ensures SelectLocale(text, default) in Locales || SelectLocale(text, default) == default
    ensures SelectLocaleIntended(text, default) in Locales || SelectLocaleIntended(text, default) == default
    ensures SelectLocale(text, default) == "es-ES" && default != "es-ES" ==> HasAnyOf(text, SpanishAsWritten)
    ensures SelectLocaleIntended(text, default) == "es-ES" && default != "es-ES" ==> HasAnyOf(text, SpanishIntended)
  {
  }

  /** The if-chain is the first-match-wins table, in the order Arabic, CJK, Cyrillic, Devanagari, Spanish, kana, Thai, Hangul. */
  lemma SelectLocaleIsFirstMatch(text: string, default: string)
    ensures SelectLocale(text, default) == FirstMatch(Rules(SpanishAsWritten), text, default)
  {
  }

  /** The corrected chain is the same table with the corrected Spanish alternatives. */
  lemma SelectLocaleIntendedIsFirstMatch(text: string, default: string)
    ensures SelectLocaleIntended(text, default) == FirstMatch(Rules(SpanishIntended), text, default)
  {
  }

  /** Text with an Arabic letter is spoken as Arabic, whatever CJK ideographs it holds too, and in whichever order. */
  lemma ArabicBeforeCjk(text: string, default: string)
    requires HasCharIn(text, 0x0600, 0x06FF) && HasCharIn(text, 0x4E00, 0x9FFF)
    ensures SelectLocale(text, default) == "ar-SA"
    ensures SelectLocaleIntended(text, default) == "ar-SA"
  {
  }

  /** Every Spanish alternative as written starts with U+00C2 or U+00C3. */
  lemma SpanishAsWrittenLead(k: int)
    requires 0 <= k < |SpanishAsWritten|
    ensures |SpanishAsWritten[k]| == 2 && 0xC2 <= SpanishAsWritten[k][0] as int <= 0xC3
  {
  }

  /** Plain ASCII text passes every test and keeps the default. */
  lemma AsciiKeepsDefault(text: string, default: string)
    requires forall k :: 0 <= k < |text| ==> text[k] as int < 0x80
    ensures SelectLocale(text, default) == default
  {
    if HasAnyOf(text, SpanishAsWritten) {
      var k :| 0 <= k < |SpanishAsWritten| && Contains(text, SpanishAsWritten[k]);
      SpanishAsWrittenLead(k);
      ContainsNeedsChar(text, SpanishAsWritten[k], 0);
    }
  }

  /** Every code point of the text is below 0x100. */
  predicate Latin1(text: string) {
    forall k :: 0 <= k < |text| ==> text[k] as int < 0x100
  }

  lemma Latin1PassesRanges(text: string)
    requires Latin1(text)
    ensures !HasCharIn(text, 0x0600, 0x06FF) && !HasCharIn(text, 0x4E00, 0x9FFF)
    ensures !HasCharIn(text, 0x0400, 0x04FF) && !HasCharIn(text, 0x0900, 0x097F)
    ensures !HasCharIn(text, 0x3040, 0x30FF) && !HasCharIn(text, 0x0E00, 0x0E7F)
    ensures !HasCharIn(text, 0xAC00, 0xD7AF)
  {
  }

  /** Latin-1 text is Spanish for the corrected test exactly when it holds one of ¿ ¡ á é í ó ú ñ. */
  lemma IntendedSpanish(text: string, default: string)
    requires Latin1(text) && default != "es-ES"
    ensures SelectLocaleIntended(text, default) == "es-ES" <==> exists k :: 0 <= k < |text| && text[k] in "\U{BF}\U{A1}\U{E1}\U{E9}\U{ED}\U{F3}\U{FA}\U{F1}"
  {
    Latin1PassesRanges(text);
    var marks := "\U{BF}\U{A1}\U{E1}\U{E9}\U{ED}\U{F3}\U{FA}\U{F1}";
    if HasAnyOf(text, SpanishIntended) {
      var k :| 0 <= k < |SpanishIntended| && Contains(text, SpanishIntended[k]);
      ContainsNeedsChar(text, SpanishIntended[k], 0);
      assert marks[k] == SpanishIntended[k][0];
    }
    if exists k :: 0 <= k < |text| && text[k] in marks {
      var k :| 0 <= k < |text| && text[k] in marks;
      var m := IndexOf(marks, text[k]);
      assert SpanishIntended[m] == [text[k]];
      assert OccursAt(text, SpanishIntended[m], k);
    }
  }

  /** "café": the é is the character U+00E9 ... */
  lemma Cafe(text: string)
    requires text == "caf\U{E9}"
    ensures Latin1(text) && text[3] in "\U{BF}\U{A1}\U{E1}\U{E9}\U{ED}\U{F3}\U{FA}\U{F1}"
    ensures forall k :: 0 <= k < |text| ==> text[k] as int != 0xC2 && text[k] as int != 0xC3
  {
  }

  /** ... so the test as written keeps the default ... */
  lemma CafeAsWritten(default: string)
    ensures SelectLocale("caf\U{E9}", default) == default
  {
    var text := "caf\U{E9}";
    Cafe(text);
    Latin1PassesRanges(text);
    if HasAnyOf(text, SpanishAsWritten) {
      var k :| 0 <= k < |SpanishAsWritten| && Contains(text, SpanishAsWritten[k]);
      SpanishAsWrittenLead(k);
      ContainsNeedsChar(text, SpanishAsWritten[k], 0);
    }
  }

  /** ... while the corrected test picks Spanish. */
  lemma CafeIntended(default: string)
    requires default != "es-ES"
    ensures SelectLocaleIntended("caf\U{E9}", default) == "es-ES"
  {
    Cafe("caf\U{E9}");
    IntendedSpanish("caf\U{E9}", default);
  }
}
