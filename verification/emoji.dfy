/**
 `getWeatherEmoji` of src/weather.ts: a first-match-wins keyword classifier.
 The condition text is lower-cased and tested against an ordered chain of
 substring rules, English and Russian keywords side by side; the first rule
 with a keyword in the text decides the icon, and a thermometer is the
 fallback.
 */
module Emoji {
  import opened Strings
  import opened Markdown

  /** The eight icons the classifier can return. */
  datatype Icon = Sunny | PartlyCloudy | Cloudy | Rain | Snow | Thunderstorm | Fog | Thermometer

  /** The exact text of each icon: one pictograph, followed by the emoji
      variation selector U+FE0F unless the pictograph is U+26C5. */
  function Symbol(icon: Icon): (r: string)
    ensures |r| == 1 || (|r| == 2 && r[1] == '\U{FE0F}')
  {
    match icon
    case Sunny => "\U{2600}\U{FE0F}"
    case PartlyCloudy => "\U{26C5}"
    case Cloudy => "\U{2601}\U{FE0F}"
    case Rain => "\U{1F327}\U{FE0F}"
    case Snow => "\U{2744}\U{FE0F}"
    case Thunderstorm => "\U{26C8}\U{FE0F}"
    case Fog => "\U{1F32B}\U{FE0F}"
    case Thermometer => "\U{1F321}\U{FE0F}"
  }

  /** Distinct icons are written differently, so a reader can tell them apart. */
  lemma SymbolInjective(a: Icon, b: Icon)
    requires Symbol(a) == Symbol(b)
    ensures a == b
  {
  }

  /** One line of the chain: any of `keywords` selects `icon`. */
  datatype Rule = Rule(keywords: seq<string>, icon: Icon)

  /** The chain, top to bottom. */
  const Rules: seq<Rule> := [
    Rule(["sun", "солнечно"], Sunny),
    Rule(["partly", "переменная"], PartlyCloudy),
    Rule(["cloud", "облачно"], Cloudy),
    Rule(["rain", "дожд"], Rain),
    Rule(["snow", "снег"], Snow),
    Rule(["thunder"], Thunderstorm),
    Rule(["fog", "туман"], Fog)
  ]

  /** Some keyword of `keywords` occurs in `text`. */
  predicate AnyOccurs(text: string, keywords: seq<string>) {
    |keywords| > 0 && (Contains(text, keywords[0]) || AnyOccurs(text, keywords[1..]))
  }

  /** A two-keyword rule fires when either keyword occurs. */
  lemma AnyOccursPair(text: string, a: string, b: string)
    ensures AnyOccurs(text, [a, b]) <==> Contains(text, a) || Contains(text, b)
  {
    assert [a, b][1..] == [b];
    AnyOccursSingle(text, b);
  }

  /** A one-keyword rule fires when its keyword occurs. */
  lemma AnyOccursSingle(text: string, a: string)
    ensures AnyOccurs(text, [a]) <==> Contains(text, a)
  {
  }

  /** `rule` fires on `text`. */
  predicate Fires(text: string, rule: Rule) {
    AnyOccurs(text, rule.keywords)
  }

  /** `icon` is what a top-to-bottom scan of `Rules` over `text` picks: the
      icon of the first rule that fires, or the thermometer when none does. */
  ghost predicate FirstMatch(text: string, icon: Icon) {
    || (exists i :: 0 <= i < |Rules| && Rules[i].icon == icon && Fires(text, Rules[i])
                    && forall j :: 0 <= j < i ==> !Fires(text, Rules[j]))
    || (icon == Thermometer && forall i :: 0 <= i < |Rules| ==> !Fires(text, Rules[i]))
  }

  /** `FirstMatch` singles out one icon for every text. */
  lemma FirstMatchUnique(text: string, a: Icon, b: Icon)
    requires FirstMatch(text, a) && FirstMatch(text, b)
    ensures a == b
  {
  }

  /** Each rule of the table fires exactly when one of its keywords occurs. */
  lemma RulesFire(text: string)
    ensures Fires(text, Rules[0]) <==> Contains(text, "sun") || Contains(text, "солнечно")
    ensures Fires(text, Rules[1]) <==> Contains(text, "partly") || Contains(text, "переменная")
    ensures Fires(text, Rules[2]) <==> Contains(text, "cloud") || Contains(text, "облачно")
    ensures Fires(text, Rules[3]) <==> Contains(text, "rain") || Contains(text, "дожд")
    ensures Fires(text, Rules[4]) <==> Contains(text, "snow") || Contains(text, "снег")
    ensures Fires(text, Rules[5]) <==> Contains(text, "thunder")
    ensures Fires(text, Rules[6]) <==> Contains(text, "fog") || Contains(text, "туман")
  {
    AnyOccursPair(text, "sun", "солнечно");
    AnyOccursPair(text, "partly", "переменная");
    AnyOccursPair(text, "cloud", "облачно");
    AnyOccursPair(text, "rain", "дожд");
    AnyOccursPair(text, "snow", "снег");
    AnyOccursSingle(text, "thunder");
    AnyOccursPair(text, "fog", "туман");
  }

  /** The first rule that fires, `Rules[k]`, decides the icon. */
  lemma FirstMatchAt(text: string, k: nat)
    requires k < |Rules| && Fires(text, Rules[k])
    requires forall j :: 0 <= j < k ==> !Fires(text, Rules[j])
    ensures FirstMatch(text, Rules[k].icon)
  {
  }

  /** The chain of tests of `getWeatherEmoji`, in source order, on text that
      is already lower-cased: it is the first-match scan of `Rules`. */
  function Classify(text: string): (icon: Icon)
    ensures FirstMatch(text, icon)
  {
    RulesFire(text);
    if Contains(text, "sun") || Contains(text, "солнечно") then
      FirstMatchAt(text, 0); Sunny
    else if Contains(text, "partly") || Contains(text, "переменная") then
      FirstMatchAt(text, 1); PartlyCloudy
    else if Contains(text, "cloud") || Contains(text, "облачно") then
      FirstMatchAt(text, 2); Cloudy
    else if Contains(text, "rain") || Contains(text, "дожд") then
      FirstMatchAt(text, 3); Rain
    else if Contains(text, "snow") || Contains(text, "снег") then
      FirstMatchAt(text, 4); Snow
    else if Contains(text, "thunder") then
      FirstMatchAt(text, 5); Thunderstorm
    else if Contains(text, "fog") || Contains(text, "туман") then
      FirstMatchAt(text, 6); Fog
    else
      assert forall i :: 0 <= i < |Rules| ==> !Fires(text, Rules[i]);
      Thermometer
  }

  /** `getWeatherEmoji(condition)`: the icon of the first rule, top to bottom,
      with a keyword in the lower-cased condition, or the thermometer. */
  function WeatherEmoji(condition: string): (icon: Icon)
    ensures FirstMatch(Lower(condition), icon)
  {
    Classify(Lower(condition))
  }

  /** The fallback is returned exactly when no keyword of any rule occurs in
      the lower-cased text. */
  lemma ThermometerIffNoKeyword(condition: string)
    ensures WeatherEmoji(condition) == Thermometer
            <==> forall i :: 0 <= i < |Rules| ==> !Fires(Lower(condition), Rules[i])
  {
  }

  /** A sun keyword wins over every other keyword, `partly` and `cloud` included. */
  lemma SunWins(condition: string)
    requires Contains(Lower(condition), "sun") || Contains(Lower(condition), "солнечно")
    ensures WeatherEmoji(condition) == Sunny
  {
  }

  /** Without a sun keyword, a `partly` keyword wins over the generic cloud rule. */
  lemma PartlyBeatsCloud(condition: string)
    requires !Contains(Lower(condition), "sun") && !Contains(Lower(condition), "солнечно")
    requires Contains(Lower(condition), "partly") || Contains(Lower(condition), "переменная")
    ensures WeatherEmoji(condition) == PartlyCloudy
  {
  }

  /** Lower-case Latin and Russian letters, the only characters keywords use. */
  predicate IsKeywordText(k: string) {
    forall i :: 0 <= i < |k| ==> ('a' <= k[i] <= 'z') || ('\U{0430}' <= k[i] <= '\U{044F}')
  }

  /** An occurrence of a keyword survives escaping, and escaping adds none. */
  lemma KeywordSurvivesEscape(text: string, k: string)
    requires |k| > 0 && IsKeywordText(k)
    ensures Contains(Escape(text), k) <==> Contains(text, k)
  {
    assert NoReserved(k);
    ContainsEscape(text, k);
  }

  /** Every keyword of the table is non-empty lower-case letters. */
  predicate PlainKeywords(keywords: seq<string>) {
    forall j :: 0 <= j < |keywords| ==> |keywords[j]| > 0 && IsKeywordText(keywords[j])
  }

  lemma RulesHavePlainKeywords()
    ensures forall i :: 0 <= i < |Rules| ==> PlainKeywords(Rules[i].keywords)
  {
  }

  /** A list of plain keywords fires on the escaped text exactly when it fires
      on the text. */
  lemma {:induction false} AnyOccursEscape(text: string, keywords: seq<string>)
    requires PlainKeywords(keywords)
    ensures AnyOccurs(Escape(text), keywords) <==> AnyOccurs(text, keywords)
    decreases |keywords|
  {
    if |keywords| > 0 {
      KeywordSurvivesEscape(text, keywords[0]);
      assert PlainKeywords(keywords[1..]);
      AnyOccursEscape(text, keywords[1..]);
    }
  }

  /** Two texts on which the same rules fire get the same icon. */
  lemma FirstMatchTransfer(a: string, b: string, icon: Icon)
    requires forall i :: 0 <= i < |Rules| ==> (Fires(a, Rules[i]) <==> Fires(b, Rules[i]))
    requires FirstMatch(a, icon)
    ensures FirstMatch(b, icon)
  {
  }

  /** Classifying the escaped text gives the icon of the raw text, which is
      why computing the icon after escaping does no harm. */
  lemma EscapeKeepsIcon(condition: string)
    ensures WeatherEmoji(Escape(condition)) == WeatherEmoji(condition)
  {
    var text := Lower(condition);
    LowerEscape(condition);
    RulesHavePlainKeywords();
    forall i | 0 <= i < |Rules|
      ensures Fires(Escape(text), Rules[i]) <==> Fires(text, Rules[i])
    {
      AnyOccursEscape(text, Rules[i].keywords);
    }
    FirstMatchTransfer(Escape(text), text, WeatherEmoji(Escape(condition)));
    FirstMatchUnique(text, WeatherEmoji(Escape(condition)), WeatherEmoji(condition));
  }

  /** The provider's English "Sunny" gets the sun: lower-casing is what lets
      the capitalised text meet the keyword `sun`. */
  lemma SunnyIsSunny()
    ensures WeatherEmoji("Sunny") == Sunny
  {
    assert Lower("Sunny") == "sunny";
    assert StartsWith("sunny", "sun");
  }

  /** The same for the provider's Russian "Солнечно". */
  lemma SolnechnoIsSunny()
    ensures WeatherEmoji("Солнечно") == Sunny
  {
    assert Lower("Солнечно") == "солнечно";
    assert StartsWith("солнечно", "солнечно");
  }
}
