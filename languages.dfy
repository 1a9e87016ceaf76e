/** The twenty languages the app offers, with their locale identifiers, names and short codes. */
module Languages {
  import opened Wrappers

  datatype SupportedLanguage =
    | Arabic | ChineseSimplified | ChineseTraditional | Dutch | English
    | French | German | Hindi | Indonesian | Italian
    | Japanese | Korean | Polish | Portuguese | Russian
    | Spanish | Thai | Turkish | Ukrainian | Vietnamese

  /** The cases in declaration order (`allCases`). */
  const AllCases: seq<SupportedLanguage> := [
    Arabic, ChineseSimplified, ChineseTraditional, Dutch, English,
    French, German, Hindi, Indonesian, Italian,
    Japanese, Korean, Polish, Portuguese, Russian,
    Spanish, Thai, Turkish, Ukrainian, Vietnamese
  ]

  /** The enum's raw value, a locale identifier. */
  function RawValue(l: SupportedLanguage): string {
    match l
    case Arabic => "ar"
    case ChineseSimplified => "zh-Hans"
    case ChineseTraditional => "zh-Hant"
    case Dutch => "nl"
    case English => "en-US"
    case French => "fr-FR"
    case German => "de"
    case Hindi => "hi"
    case Indonesian => "id"
    case Italian => "it"
    case Japanese => "ja-JP"
    case Korean => "ko"
    case Polish => "pl"
    case Portuguese => "pt-BR"
    case Russian => "ru"
    case Spanish => "es"
    case Thai => "th"
    case Turkish => "tr"
    case Ukrainian => "uk"
    case Vietnamese => "vi"
  }

  /** `Identifiable.id` is the raw value. */
  function Id(l: SupportedLanguage): string {
    RawValue(l)
  }

  /** `SupportedLanguage(rawValue:)`: the case whose raw value is `raw`, if any. */
  function FromRawValue(raw: string): (r: Option<SupportedLanguage>)
    ensures r.Some? ==> RawValue(r.value) == raw
  {
    if raw == "ar" then Some(Arabic)
    else if raw == "zh-Hans" then Some(ChineseSimplified)
    else if raw == "zh-Hant" then Some(ChineseTraditional)
    else if raw == "nl" then Some(Dutch)
    else if raw == "en-US" then Some(English)
    else if raw == "fr-FR" then Some(French)
    else if raw == "de" then Some(German)
    else if raw == "hi" then Some(Hindi)
    else if raw == "id" then Some(Indonesian)
    else if raw == "it" then Some(Italian)
    else if raw == "ja-JP" then Some(Japanese)
    else if raw == "ko" then Some(Korean)
    else if raw == "pl" then Some(Polish)
    else if raw == "pt-BR" then Some(Portuguese)
    else if raw == "ru" then Some(Russian)
    else if raw == "es" then Some(Spanish)
    else if raw == "th" then Some(Thai)
    else if raw == "tr" then Some(Turkish)
    else if raw == "uk" then Some(Ukrainian)
    else if raw == "vi" then Some(Vietnamese)
    else None
  }

  function DisplayName(l: SupportedLanguage): string {
    match l
    case Arabic => "Arabic"
    case ChineseSimplified => "Chinese (Simplified)"
    case ChineseTraditional => "Chinese (Traditional)"
    case Dutch => "Dutch"
    case English => "English"
    case French => "French"
    case German => "German"
    case Hindi => "Hindi"
    case Indonesian => "Indonesian"
    case Italian => "Italian"
    case Japanese => "Japanese"
    case Korean => "Korean"
    case Polish => "Polish"
    case Portuguese => "Portuguese"
    case Russian => "Russian"
    case Spanish => "Spanish"
    case Thai => "Thai"
    case Turkish => "Turkish"
    case Ukrainian => "Ukrainian"
    case Vietnamese => "Vietnamese"
  }

  /** The short code the Translation framework is given (`Locale.Language(identifier:)`). */
  function LanguageCode(l: SupportedLanguage): string {
    match l
    case Arabic => "ar"
    case ChineseSimplified => "zh-Hans"
    case ChineseTraditional => "zh-Hant"
    case Dutch => "nl"
    case English => "en"
    case French => "fr"
    case German => "de"
    case Hindi => "hi"
    case Indonesian => "id"
    case Italian => "it"
    case Japanese => "ja"
    case Korean => "ko"
    case Polish => "pl"
    case Portuguese => "pt"
    case Russian => "ru"
    case Spanish => "es"
    case Thai => "th"
    case Turkish => "tr"
    case Ukrainian => "uk"
    case Vietnamese => "vi"
  }

  /** The identifier both view models build the pivot locale from. */
  const PivotCode: string := "en"

  /** The original four languages that ship active. */
  const DefaultActive: seq<SupportedLanguage> := [English, French, Japanese, Portuguese]

  /** How a pair is shown to the user: "source → target". */
  function PairLabel(source: SupportedLanguage, target: SupportedLanguage): string {
    DisplayName(source) + " → " + DisplayName(target)
  }

  // ---------------------------------------------------------------------------
  // Inverses used only in proofs

  ghost function FromLanguageCode(code: string): Option<SupportedLanguage> {
    if code == "ar" then Some(Arabic)
    else if code == "zh-Hans" then Some(ChineseSimplified)
    else if code == "zh-Hant" then Some(ChineseTraditional)
    else if code == "nl" then Some(Dutch)
    else if code == "en" then Some(English)
    else if code == "fr" then Some(French)
    else if code == "de" then Some(German)
    else if code == "hi" then Some(Hindi)
    else if code == "id" then Some(Indonesian)
    else if code == "it" then Some(Italian)
    else if code == "ja" then Some(Japanese)
    else if code == "ko" then Some(Korean)
    else if code == "pl" then Some(Polish)
    else if code == "pt" then Some(Portuguese)
    else if code == "ru" then Some(Russian)
    else if code == "es" then Some(Spanish)
    else if code == "th" then Some(Thai)
    else if code == "tr" then Some(Turkish)
    else if code == "uk" then Some(Ukrainian)
    else if code == "vi" then Some(Vietnamese)
    else None
  }

  ghost function FromDisplayName(name: string): Option<SupportedLanguage> {
    if name == "Arabic" then Some(Arabic)
    else if name == "Chinese (Simplified)" then Some(ChineseSimplified)
    else if name == "Chinese (Traditional)" then Some(ChineseTraditional)
    else if name == "Dutch" then Some(Dutch)
    else if name == "English" then Some(English)
    else if name == "French" then Some(French)
    else if name == "German" then Some(German)
    else if name == "Hindi" then Some(Hindi)
    else if name == "Indonesian" then Some(Indonesian)
    else if name == "Italian" then Some(Italian)
    else if name == "Japanese" then Some(Japanese)
    else if name == "Korean" then Some(Korean)
    else if name == "Polish" then Some(Polish)
    else if name == "Portuguese" then Some(Portuguese)
    else if name == "Russian" then Some(Russian)
    else if name == "Spanish" then Some(Spanish)
    else if name == "Thai" then Some(Thai)
    else if name == "Turkish" then Some(Turkish)
    else if name == "Ukrainian" then Some(Ukrainian)
    else if name == "Vietnamese" then Some(Vietnamese)
    else None
  }

  /** Position of the first `c` in `s`, or `|s|` when there is none. */
  ghost function IndexOf(s: string, c: char): nat {
    if s == [] then 0 else if s[0] == c then 0 else 1 + IndexOf(s[1..], c)
  }

  lemma {:induction false} IndexOfAfter(x: string, rest: string, c: char)
    requires c !in x
    ensures IndexOf(x + rest, c) == |x| + IndexOf(rest, c)
  {
    if x == [] {
      assert x + rest == rest;
    } else {
      assert (x + rest)[1..] == x[1..] + rest;
      IndexOfAfter(x[1..], rest, c);
    }
  }

  // ---------------------------------------------------------------------------
  // Properties

  /** The enumeration has exactly twenty cases, each listed once. */
  lemma AllCasesComplete()
    ensures |AllCases| == 20
    ensures forall l: SupportedLanguage :: l in AllCases
    ensures forall i, j :: 0 <= i < j < |AllCases| ==> AllCases[i] != AllCases[j]
  {
    forall l: SupportedLanguage
      ensures l in AllCases
    {
      match l
        case Arabic =>
        case ChineseSimplified =>
        case ChineseTraditional =>
        case Dutch =>
        case English =>
        case French =>
        case German =>
        case Hindi =>
        case Indonesian =>
        case Italian =>
        case Japanese =>
        case Korean =>
        case Polish =>
        case Portuguese =>
        case Russian =>
        case Spanish =>
        case Thai =>
        case Turkish =>
        case Ukrainian =>
        case Vietnamese =>
    }
  }

  lemma RawValueRoundTrip(l: SupportedLanguage)
    ensures FromRawValue(RawValue(l)) == Some(l)
  {
    match l
    case Arabic =>
    case ChineseSimplified =>
    case ChineseTraditional =>
    case Dutch =>
    case English =>
    case French =>
    case German =>
    case Hindi =>
    case Indonesian =>
    case Italian =>
    case Japanese =>
    case Korean =>
    case Polish =>
    case Portuguese =>
    case Russian =>
    case Spanish =>
    case Thai =>
    case Turkish =>
    case Ukrainian =>
    case Vietnamese =>
  }

  /** Distinct cases have distinct raw values (so `id` is a key). */
  lemma RawValueInjective(a: SupportedLanguage, b: SupportedLanguage)
    requires RawValue(a) == RawValue(b)
    ensures a == b
  {
    RawValueRoundTrip(a);
    RawValueRoundTrip(b);
  }

  lemma LanguageCodeRoundTrip(l: SupportedLanguage)
    ensures FromLanguageCode(LanguageCode(l)) == Some(l)
  {
    match l
    case Arabic =>
    case ChineseSimplified =>
    case ChineseTraditional =>
    case Dutch =>
    case English =>
    case French =>
    case German =>
    case Hindi =>
    case Indonesian =>
    case Italian =>
    case Japanese =>
    case Korean =>
    case Polish =>
    case Portuguese =>
    case Russian =>
    case Spanish =>
    case Thai =>
    case Turkish =>
    case Ukrainian =>
    case Vietnamese =>
  }

  /** Distinct cases have distinct short codes. */
  lemma LanguageCodeInjective(a: SupportedLanguage, b: SupportedLanguage)
    requires LanguageCode(a) == LanguageCode(b)
    ensures a == b
  {
    LanguageCodeRoundTrip(a);
    LanguageCodeRoundTrip(b);
  }

  /** English's short code is the pivot identifier "en", so the pivot locale is English's. */
  lemma EnglishIsPivot(l: SupportedLanguage)
    ensures LanguageCode(l) == PivotCode <==> l == English
  {
    if LanguageCode(l) == PivotCode {
      LanguageCodeInjective(l, English);
    }
  }

  /** Every short code is either two letters other than "zh", or seven characters starting "zh-". */
  lemma LanguageCodeShape(l: SupportedLanguage)
    ensures var c := LanguageCode(l);
      (|c| == 2 && c != "zh" && '-' !in c && '>' !in c) ||
      (|c| == 7 && c[..3] == "zh-" && '>' !in c)
  {
    match l
    case Arabic =>
    case ChineseSimplified =>
    case ChineseTraditional =>
    case Dutch =>
    case English =>
    case French =>
    case German =>
    case Hindi =>
    case Indonesian =>
    case Italian =>
    case Japanese =>
    case Korean =>
    case Polish =>
    case Portuguese =>
    case Russian =>
    case Spanish =>
    case Thai =>
    case Turkish =>
    case Ukrainian =>
    case Vietnamese =>
  }

  lemma DisplayNameArrowFree(l: SupportedLanguage)
    ensures '→' !in DisplayName(l)
  {
    match l
    case Arabic =>
    case ChineseSimplified =>
    case ChineseTraditional =>
    case Dutch =>
    case English =>
    case French =>
    case German =>
    case Hindi =>
    case Indonesian =>
    case Italian =>
    case Japanese =>
    case Korean =>
    case Polish =>
    case Portuguese =>
    case Russian =>
    case Spanish =>
    case Thai =>
    case Turkish =>
    case Ukrainian =>
    case Vietnamese =>
  }

  lemma DisplayNameRoundTrip(l: SupportedLanguage)
    ensures FromDisplayName(DisplayName(l)) == Some(l)
  {
    match l
    case Arabic =>
    case ChineseSimplified =>
    case ChineseTraditional =>
    case Dutch =>
    case English =>
    case French =>
    case German =>
    case Hindi =>
    case Indonesian =>
    case Italian =>
    case Japanese =>
    case Korean =>
    case Polish =>
    case Portuguese =>
    case Russian =>
    case Spanish =>
    case Thai =>
    case Turkish =>
    case Ukrainian =>
    case Vietnamese =>
  }

  /** Distinct cases have distinct display names. */
  lemma DisplayNameInjective(a: SupportedLanguage, b: SupportedLanguage)
    requires DisplayName(a) == DisplayName(b)
    ensures a == b
  {
    DisplayNameRoundTrip(a);
    DisplayNameRoundTrip(b);
  }

  /** `defaultActive` holds four distinct languages, English first. */
  lemma DefaultActiveDistinct()
    ensures |DefaultActive| == 4 && DefaultActive[0] == English
    ensures forall i, j :: 0 <= i < j < |DefaultActive| ==> DefaultActive[i] != DefaultActive[j]
  {
  }

  /** "A → B" names its pair unambiguously: the arrow occurs in no display name. */
  lemma PairLabelInjective(a: SupportedLanguage, b: SupportedLanguage, c: SupportedLanguage, d: SupportedLanguage)
    requires PairLabel(a, b) == PairLabel(c, d)
    ensures a == c && b == d
  {
    DisplayNameArrowFree(a);
    DisplayNameArrowFree(c);
    SplitAtArrow(DisplayName(a), DisplayName(b), DisplayName(c), DisplayName(d));
    DisplayNameInjective(a, c);
    DisplayNameInjective(b, d);
  }

  lemma SplitAtArrow(x: string, z: string, y: string, w: string)
    requires '→' !in x && '→' !in y
    requires x + " → " + z == y + " → " + w
    ensures x == y && z == w
  {
    assert x + " → " + z == (x + " ") + ['→'] + (" " + z);
    assert y + " → " + w == (y + " ") + ['→'] + (" " + w);
    SplitAtChar(x + " ", " " + z, y + " ", " " + w, '→');
    assert x == (x + " ")[..|x|] == (y + " ")[..|y|] == y;
    assert z == (" " + z)[1..] == (" " + w)[1..] == w;
  }

  /** Two strings joined by a separator character found in neither left part split back uniquely. */
  lemma SplitAtChar(x: string, z: string, y: string, w: string, c: char)
    requires c !in x && c !in y
    requires x + [c] + z == y + [c] + w
    ensures x == y && z == w
  {
    var k := x + [c] + z;
    assert k == x + ([c] + z) && k == y + ([c] + w);
    IndexOfAfter(x, [c] + z, c);
    IndexOfAfter(y, [c] + w, c);
    assert |x| == |y|;
    assert x == k[..|x|] == y;
    assert z == k[|x| + 1..] == w;
  }
}
