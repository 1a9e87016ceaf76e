/** The two errors the translation service throws, and the messages users see for them. */
module TranslationErrors {
  import opened Wrappers
  import opened Languages

  datatype TranslationError =
    | UnsupportedPair(source: SupportedLanguage, target: SupportedLanguage)
    | DownloadRequired(source: SupportedLanguage, target: SupportedLanguage)

  /** `errorDescription` (and hence `localizedDescription`). */
  function ErrorDescription(e: TranslationError): (d: Option<string>)
    ensures d.Some?
    ensures e.UnsupportedPair? ==> "Translation from " <= d.value
    ensures e.DownloadRequired? ==> "Language pack for " <= d.value
  {
    match e
    case UnsupportedPair(s, t) =>
      Some("Translation from " + DisplayName(s) + " to " + DisplayName(t) + " is not supported.")
    case DownloadRequired(s, t) =>
      Some("Language pack for " + PairLabel(s, t) + " needs to be downloaded first.")
  }

  /** For one pair, the two variants never read the same. */
  lemma DescriptionsDiffer(s: SupportedLanguage, t: SupportedLanguage)
    ensures ErrorDescription(UnsupportedPair(s, t)) != ErrorDescription(DownloadRequired(s, t))
  {
    assert ErrorDescription(UnsupportedPair(s, t)).value[0] == 'T';
    assert ErrorDescription(DownloadRequired(s, t)).value[0] == 'L';
  }
}
