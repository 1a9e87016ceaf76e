/** A translation of one open file into one target language, shown beside it. */
module TranslationPanels {
  import opened Wrappers
  import opened FoundationTypes
  import opened Languages

  datatype TranslationPanel = TranslationPanel(
    id: UUID,
    fileID: UUID,
    targetLanguage: SupportedLanguage,
    translatedContent: string,
    isTranslating: bool,
    error: Option<string>)

  /** The initializer, with `id` the fresh `UUID()`: empty, already translating, no error. */
  function NewPanel(id: UUID, fileID: UUID, targetLanguage: SupportedLanguage): (p: TranslationPanel)
    ensures p.id == id && p.fileID == fileID && p.targetLanguage == targetLanguage
    ensures p.translatedContent == "" && p.isTranslating && p.error.None?
  {
    TranslationPanel(id, fileID, targetLanguage, "", true, None)
  }

  /**
   * Only the three mutable fields may change: a panel keeps its identity, its file and its
   * target language for as long as it exists.
   */
  predicate SamePanel(before: TranslationPanel, after: TranslationPanel) {
    after.id == before.id && after.fileID == before.fileID && after.targetLanguage == before.targetLanguage
  }
}
