/**
 * `AppState` as the object the app holds: its stored properties are fields, and each of its
 * operations updates them step by step as the Swift code does. Every method is proved to
 * leave the object in the state the matching function of `AppModels` computes from the old
 * one, and to keep that module's invariant.
 */
module AppStates {
  import opened Wrappers
  import opened FoundationTypes
  import opened Languages
  import opened Availability
  import opened OpenFiles
  import opened TranslationPanels
  import opened Seqs
  import TS = TranslationServices
  import PDF = PDFService
  import AppModels

  class AppState {
    /** The collaborators and settings, fixed for the object's lifetime. */
    const env: AppModels.Env

    var openFiles: seq<OpenFile>
    var activeFileID: Option<UUID>
    var translationPanels: seq<TranslationPanel>
    var activeTranslationPanelID: Option<UUID>
    var panelsPendingDownload: set<UUID>
    /** The translations started by `translateContent`. */
    var started: multiset<AppModels.TranslationRequest>
    /** The calls made to the view model's `prepareTranslation(from:to:)`. */
    var preparations: seq<LanguagePair>
    var showError: bool
    var errorMessage: string
    var showLargeFileAlert: bool
    var pendingLargeFileURL: Option<Url>
    var showCloseScrapbookAlert: bool
    var pendingCloseScrapbookID: Option<UUID>
    /** The next fresh id, standing for `UUID()`. */
    var nextID: nat

    /** The fields as one value. */
    function State(): AppModels.Model
      reads this
    {
      AppModels.Model(openFiles, activeFileID, translationPanels, activeTranslationPanelID, panelsPendingDownload,
        started, preparations, showError, errorMessage, showLargeFileAlert, pendingLargeFileURL,
        showCloseScrapbookAlert, pendingCloseScrapbookID, nextID)
    }

    predicate Valid()
      reads this
    {
      AppModels.ValidModel(State())
    }

    constructor (env: AppModels.Env)
      ensures this.env == env && State() == AppModels.Initial() && Valid()
    {
      this.env := env;
      openFiles := [];
      activeFileID := None;
      translationPanels := [];
      activeTranslationPanelID := None;
      panelsPendingDownload := {};
      started := multiset{};
      preparations := [];
      showError := false;
      errorMessage := "";
      showLargeFileAlert := false;
      pendingLargeFileURL := None;
      showCloseScrapbookAlert := false;
      pendingCloseScrapbookID := None;
      nextID := 0;
    }

    // -------------------------------------------------------------------------------------
    // Opening files

    /** `openFile(url:)`, with the size the file system reports, if it could be read. */
    method OpenFile(url: Url, size: Option<int>)
      requires Valid()
      modifies this
      ensures Valid() && State() == AppModels.OpenFile(env, old(State()), url, size)
    {
      var existing := AppModels.URLIndex(openFiles, url);
      if existing >= 0 {
        activeFileID := Some(openFiles[existing].id);
        return;
      }
      if AppModels.NeedsConfirmation(env, url, size) {
        pendingLargeFileURL := Some(url);
        showLargeFileAlert := true;
        return;
      }
      PerformOpenFile(url);
    }

    method ConfirmOpenLargeFile()
      requires Valid()
      modifies this
      ensures Valid() && State() == AppModels.ConfirmOpenLargeFile(env, old(State()))
    {
      if pendingLargeFileURL.None? {
        return;
      }
      var url := pendingLargeFileURL.value;
      pendingLargeFileURL := None;
      showLargeFileAlert := false;
      PerformOpenFile(url);
    }

    method CancelOpenLargeFile()
      requires Valid()
      modifies this
      ensures Valid() && State() == AppModels.CancelOpenLargeFile(old(State()))
    {
      pendingLargeFileURL := None;
      showLargeFileAlert := false;
    }

    /** `performOpenFile(url:)`: the entry is appended and activated; its content arrives later. */
    method PerformOpenFile(url: Url)
      requires Valid()
      modifies this
      ensures Valid() && State() == AppModels.PerformOpen(env, old(State()), url)
    {
      AppModels.PerformOpenValid(env, State(), url);
      var file := AppModels.NewEntry(env, nextID, url);
      openFiles := openFiles + [file];
      activeFileID := Some(file.id);
      nextID := nextID + 1;
    }

    /** The common tail of the three loading `Task`s once their text is in. */
    method ContentArrived(fileID: UUID, text: string, details: Option<AppModels.PDFDetails>)
      requires Valid()
      modifies this
      ensures Valid() && State() == AppModels.ContentArrived(env, old(State()), fileID, text, details)
    {
      var index := AppModels.FileIndex(openFiles, fileID);
      if index < 0 {
        return;
      }
      var detected := AppModels.Detected(env, text);
      var file := openFiles[index].(content := text, detectedLanguage := detected, selectedSourceLanguage := detected);
      if details.Some? {
        file := file.(pdfPageCount := Some(details.value.pageCount), pdfExtractionMethod := Some(details.value.extractionMethod));
      }
      AppModels.SameFileIDsValid(State(), openFiles[index := file]);
      openFiles := openFiles[index := file];
      var target := AppModels.AutoTarget(env, detected);
      if target.Some? {
        AddTranslation(fileID, target.value);
      }
    }

    /** The completion of `performOpenTextFile(url:)`: the read content or the read error. */
    method TextLoaded(fileID: UUID, url: Url, result: Result<string, string>)
      requires Valid()
      modifies this
      ensures Valid() && State() == AppModels.TextLoaded(env, old(State()), fileID, url, result)
    {
      match result
      case Success(content) =>
        ContentArrived(fileID, content, None);
      case Failure(description) =>
        AppModels.TextLoadFailed(env, State(), fileID, url, description);
        errorMessage := AppModels.FailureMessage("Failed to open ", url, description);
        showError := true;
        openFiles := AppModels.FilesWithoutID(openFiles, fileID);
    }

    /** The completion of `performOpenImageFile(url:)`. */
    method ImageRecognized(fileID: UUID, url: Url, result: Result<string, string>)
      requires Valid()
      modifies this
      ensures Valid() && State() == AppModels.ImageRecognized(env, old(State()), fileID, url, result)
    {
      if result.Success? {
        ContentArrived(fileID, result.value, None);
      } else {
        ghost var before := State();
        errorMessage := AppModels.FailureMessage("Failed to extract text from ", url, result.error);
        showError := true;
        assert State() == before.(errorMessage := errorMessage, showError := true);
      }
    }

    /** The completion of `performOpenPDFFile(url:)`. */
    method PDFExtracted(fileID: UUID, url: Url, result: Result<PDF.PDFExtractionResult, PDF.PDFError>)
      requires Valid()
      modifies this
      ensures Valid() && State() == AppModels.PDFExtracted(env, old(State()), fileID, url, result)
    {
      if result.Success? {
        var r := result.value;
        ContentArrived(fileID, r.text, Some(AppModels.PDFDetails(r.pageCount, PDF.MethodRawValue(r.extractionMethod))));
      } else {
        ghost var before := State();
        errorMessage := AppModels.FailureMessage("Failed to extract text from ", url, PDF.ErrorDescription(result.error));
        showError := true;
        assert State() == before.(errorMessage := errorMessage, showError := true);
      }
    }

    // -------------------------------------------------------------------------------------
    // Closing and activating files

    method CloseActiveFile()
      requires Valid()
      modifies this
      ensures Valid() && State() == AppModels.CloseActiveFile(old(State()))
    {
      if activeFileID.None? {
        return;
      }
      CloseFile(activeFileID.value);
    }

    /** `closeFile(id:)`: the file's panels first, then the file, then the active file. */
    method CloseFile(id: UUID)
      requires Valid()
      modifies this
      ensures Valid() && State() == AppModels.CloseFile(old(State()), id)
    {
      AppModels.CloseFileValid(State(), id);
      translationPanels := AppModels.PanelsWithoutFile(translationPanels, id);
      openFiles := AppModels.FilesWithoutID(openFiles, id);
      if activeFileID == Some(id) {
        activeFileID := if openFiles == [] then None else Some(openFiles[|openFiles| - 1].id);
      }
    }

    method SetActiveFile(id: UUID)
      requires Valid()
      modifies this
      ensures Valid() && State() == AppModels.SetActiveFile(old(State()), id)
    {
      if AppModels.FileIndex(openFiles, id) < 0 {
        return;
      }
      activeFileID := Some(id);
    }

    /** `setSourceLanguage(_:for:)`. */
    method SetSourceLanguage(language: SupportedLanguage, fileID: UUID)
      requires Valid()
      modifies this
      ensures Valid() && State() == AppModels.SetSourceLanguage(env, old(State()), language, fileID)
    {
      var index := AppModels.FileIndex(openFiles, fileID);
      if index < 0 {
        return;
      }
      var updated := openFiles[index := openFiles[index].(selectedSourceLanguage := Some(language))];
      AppModels.SameFileIDsValid(State(), updated);
      openFiles := updated;
      RetranslateAllPanels(fileID);
    }

    // -------------------------------------------------------------------------------------
    // Translation panels

    /** `addTranslation(for:language:)`. */
    method AddTranslation(fileID: UUID, language: SupportedLanguage)
      requires Valid()
      modifies this
      ensures Valid() && State() == AppModels.AddTranslation(env, old(State()), fileID, language)
    {
      if AppModels.PairIndex(translationPanels, fileID, language) >= 0 {
        return;
      }
      var panel := NewPanel(nextID, fileID, language);
      AppModels.AppendPanelValid(State(), panel);
      translationPanels := translationPanels + [panel];
      nextID := nextID + 1;
      activeTranslationPanelID := Some(panel.id);
      TranslateContent(panel.id);
    }

    /** `closeTranslation(id:)`. */
    method CloseTranslation(id: UUID)
      requires Valid()
      modifies this
      ensures Valid() && State() == AppModels.CloseTranslation(old(State()), id)
    {
      AppModels.CloseTranslationValid(State(), id);
      translationPanels := AppModels.PanelsWithoutID(translationPanels, id);
      if activeTranslationPanelID == Some(id) {
        var visible := AppModels.Visible(State());
        activeTranslationPanelID := if visible == [] then None else Some(visible[|visible| - 1].id);
      }
    }

    method RetryTranslation(panelID: UUID)
      requires Valid()
      modifies this
      ensures Valid() && State() == AppModels.TranslateContent(env, old(State()), panelID)
    {
      TranslateContent(panelID);
    }

    /**
     * `retryPendingDownloads()`: the pending set is taken and emptied, then every panel in it
     * is translated again, in whatever order the set yields them.
     */
    method RetryPendingDownloads()
      requires Valid()
      modifies this
      ensures Valid() && State() == AppModels.RetryPendingDownloads(env, old(State()))
    {
      var pending := panelsPendingDownload;
      panelsPendingDownload := {};
      ghost var cleared := State();
      AppModels.RetriedNothing(env, cleared);
      var remaining := pending;
      ghost var done: set<UUID> := {};
      while remaining != {}
        invariant done + remaining == pending && done !! remaining
        invariant Valid() && State() == AppModels.Retried(env, cleared, done)
        decreases |remaining|
      {
        var panelID :| panelID in remaining;
        AppModels.RetriedStep(env, cleared, done, panelID);
        TranslateContent(panelID);
        remaining := remaining - {panelID};
        done := done + {panelID};
      }
    }

    /** `retranslateAllPanels(for:)`: a pass over the panels as they were when it started. */
    method RetranslateAllPanels(fileID: UUID)
      requires Valid()
      modifies this
      ensures Valid() && State() == AppModels.Retranslated(env, old(State()), fileID)
    {
      var panels := translationPanels;
      ghost var pre := State();
      AppModels.RetriedNothing(env, pre);
      for i := 0 to |panels|
        invariant Valid() && State() == AppModels.Retried(env, pre, AppModels.IDsOfFile(panels[..i], fileID))
      {
        AppModels.RetranslateStep(env, pre, fileID, i);
        if panels[i].fileID == fileID {
          TranslateContent(panels[i].id);
        }
      }
      assert panels[..|panels|] == panels;
    }

    /**
     * `translateContent(panelID:)` up to its `Task`: the guards, the panel's flags, and the
     * translation it starts.
     */
    method TranslateContent(panelID: UUID)
      requires Valid()
      modifies this
      ensures Valid() && State() == AppModels.TranslateContent(env, old(State()), panelID)
    {
      AppModels.TranslateContentValid(env, State(), panelID);
      var panelIndex := AppModels.PanelIndex(translationPanels, panelID);
      if panelIndex < 0 {
        return;
      }
      var panel := translationPanels[panelIndex];
      var file := AppModels.FindFile(openFiles, panel.fileID);
      if file.None? {
        return;
      }
      var source := if file.value.selectedSourceLanguage.Some? then file.value.selectedSourceLanguage else file.value.detectedLanguage;
      if source.None? {
        translationPanels := translationPanels[panelIndex := panel.(error := Some(AppModels.SourceUnknown), isTranslating := false)];
        return;
      }
      if !env.hasTranslationService {
        return;
      }
      translationPanels := translationPanels[panelIndex := panel.(isTranslating := true, error := None)];
      started := started + multiset{AppModels.TranslationRequest(panelID, file.value.content, source.value, panel.targetLanguage)};
    }

    /** The end of `translateContent`'s `Task`, with what the service returned or threw. */
    method CompleteTranslation(panelID: UUID, outcome: TS.Outcome)
      requires Valid()
      modifies this
      ensures Valid() && State() == AppModels.CompleteTranslation(env, old(State()), panelID, AppModels.CompletionOf(outcome))
    {
      var completion := AppModels.CompletionOf(outcome);
      AppModels.CompleteTranslationValid(env, State(), panelID, completion);
      var index := AppModels.PanelIndex(translationPanels, panelID);
      match completion
      case Translated(text) =>
        if index >= 0 {
          translationPanels := translationPanels[index := translationPanels[index].(translatedContent := text, isTranslating := false)];
        }
      case NeedsDownload(source, target) =>
        panelsPendingDownload := panelsPendingDownload + {panelID};
        if env.hasTranslationViewModel {
          preparations := preparations + [LanguagePair(source, target)];
        }
      case Failed(message) =>
        if index >= 0 {
          translationPanels := translationPanels[index := translationPanels[index].(error := Some(message), isTranslating := false)];
        }
    }

    // -------------------------------------------------------------------------------------
    // The scrapbook

    method OpenScrapbook()
      requires Valid()
      modifies this
      ensures Valid() && State() == AppModels.OpenScrapbook(old(State()))
    {
      var existing := AppModels.ScrapbookIndex(openFiles);
      if existing >= 0 {
        activeFileID := Some(openFiles[existing].id);
        return;
      }
      var scrapbook := NewScrapbook(nextID);
      AppModels.PrependFileValid(State(), scrapbook);
      openFiles := [scrapbook] + openFiles;
      nextID := nextID + 1;
      activeFileID := Some(scrapbook.id);
    }

    method CloseScrapbook(id: UUID)
      requires Valid()
      modifies this
      ensures Valid() && State() == AppModels.CloseScrapbook(old(State()), id)
    {
      var file := AppModels.FindFile(openFiles, id);
      if file.None? || !file.value.IsScrapbook() {
        return;
      }
      if file.value.content != "" {
        pendingCloseScrapbookID := Some(id);
        showCloseScrapbookAlert := true;
      } else {
        CloseFile(id);
      }
    }

    method ConfirmCloseScrapbook()
      requires Valid()
      modifies this
      ensures Valid() && State() == AppModels.ConfirmCloseScrapbook(old(State()))
    {
      if pendingCloseScrapbookID.None? {
        return;
      }
      var id := pendingCloseScrapbookID.value;
      pendingCloseScrapbookID := None;
      showCloseScrapbookAlert := false;
      CloseFile(id);
    }

    method CancelCloseScrapbook()
      requires Valid()
      modifies this
      ensures Valid() && State() == AppModels.CancelCloseScrapbook(old(State()))
    {
      pendingCloseScrapbookID := None;
      showCloseScrapbookAlert := false;
    }

    /** `updateScrapbookContent(_:)`; the debounced detection is `DetectAndRetranslateScrapbook`. */
    method UpdateScrapbookContent(content: string)
      requires Valid()
      modifies this
      ensures Valid() && State() == AppModels.UpdateScrapbookContent(old(State()), content)
    {
      var index := AppModels.ScrapbookIndex(openFiles);
      if index < 0 {
        return;
      }
      AppModels.SameFileIDsValid(State(), openFiles[index := openFiles[index].(content := content)]);
      openFiles := openFiles[index := openFiles[index].(content := content)];
    }

    /** `onScrapbookFocusLost()`: detection runs at once. */
    method OnScrapbookFocusLost()
      requires Valid()
      modifies this
      ensures Valid() && State() == AppModels.DetectAndRetranslateScrapbook(env, old(State()))
    {
      DetectAndRetranslateScrapbook();
    }

    method DetectAndRetranslateScrapbook()
      requires Valid()
      modifies this
      ensures Valid() && State() == AppModels.DetectAndRetranslateScrapbook(env, old(State()))
    {
      var index := AppModels.ScrapbookIndex(openFiles);
      if index < 0 || openFiles[index].content == "" {
        return;
      }
      var detected := env.detectLanguage(openFiles[index].content);
      var file := openFiles[index].(detectedLanguage := detected);
      if file.selectedSourceLanguage.None? {
        file := file.(selectedSourceLanguage := detected);
      }
      AppModels.SameFileIDsValid(State(), openFiles[index := file]);
      openFiles := openFiles[index := file];
      RetranslateAllPanels(file.id);
    }

    // -------------------------------------------------------------------------------------
    // Saving

    /** `saveActiveTranslation()` up to the save panel; it changes nothing. */
    method SaveActiveTranslation() returns (prompt: Option<AppModels.SavePrompt>)
      ensures prompt == AppModels.SavePromptOf(env, State())
    {
      if activeTranslationPanelID.None? {
        return None;
      }
      var panelIndex := AppModels.PanelIndex(translationPanels, activeTranslationPanelID.value);
      if panelIndex < 0 {
        return None;
      }
      var panel := translationPanels[panelIndex];
      var file := AppModels.FindFile(openFiles, panel.fileID);
      if file.None? {
        return None;
      }
      var url := AppModels.DefaultSaveURL(env, file.value.url, panel.targetLanguage);
      prompt := Some(AppModels.SavePrompt(LastPathComponent(url), DeletingLastPathComponent(file.value.url), panel.translatedContent));
    }

    /** The write of the chosen file threw. */
    method SaveFailed(description: string)
      requires Valid()
      modifies this
      ensures Valid() && State() == AppModels.SaveFailed(old(State()), description)
    {
      errorMessage := "Failed to save translation: " + description;
      showError := true;
    }
  }
}
