# Transloaded, modelled in Dafny

Transloaded is a macOS editor. It opens text files, images and PDFs and shows translations of them in side panels. The on-device Translation framework does the translating. This project models the app's orchestration logic and proves properties of it:

- **The translation service** (`TranslationServices`). It keeps a cache of translation sessions keyed by `"src-tgt"` and translates directly through it. When a pair has no direct route it falls back to two hops through English.
- **`requiredDownloads`** (`Availability.MissingLegs`) decides which language packs a pair still needs.
- **Two language-pack download queues:**
  - the current one (`DownloadQueue`): a shared FIFO, with panel requests at the front and bulk requests at the back;
  - the older one at the repository root (`LegacyDownloadQueue`): one pending list that each request replaces.
- **The document and panel state of `AppState`:**
  - `AppModels` holds the specification, one function per operation on a `Model` value;
  - `AppStates.AppState` is the class, whose fields the methods update in place;
  - each asynchronous `Task` completion is a separate method that the environment may call at any time.
- **The small stateful cores:**
  - the recent-items lists (`RecentItems`);
  - the active-language setting (`Settings`);
  - the sidebar roots (`Sidebar`);
  - `scan_NNN` numbering for camera imports (`CameraImport`);
  - per-page text extraction from PDFs (`PDFService`).
- **The value records:** `OpenFile`, `TranslationPanel`, `SupportedLanguage` and `TranslationError`.

The system's services are inputs to the model:

- **Language availability** is a class holding a mutable status table (`Availability.LanguageAvailability`). It can change between calls.
- **The translation engine** is a function of the pair and the text.
- **`#available(macOS 26.0, *)`** is a boolean.
- **The file-system type tests and `NLLanguageRecognizer`** are functions held in `AppModels.Env`.
- **File sizes, read results, OCR results and PDF pages** are parameters of the methods that receive them.
- **`UUID()`** is a counter `nextID` owned by the object that makes identifiers. This keeps identifiers fresh by construction.

Some choices follow the code rather than the intent:

- **`confirmOpenLargeFile`** opens the remembered URL without checking again whether it is already open (`AppStates.AppState.ConfirmOpenLargeFile`). A URL could be opened twice by requesting it again while the alert is up. Distinct URLs are therefore proved only for `openFile`, in `AppModels.OpenFileNew`.
- **A failed text load** removes the entry from `openFiles` but leaves `activeFileID` and the file's panels as they were (`AppModels.TextLoadFailed`).
- **Translation completions** write into whichever panel still has their id. No completion is discarded as stale, so the last to arrive wins.
- **`retryPendingDownloads` and `retranslateAllPanels`** are specified as the translation of a set of panels (`AppModels.Retried`). Each panel's effect is independent of the others, so the iteration order of the Swift `Set` does not matter.

## Model

| member | source | states |
|---|---|---|
| Languages.AllCasesComplete | Transloaded/Models/SupportedLanguage.swift:3-23 | `allCases` has exactly twenty entries, lists every case, and lists none twice |
| Languages.FromRawValue | Transloaded/Models/SupportedLanguage.swift:3-23 | `SupportedLanguage(rawValue:)` returns only a case whose raw value is the given string |
| Languages.RawValueRoundTrip | Transloaded/Models/SupportedLanguage.swift:4-25 | parsing a case's raw value gives back the case, so `id` (the raw value) identifies it |
| Languages.RawValueInjective | Transloaded/Models/SupportedLanguage.swift:4-25 | distinct cases have distinct raw values and ids |
| Languages.LanguageCodeRoundTrip | Transloaded/Models/SupportedLanguage.swift:57-80 | a case can be read back from its `languageCode` |
| Languages.LanguageCodeInjective | Transloaded/Models/SupportedLanguage.swift:57-80 | distinct cases have distinct language codes |
| Languages.LanguageCodeShape | Transloaded/Models/SupportedLanguage.swift:57-80 | every code is either two characters other than "zh" with no '-', or seven characters starting "zh-"; no code contains '>' |
| Languages.EnglishIsPivot | Transloaded/Models/SupportedLanguage.swift:63 | a language's code is the pivot identifier "en" exactly when the language is English |
| Languages.DisplayNameArrowFree | Transloaded/Models/SupportedLanguage.swift:27-50 | no display name contains the arrow used in pair labels |
| Languages.DisplayNameRoundTrip | Transloaded/Models/SupportedLanguage.swift:27-50 | a case can be read back from its display name |
| Languages.DisplayNameInjective | Transloaded/Models/SupportedLanguage.swift:27-50 | distinct cases have distinct display names |
| Languages.DefaultActiveDistinct | Transloaded/Models/SupportedLanguage.swift:83 | `defaultActive` holds four distinct languages, English first |
| Languages.PairLabelInjective | Transloaded/Services/TranslationService.swift:111 | the label "A → B" determines both A and B |
| TranslationErrors.ErrorDescription | Transloaded/Models/TranslationError.swift:7-14 | every variant has a description; `unsupportedPair` reads "Translation from …", `downloadRequired` reads "Language pack for …" |
| TranslationErrors.DescriptionsDiffer | Transloaded/Models/TranslationError.swift:9-12 | for the same pair the two variants never have the same description |
| TranslationPanels.NewPanel | Transloaded/Models/TranslationPanel.swift:11-18 | a new panel has the given fresh id, file and target, empty content, is translating, and has no error |
| OpenFiles.NewOpenFile | Transloaded/Models/OpenFile.swift:38-51 | the initializer stores its arguments, starts the selected source language at the detected one, and is not marked as changed on disk |
| OpenFiles.NewTextFile | Transloaded/Models/OpenFile.swift:38 | leaving the defaulted arguments out gives a text file with no language and no image or PDF source |
| OpenFiles.NewScrapbook | Transloaded/Models/OpenFile.swift:53-55 | the scrapbook is an empty text document named "Scrapbook" at the scrapbook URL, with no language |
| OpenFiles.KindsExclusive | Transloaded/Models/OpenFile.swift:30-36 | `isImage` holds exactly for the image type and `isPDF` exactly for the PDF type, never both |
| FoundationTypes.LastIndexOf | Transloaded/ViewModels/AppState.swift:607-610 | the index found holds the character and no later index does; -1 means the character is absent |
| FoundationTypes.PathSplitsAtLastSlash | Transloaded/ViewModels/AppState.swift:608-609 | a path is its directory part followed by its last component |
| FoundationTypes.LastPathComponentHasNoSlash | Transloaded/ViewModels/AppState.swift:594 | the last component contains no '/', and the directory part is empty or ends in '/' |
| FoundationTypes.AppendingPathComponentSplits | Transloaded/ViewModels/AppState.swift:624 | a non-empty name without '/' appended to a directory is the result's last component, and the directory its parent |
| FoundationTypes.SplitExtension | Transloaded/ViewModels/AppState.swift:609-610 | the extension has no '.', and either it is empty and the base is the whole name, or base + "." + extension is the name with a non-empty base |
| FoundationTypes.ExtensionSplitsOff | Transloaded/ViewModels/AppState.swift:609-610 | `name.ext` splits back into `name` and `ext` when neither contains a dot |
| Strings.ReplaceAbsent | Transloaded/ViewModels/AppState.swift:614-617 | replacing a pattern that does not occur leaves the text unchanged |
| Strings.ReplaceFirst | Transloaded/ViewModels/AppState.swift:614-617 | text before the first occurrence is kept, that occurrence is replaced, and the replacement continues after it |
| Strings.ReplaceSkip | Transloaded/ViewModels/AppState.swift:614-617 | a prefix in which no occurrence starts is copied unchanged |
| Strings.TrimStart | Transloaded/ViewModels/AppState.swift:621 | the result is a suffix of the input, all removed characters are the trimmed one, and it does not start with it |
| Strings.TrimEnd | Transloaded/ViewModels/AppState.swift:621 | the result is a prefix of the input, all removed characters are the trimmed one, and it does not end with it |
| Strings.Trim | Transloaded/ViewModels/AppState.swift:621 | the result is the input with the trimmed character removed from both ends and from neither end more |
| Seqs.FirstIndex | Transloaded/ViewModels/AppState.swift:471 | `firstIndex(where:)` gives the first index satisfying the test, or -1 when none does |
| Seqs.FlattenMembers | Transloaded/ViewModels/TranslationViewModel.swift:83-114 | an element is in the concatenation of the pieces exactly when it is in one of them |
| Seqs.FilterMembers | Transloaded/ViewModels/AppState.swift:327-328 | `filter` and `removeAll(where:)` keep exactly the elements that pass |
| Seqs.FilterAll | Transloaded/ViewModels/AppState.swift:327-328 | filtering a sequence whose elements all pass changes nothing |
| Seqs.FilterKeepsOrder | Transloaded/ViewModels/AppState.swift:38-41 | any two kept elements appear in the original in the same order |
| Seqs.FilterKeepsDistinct | Transloaded/ViewModels/AppState.swift:327-328 | keys that were pairwise distinct stay pairwise distinct after filtering |
| Availability.LanguageAvailability.SetStatus | Transloaded/Services/TranslationService.swift:29-32 | the system changes its answer for one pair and for no other pair |
| Availability.CollectMissingLegs | Transloaded/ViewModels/TranslationViewModel.swift:38-66 | the leg-by-leg status queries collect exactly the missing legs of the pair |
| Availability.MissingLegsExactly | Transloaded/Services/TranslationService.swift:105-125 | installed gives none; downloadable gives the pair alone; unsupported gives each pivot leg exactly when it is downloadable, source leg first; every reported leg is a downloadable leg of the pair, and there are at most two |
| TranslationServices.SessionKeyDecodes | Transloaded/Services/TranslationService.swift:9-11 | the key "src-tgt" can be read back into its pair |
| TranslationServices.SessionKeyInjective | Transloaded/Services/TranslationService.swift:9-11 | distinct pairs get distinct session keys, so a cached session is never used for another pair |
| TranslationServices.TranslationService.constructor | Transloaded/Services/TranslationService.swift:6-7 | the service starts with an empty cache |
| TranslationServices.TranslationService.DirectStep | Transloaded/Services/TranslationService.swift:20-47 | a direct translation never drops or rebinds a cached session |
| TranslationServices.TranslationService.TranslateStep | Transloaded/Services/TranslationService.swift:15-56 | a translation, direct or by two hops, never drops or rebinds a cached session; it is defined on every input where the Swift `translate` returns (`Terminates`), including a two-hop path whose first leg fails |
| TranslationServices.TranslationService.DirectStepIgnoresTrace | Transloaded/Services/TranslationService.swift:20-47 | a direct translation's outcome and new cache do not depend on the calls made before it |
| TranslationServices.TranslationService.TwoHopStep | Transloaded/Services/TranslationService.swift:59-66 | the two-hop path never drops or rebinds a cached session; the second leg is needed only when the first succeeds |
| TranslationServices.TranslationService.Translate | Transloaded/Services/TranslationService.swift:15-56 | the method's result, new cache and system calls are those of `TranslateStep`, and every cached session stays bound to the pair its key names |
| TranslationServices.TranslationService.TranslateWithNewSession | Transloaded/Services/TranslationService.swift:35-43 | an installed, uncached pair gets a new session cached under its own key and translates with it; without session support the pack counts as missing and nothing is cached |
| TranslationServices.TranslationService.TwoHopTranslate | Transloaded/Services/TranslationService.swift:59-66 | the method's result, new cache and calls are those of `TwoHopStep` |
| TranslationServices.TranslationService.TranslateIdentity | Transloaded/Services/TranslationService.swift:20 | translating into the same language returns the text and touches neither the cache nor the oracle |
| TranslationServices.TranslationService.TranslateUsesCache | Transloaded/Services/TranslationService.swift:22-27 | a cached session is used: one engine call, no status query, cache unchanged |
| TranslationServices.TranslationService.TranslateInstalled | Transloaded/Services/TranslationService.swift:35-40 | an installed, uncached pair adds exactly one cache entry, under its own key and bound to the pair, and returns that session's output |
| TranslationServices.TranslationService.TranslateSupported | Transloaded/Services/TranslationService.swift:45-47 | a downloadable pair fails with `downloadRequired` for that pair and caches nothing |
| TranslationServices.TranslationService.TranslateTwoHop | Transloaded/Services/TranslationService.swift:49-66 | an unsupported pair translates source to English, then English to target on the English text; a failing first leg is the result and the second leg never runs, whether or not it could resolve |
| TranslationServices.TranslationService.TranslateFirstLegMissing | Transloaded/Services/TranslationService.swift:49-66 | an unsupported pair whose source → English pack is not downloaded returns `downloadRequired(source, English)`, whatever the status of English → target, caching nothing |
| TranslationServices.TranslationService.CreateSession | Transloaded/Services/TranslationService.swift:70-80 | an existing session is never overwritten; otherwise exactly one session is added for the pair |
| TranslationServices.TranslationService.CheckAvailability | Transloaded/Services/TranslationService.swift:83-91 | returns the oracle's status for the pair, one query |
| TranslationServices.TranslationService.RequiredDownloads | Transloaded/Services/TranslationService.swift:94-126 | the list holds one "A → B" label per missing leg, in the order of `MissingLegs` |
| TranslationServices.TranslationService.PrepareLanguagePair | Transloaded/Services/TranslationService.swift:130-149 | returns the status, caches a session only for an installed uncached pair, and never overwrites one |
| TranslationServices.TranslationService.ClearSessions | Transloaded/Services/TranslationService.swift:151-153 | the cache is empty afterwards |
| DownloadQueue.TranslationViewModel.constructor | Transloaded/ViewModels/TranslationViewModel.swift:9-21 | empty status, not preparing, no configuration, task id 0, empty queue, no current pair, and a fresh service |
| DownloadQueue.TranslationViewModel.AdvanceQueue | Transloaded/ViewModels/TranslationViewModel.swift:129-151 | the loop leaves the fields exactly as `Advance` says |
| DownloadQueue.TranslationViewModel.PrepareTranslation | Transloaded/ViewModels/TranslationViewModel.swift:25-71 | the fields become `Prepare` of the old ones; a session is created only for an installed uncached pair |
| DownloadQueue.TranslationViewModel.StartBulkDownload | Transloaded/ViewModels/TranslationViewModel.swift:75-124 | the fields become `Bulk` of the old ones |
| DownloadQueue.TranslationViewModel.VerifyAndCompleteDownload | Transloaded/ViewModels/TranslationViewModel.swift:156-168 | the queue advances whether or not the pair got installed, so there is no retry |
| DownloadQueue.TranslationViewModel.OnTranslationDownloadFailed | Transloaded/ViewModels/TranslationViewModel.swift:170-177 | the fields become `Fail` of the old ones |
| DownloadQueue.CollectBulkNeeded | Transloaded/ViewModels/TranslationViewModel.swift:80-115 | the collection loop yields the deduplicated missing legs of the pairs, in request order |
| DownloadQueue.CollectPairLegs | Transloaded/ViewModels/TranslationViewModel.swift:84-114 | one pair's legs are added in order, each only if its key is unseen, and `seen` stays the set of keys collected |
| DownloadQueue.InsertUnseen | Transloaded/ViewModels/TranslationViewModel.swift:90-93 | `seen.insert(key).inserted` holds exactly when the leg is not yet collected, and then it is appended |
| DownloadQueue.BulkKeyInjective | Transloaded/ViewModels/TranslationViewModel.swift:90 | distinct legs have distinct "src>tgt" keys |
| DownloadQueue.DedupSnoc | Transloaded/ViewModels/TranslationViewModel.swift:91-93 | deduplicating one more leg appends it exactly when it is new |
| DownloadQueue.SkipInstalledSkipsOnlyInstalled | Transloaded/ViewModels/TranslationViewModel.swift:132-141 | `advanceQueue` pops only installed pairs before the one it stops at, which is not installed |
| DownloadQueue.AdvanceDrivesOnePair | Transloaded/ViewModels/TranslationViewModel.swift:132-150 | either one uninstalled pair from the queue becomes current with the task id up by one, or the whole queue was installed, everything is cleared and the all-complete callback fires once more |
| DownloadQueue.PrepareLeavesQueue | Transloaded/ViewModels/TranslationViewModel.swift:26-48 | for the same language or an installed pair, the queue, configuration, current pair and counters stay as they were, and `isPreparingTranslation` is cleared |
| DownloadQueue.PrepareJumpsTheQueue | Transloaded/ViewModels/TranslationViewModel.swift:50-70 | the missing legs go in front of all waiting entries, in order, and the first becomes current at once even if a download was in flight |
| DownloadQueue.BulkAppendsOnly | Transloaded/ViewModels/TranslationViewModel.swift:117-123 | a bulk request only appends; with nothing needed nothing changes, and it advances only when no configuration is set |
| DownloadQueue.BulkNeededDistinct | Transloaded/ViewModels/TranslationViewModel.swift:80-115 | within one request no "src>tgt" key is enqueued twice |
| DownloadQueue.BulkNeededExactly | Transloaded/ViewModels/TranslationViewModel.swift:83-114 | a leg is enqueued exactly when it is a missing leg of a requested pair, and every enqueued leg is downloadable |
| DownloadQueue.CandidatesElements | Transloaded/ViewModels/TranslationViewModel.swift:83-114 | the candidates are exactly the missing legs of the pairs |
| DownloadQueue.CandidatesFlatten | Transloaded/ViewModels/TranslationViewModel.swift:83-114 | the candidate legs are the missing legs of each requested pair, concatenated in request order |
| DownloadQueue.DedupElements | Transloaded/ViewModels/TranslationViewModel.swift:91-108 | deduplication keeps every leg and adds none |
| DownloadQueue.DedupDistinct | Transloaded/ViewModels/TranslationViewModel.swift:91-108 | the deduplicated legs are pairwise distinct and no more than the candidates |
| DownloadQueue.FailClearsQueue | Transloaded/ViewModels/TranslationViewModel.swift:170-177 | a failure empties the queue, clears the configuration and current pair, and does not count as completion |
| DownloadQueue.OperationsKeepConsistent | Transloaded/ViewModels/TranslationViewModel.swift:129-151 | every operation keeps the configuration and the current pair in step |
| LegacyDownloadQueue.TranslationViewModel.constructor | TranslationViewModel.swift:8-19 | empty status, not preparing, no configuration, nothing pending, and a fresh service |
| LegacyDownloadQueue.TranslationViewModel.PrepareTranslation | TranslationViewModel.swift:25-54 | the fields become `Prepare` of the old ones; the service caches a session only for an installed uncached pair |
| LegacyDownloadQueue.TranslationViewModel.OnTranslationDownloadComplete | TranslationViewModel.swift:57-63 | the fields become `Complete` of the old ones |
| LegacyDownloadQueue.TranslationViewModel.OnTranslationDownloadFailed | TranslationViewModel.swift:66-71 | the fields become `Failed` of the old ones |
| LegacyDownloadQueue.TranslationViewModel.EnqueueMissingLegs | TranslationViewModel.swift:75-93 | the pending legs are replaced by exactly the missing legs of the pair; status, preparing flag and configuration are unchanged |
| LegacyDownloadQueue.TranslationViewModel.TriggerNextDownload | TranslationViewModel.swift:97-108 | the fields become `Trigger` of the old ones |
| LegacyDownloadQueue.DisplayNameInjective | TranslationViewModel.swift:114-118 | two configurations with the same display name are the same pair |
| LegacyDownloadQueue.TriggerDrivesOneLeg | TranslationViewModel.swift:97-108 | nothing starts while a configuration is set; with an empty queue, preparing stops and an empty status becomes "Ready"; otherwise the front leg alone starts, announced as "Downloading: A → B…" |
| LegacyDownloadQueue.PrepareReplacesPending | TranslationViewModel.swift:25-54 | installed ends with "Language packs installed"; nothing to download happens only for an unsupported pair and ends with "Language pair unsupported"; otherwise the pending legs are replaced and the first starts unless one is running |
| LegacyDownloadQueue.CompletionAndFailureContinue | TranslationViewModel.swift:57-71 | completion announces "Installed: A → B", releases the configuration and triggers the next leg; failure also starts the next pending leg, and with none left reports "Download failed: …" and stops preparing |
| RecentItems.WithoutURL | Transloaded/Services/RecentItemsManager.swift:50 | the result has no entry for the URL and keeps every other entry |
| RecentItems.AddRecentPutsFirst | Transloaded/Services/RecentItemsManager.swift:48-56 | the new entry is first and its URL appears once; there are at most ten entries; the rest are the earlier entries for other URLs in order, cut from the end to fit |
| RecentItems.AddRecentKeepsDistinct | Transloaded/Services/RecentItemsManager.swift:48-56 | adding keeps the URLs distinct |
| RecentItems.WithoutURLKeepsDistinct | Transloaded/Services/RecentItemsManager.swift:50 | removing a URL keeps the URLs distinct |
| RecentItems.RecentItemsManager.constructor | Transloaded/Services/RecentItemsManager.swift:19-22 | each list holds one entry per stored URL, in order, named by its last path component |
| RecentItems.RecentItemsManager.AddRecentFile | Transloaded/Services/RecentItemsManager.swift:24-26 | only the files list changes, by `AddRecent` |
| RecentItems.RecentItemsManager.AddRecentFolder | Transloaded/Services/RecentItemsManager.swift:28-30 | only the folders list changes, by `AddRecent` |
| RecentItems.RecentItemsManager.ClearAll | Transloaded/Services/RecentItemsManager.swift:32-37 | both lists are empty |
| RecentItems.AddRecentTo | Transloaded/Services/RecentItemsManager.swift:48-56 | the steps on the `inout` list compute `AddRecent` |
| Settings.KnownLanguages | Transloaded/ViewModels/SettingsState.swift:52 | the result holds exactly the languages whose raw values are stored, unknown ones dropped |
| Settings.LoadedLanguagesNonEmpty | Transloaded/ViewModels/SettingsState.swift:50-56 | loading never gives an empty list; a missing or all-unknown list gives `defaultActive`; any other loaded language was stored |
| Settings.RemoveAll | Transloaded/ViewModels/SettingsState.swift:92 | the language is gone and every other language is kept |
| Settings.ToggleAsWrittenCanEmpty | Transloaded/ViewModels/SettingsState.swift:89-92 | a list holding the same language twice is emptied by toggling it |
| Settings.ToggleFlips | Transloaded/ViewModels/SettingsState.swift:88-96 | an inactive language is appended; an active one loses all its occurrences unless it is the only language; a non-empty list stays non-empty |
| Settings.ToggleAgreesWithoutDuplicates | Transloaded/ViewModels/SettingsState.swift:88-96 | on a list without repeats the written guard behaves as intended |
| Settings.ToggleKeepsDistinct | Transloaded/ViewModels/SettingsState.swift:88-96 | toggling keeps the list free of repeats |
| Settings.RemoveAllKeepsDistinct | Transloaded/ViewModels/SettingsState.swift:92 | removing keeps the list free of repeats |
| Settings.SettingsState.constructor | Transloaded/ViewModels/SettingsState.swift:49-86 | each field is loaded from its stored value; the save pattern defaults to "{name}_{lang}.{ext}" |
| Settings.SettingsState.ToggleLanguage | Transloaded/ViewModels/SettingsState.swift:88-96 | the list becomes `ToggleAsWritten` of the old one: the guard counts entries, as the source does, so a stored list holding one language twice can be emptied; on lists without repeats this is `Toggle` |
| Settings.SettingsState.IsLanguageActive | Transloaded/ViewModels/SettingsState.swift:98-100 | true exactly when the language is in the active list |
| Sidebar.LoadItem | Transloaded/Services/FileSystemService.swift:7-45 | the loaded item keeps its id and the URL it was loaded from, named by the last path component |
| Sidebar.AddedRoots | Transloaded/ViewModels/SidebarViewModel.swift:53-59 | adding never removes a root |
| Sidebar.AddURLsAppendsNew | Transloaded/ViewModels/SidebarViewModel.swift:53-59 | the old roots stay in order, followed by one item per new URL in the order given, each with its own URL |
| Sidebar.HasURLAfter | Transloaded/ViewModels/SidebarViewModel.swift:55 | after appending, a URL is present exactly when it was present before or was appended |
| Sidebar.NewURLsAreNew | Transloaded/ViewModels/SidebarViewModel.swift:53-59 | each appended URL was requested and absent before, and a URL repeated in one call is added once |
| Sidebar.AddURLsKeepsDistinct | Transloaded/ViewModels/SidebarViewModel.swift:53-59 | adding keeps the root URLs pairwise distinct |
| Sidebar.RemoveID | Transloaded/ViewModels/SidebarViewModel.swift:45 | removing never adds a root |
| Sidebar.RemoveIDRemovesExactly | Transloaded/ViewModels/SidebarViewModel.swift:44-46 | exactly the roots with that id are removed |
| Sidebar.RemoveIDDistributes | Transloaded/ViewModels/SidebarViewModel.swift:44-46 | removal works piecewise, so the rest keep their order |
| Sidebar.RemoveIDAbsent | Transloaded/ViewModels/SidebarViewModel.swift:44-46 | roots without that id are kept as they are |
| Sidebar.NoIDAround | Transloaded/ViewModels/SidebarViewModel.swift:44-46 | a root whose id is unique has no other root with that id before or after it |
| Sidebar.RemoveIDExactly | Transloaded/ViewModels/SidebarViewModel.swift:44-46 | removing the only root with an id leaves the others exactly, in order |
| Sidebar.RemoveIDKeepsDistinct | Transloaded/ViewModels/SidebarViewModel.swift:44-46 | removing keeps the root URLs pairwise distinct |
| Sidebar.SidebarViewModel.constructor | Transloaded/ViewModels/SidebarViewModel.swift:7-11 | no roots and no open requests |
| Sidebar.SidebarViewModel.AddURLs | Transloaded/ViewModels/SidebarViewModel.swift:53-59 | the loop leaves the roots as `AddedRoots` says and uses one fresh id per added root |
| Sidebar.SidebarViewModel.AddFile | Transloaded/ViewModels/SidebarViewModel.swift:35-41 | a cancelled panel changes nothing; otherwise the chosen URLs are added as by `addURLs` |
| Sidebar.SidebarViewModel.AddDirectory | Transloaded/ViewModels/SidebarViewModel.swift:20-25 | a cancelled panel or a URL already present changes nothing; otherwise one item is appended |
| Sidebar.SidebarViewModel.RemoveRoot | Transloaded/ViewModels/SidebarViewModel.swift:44-46 | the roots become `RemoveID` of the old ones |
| Sidebar.SidebarViewModel.HandleDoubleClick | Transloaded/ViewModels/SidebarViewModel.swift:48-51 | the item's URL is handed on exactly when it is a text file, not a directory, and a callback is installed |
| CameraImport.ParseInt | Transloaded/Services/CameraImportService.swift:50 | a parsed number fits a 64-bit `Int` |
| CameraImport.ScanNumber | Transloaded/Services/CameraImportService.swift:47-50 | a counted scan number fits a 64-bit `Int` |
| CameraImport.ScanNumbers | Transloaded/Services/CameraImportService.swift:46-53 | one entry per directory item |
| CameraImport.ScanNumbersAt | Transloaded/Services/CameraImportService.swift:46-53 | the entry at each position is that item's scan number |
| CameraImport.MaxNumberIsMax | Transloaded/Services/CameraImportService.swift:45-53 | the running maximum is at least 0 and at least every counted number, and is 0 or one of them |
| CameraImport.ScanNumbersStep | Transloaded/Services/CameraImportService.swift:46-53 | after one more item the running maximum is that item's number if it is larger, else the old maximum |
| CameraImport.ComputeMaxNumber | Transloaded/Services/CameraImportService.swift:45-53 | the loop over the folder's entries ends with the running maximum `MaxNumber` of their scan numbers |
| CameraImport.ComputeNextScanNumber | Transloaded/Services/CameraImportService.swift:35-56 | the method computes `NextScanNumber`: 1 for an unreadable folder, else one past the maximum |
| CameraImport.NextIsPositive | Transloaded/Services/CameraImportService.swift:37-55 | an unreadable folder gives 1, and any next number is at least 1 |
| CameraImport.NextTrapsOnlyAtIntMax | Transloaded/Services/CameraImportService.swift:55 | `maxNumber + 1` overflows exactly when a name already carries `Int.max` |
| CameraImport.MaxReachesBound | Transloaded/Services/CameraImportService.swift:51 | the maximum reaches `Int.max` exactly when some number is `Int.max` |
| CameraImport.NextExceedsEveryScan | Transloaded/Services/CameraImportService.swift:45-55 | the next number is larger than every counted number |
| CameraImport.ScanNumbersBounded | Transloaded/Services/CameraImportService.swift:50 | every counted number fits an `Int` |
| CameraImport.OtherNamesIgnored | Transloaded/Services/CameraImportService.swift:48 | a name without the `scan_` prefix never counts |
| CameraImport.Digits | Transloaded/Services/CameraImportService.swift:23 | the decimal digits of a number form a non-empty digit string |
| CameraImport.Format03 | Transloaded/Services/CameraImportService.swift:23 | the intended zero-padded form of the whole number (what `%03ld` writes) is a digit string of at least three characters |
| CameraImport.Int32Of | Transloaded/Services/CameraImportService.swift:23 | what `%d` reads of a 64-bit `Int` lies in the range of a 32-bit signed `int` |
| CameraImport.ScanNameAsWrittenAgrees | Transloaded/Services/CameraImportService.swift:23 | below 2^31 the written `%03d` names a scan with all its digits, as `ScanName` does |
| CameraImport.ScanNameAsWrittenWraps | Transloaded/Services/CameraImportService.swift:23 | the written `%03d` gives `n` and `n + 2^32` the same name |
| CameraImport.ScanNameAsWrittenOverwrites | Transloaded/Services/CameraImportService.swift:22-23 | a folder holding `scan_k` and `scan_(k + 2^32 - 1)` hands out `k + 2^32` next, which the written format names `scan_k`, the base name of an existing scan |
| CameraImport.NextAfterTwoScans | Transloaded/Services/CameraImportService.swift:45-55 | two saved scans numbered x < y leave y + 1 as the next number |
| CameraImport.MaxOfTwo | Transloaded/Services/CameraImportService.swift:45-52 | the running maximum over two numbers 0 <= x < y is y |
| CameraImport.DigitsValueOfDigits | Transloaded/Services/CameraImportService.swift:23 | the digits of a number read back as that number |
| CameraImport.LeadingZeros | Transloaded/Services/CameraImportService.swift:23 | leading zeros do not change the value read |
| CameraImport.ZerosValue | Transloaded/Services/CameraImportService.swift:23 | a run of zeros reads as 0 |
| CameraImport.Format03Value | Transloaded/Services/CameraImportService.swift:23 | the intended zero-padded number reads back as that number; the written `%03d` does so only below 2^31 (`ScanNameAsWrittenAgrees`) |
| CameraImport.NextAfterSavedScan | Transloaded/Services/CameraImportService.swift:22-23 | once `scan_NNN.ext` is in the folder, the next number is larger than NNN |
| CameraImport.SavedScanCountsAsItsNumber | Transloaded/Services/CameraImportService.swift:47-50 | a saved `scan_NNN.ext` counts for exactly NNN |
| CameraImport.SavedScanBaseName | Transloaded/Services/CameraImportService.swift:22-23 | the name of a saved `scan_NNN.ext` without its extension is `scan_NNN`, in any folder |
| CameraImport.ScanNameSegment | Transloaded/Services/CameraImportService.swift:49 | the last piece of `scan_NNN` after an underscore is the zero-padded number |
| CameraImport.PaddedParses | Transloaded/Services/CameraImportService.swift:50 | `Int(_:)` reads the zero-padded number back as that number |
| CameraImport.NameHasNoSeparators | Transloaded/Services/CameraImportService.swift:23 | a scan name has no '/' or '.', and does not end in '_' |
| CameraImport.LastUnderscore | Transloaded/Services/CameraImportService.swift:49 | in `scan_` followed by digits, the last '_' is the prefix's, so the last segment is the digits |
| PDFService.ExtractText | Transloaded/Services/PDFService.swift:35-81 | the page loop and the final choice compute `Extract`, whose threshold is tested on each page's `count` in grapheme clusters |
| PDFService.CollectPage | Transloaded/Services/PDFService.swift:50-67 | one iteration extends the collected pages as `Collect` does for one more page |
| PDFService.CollectFailureSticks | Transloaded/Services/PDFService.swift:58 | once a page's OCR has thrown, the whole extraction throws that error |
| PDFService.LongNativeTextSkipsOcr | Transloaded/Services/PDFService.swift:54-55 | a page whose native text counts at least 20 characters (grapheme clusters, as `String.count`) contributes it, whatever OCR or rendering would give |
| PDFService.ShortPageChoice | Transloaded/Services/PDFService.swift:56-67 | a page counting fewer than 20 grapheme clusters uses non-empty OCR text when it renders; otherwise its native text if any; it is left out exactly when both are empty |
| PDFService.CollectMeaning | Transloaded/Services/PDFService.swift:46-68 | on pages whose count is zero only for empty text, every collected text is non-empty, and `usedOCR` holds exactly when some page's text came from OCR |
| PDFService.JoinEmpty | Transloaded/Services/PDFService.swift:70 | joining non-empty parts gives "" only for no parts |
| PDFService.ExtractionEmptyMeaning | Transloaded/Services/PDFService.swift:40-74 | the result has the true page count, and its method is `.empty` exactly when its text is empty, which is exactly when no page contributed |
| PDFService.ExtractionOcrMeaning | Transloaded/Services/PDFService.swift:76-80 | the method is `.ocr` exactly when some page's text came from OCR |
| PDFService.OcrPageContributes | Transloaded/Services/PDFService.swift:59-61 | a page whose text came from OCR makes the collected text non-empty |
| PDFService.JoinAppends | Transloaded/Services/PDFService.swift:70 | joined text holds the pages in order, with one separator between neighbours |
| AppModels.FindFileAtIndex | Transloaded/ViewModels/AppState.swift:473 | `first(where:)` is the element at `firstIndex(where:)` |
| AppModels.ActiveFile | Transloaded/ViewModels/AppState.swift:33-36 | there is an active file exactly when the active id is that of an open file, and then it is that file |
| AppModels.VisibleMembers | Transloaded/ViewModels/AppState.swift:38-41 | a panel is visible exactly when it exists and belongs to the active file |
| AppModels.FileIndexOf | Transloaded/ViewModels/AppState.swift:427 | with unique ids, looking up a file's id finds its own position |
| AppModels.PanelIndexOf | Transloaded/ViewModels/AppState.swift:471 | with unique ids, looking up a panel's id finds its own position |
| AppModels.SameIDsSameIndex | Transloaded/ViewModels/AppState.swift:490 | a panel's position depends only on the ids, so the position recorded before a write stays valid |
| AppModels.SamePanelsValid | Transloaded/Models/TranslationPanel.swift:4-9 | changing only the mutable fields of panels keeps the state invariant |
| AppModels.SameFileIDsValid | Transloaded/Models/OpenFile.swift:10-22 | changing files other than in their ids keeps the state invariant |
| AppModels.Effect | Transloaded/ViewModels/AppState.swift:470-485 | a panel keeps its identity and content; a request is started only for that panel and its target, and then the panel is translating with no error |
| AppModels.EffectCases | Transloaded/ViewModels/AppState.swift:473-485 | no source language sets "Source language unknown" and stops translating; with a service, the file's content is sent from the selected language, else the detected one; without a service nothing changes |
| AppModels.EffectWithoutFile | Transloaded/ViewModels/AppState.swift:473 | a panel whose file is not open is left alone |
| AppModels.TranslateContentSpec | Transloaded/ViewModels/AppState.swift:470-485 | only the named panel changes, as `Effect` says, with its request added; a missing panel changes nothing; the invariant is kept |
| AppModels.TranslateContentValid | Transloaded/ViewModels/AppState.swift:470-485 | `translateContent` keeps the invariant |
| AppModels.RetriedPanels | Transloaded/ViewModels/AppState.swift:459-461 | retrying keeps the number of panels, and each panel is retried on its own, at its own position, as `translateContent` would one panel |
| AppModels.RequestsForMembers | Transloaded/ViewModels/AppState.swift:459-461 | a request is started exactly for a retried panel's effect |
| AppModels.RequestsForUnion | Transloaded/ViewModels/AppState.swift:459-461 | the requests for disjoint sets of panels add up |
| AppModels.RequestsForNone | Transloaded/ViewModels/AppState.swift:459-461 | no retried panel present means no request |
| AppModels.RequestsForSingle | Transloaded/ViewModels/AppState.swift:459-461 | retrying one panel starts exactly its own request |
| AppModels.RetriedNothing | Transloaded/ViewModels/AppState.swift:459-461 | retrying no panel changes nothing |
| AppModels.RetriedPanelsStep | Transloaded/ViewModels/AppState.swift:459-461 | one more id changes only the panel with that id |
| AppModels.RequestsForStep | Transloaded/ViewModels/AppState.swift:459-461 | one more id adds only that panel's request |
| AppModels.RetriedStep | Transloaded/ViewModels/AppState.swift:459-461 | one more `translateContent` for a new id extends the retried set by that id, whatever the order |
| AppModels.RetriedStepAbsent | Transloaded/ViewModels/AppState.swift:471 | an id with no panel changes nothing |
| AppModels.RetriedStepPresent | Transloaded/ViewModels/AppState.swift:459-461 | an id with a panel changes that panel and adds its request |
| AppModels.TranslateIsRetried | Transloaded/ViewModels/AppState.swift:452-454 | one `translateContent` is the retry of its one id |
| AppModels.RetriedValid | Transloaded/ViewModels/AppState.swift:456-468 | retrying keeps the invariant |
| AppModels.IDsOfFileMembers | Transloaded/ViewModels/AppState.swift:465 | the ids visited are exactly those of the panels of the file |
| AppModels.RetranslateStep | Transloaded/ViewModels/AppState.swift:465-467 | one pass of the loop translates a panel of the file once more and skips any other |
| AppModels.RetranslatedExactly | Transloaded/ViewModels/AppState.swift:464-468 | exactly the file's panels are re-run and no other panel changes; the requests started are exactly theirs |
| AppModels.IDsOfFileExactly | Transloaded/ViewModels/AppState.swift:465 | with unique ids, a panel's id is visited exactly when it belongs to the file |
| AppModels.AppendFileValid | Transloaded/ViewModels/AppState.swift:193-195 | appending a file with a fresh id keeps the invariant |
| AppModels.PrependFileValid | Transloaded/ViewModels/AppState.swift:528-530 | inserting a file with a fresh id at the front keeps the invariant |
| AppModels.AppendPanelValid | Transloaded/ViewModels/AppState.swift:439-441 | appending a panel with a fresh id for a new (file, language) pair keeps the invariant |
| AppModels.FilterFilesValid | Transloaded/ViewModels/AppState.swift:328 | removing files keeps the invariant |
| AppModels.FilterPanelsValid | Transloaded/ViewModels/AppState.swift:327 | removing panels keeps the invariant |
| AppModels.AddTranslationExisting | Transloaded/ViewModels/AppState.swift:435-437 | asking again for a pair that has a panel changes nothing |
| AppModels.AddTranslationNew | Transloaded/ViewModels/AppState.swift:434-443 | a new pair gets exactly one panel, at the end, with a fresh id; it becomes active and is translated at once; earlier panels and files are untouched; at most one panel per pair is kept |
| AppModels.AddTranslationLands | Transloaded/ViewModels/AppState.swift:434-443 | afterwards the pair has a panel, the files are the same, and the invariant holds |
| AppModels.CloseTranslationSpec | Transloaded/ViewModels/AppState.swift:445-450 | the panel is gone and all others stay; if it was active, the new active panel is the last of the active file's remaining panels, and there is none only when that file has no panel left |
| AppModels.CloseTranslationValid | Transloaded/ViewModels/AppState.swift:445-450 | `closeTranslation` keeps the invariant |
| AppModels.CompletionOf | Transloaded/ViewModels/AppState.swift:488-510 | success gives the translation; exactly `downloadRequired` asks for a download; an unsupported pair shows its description and an engine error its own message |
| AppModels.WritePanel | Transloaded/ViewModels/AppState.swift:490-493 | writing the mutable fields of the panel found by id changes only that panel |
| AppModels.CompleteTranslationSpec | Transloaded/ViewModels/AppState.swift:487-511 | a completion changes at most the panel with its id, never a panel's identity, the files or the active ids, and no panel if that one is closed; only a missing download touches the pending set, by adding this panel |
| AppModels.CompleteTranslationValid | Transloaded/ViewModels/AppState.swift:487-511 | a completion keeps the invariant |
| AppModels.CompleteTranslationSuccess | Transloaded/ViewModels/AppState.swift:489-493 | success on an open panel shows the text and stops translating |
| AppModels.CompleteTranslationDownload | Transloaded/ViewModels/AppState.swift:495-498 | a missing download leaves every panel as it was, adds the panel to the pending set and, when a view model is attached, asks it to prepare the pair |
| AppModels.RetryPendingSpec | Transloaded/ViewModels/AppState.swift:456-462 | afterwards nothing is pending; exactly the pending panels are re-run, and the requests started are exactly theirs |
| AppModels.NewEntry | Transloaded/ViewModels/AppState.swift:182-195 | the new entry has a fresh id, the URL and its last component as name, no content, and is a PDF, an image or a text file by the type tests in that order |
| AppModels.OpenFileAlreadyOpen | Transloaded/ViewModels/AppState.swift:46-49 | opening a URL that is open only makes that file active |
| AppModels.OpenFileLarge | Transloaded/ViewModels/AppState.swift:53-60 | a text file over 1 000 000 bytes that is not open is only remembered, with the alert raised |
| AppModels.OpenFileNew | Transloaded/ViewModels/AppState.swift:45-63 | any other URL that is not open is appended as the active file with a fresh id; the invariant and distinct URLs are kept |
| AppModels.PerformOpenValid | Transloaded/ViewModels/AppState.swift:182-190 | `performOpenFile` keeps the invariant |
| AppModels.AutoTarget | Transloaded/ViewModels/AppState.swift:210-213 | a panel opens for the default target exactly when one is set and differs from the detected language |
| AppModels.ContentArrivedSpec | Transloaded/ViewModels/AppState.swift:204-213 | a load for an open file stores the text, and the detected language as both detected and selected; other files are untouched; a panel for the default target exists afterwards exactly in the `AutoTarget` case |
| AppModels.TextLoadFailed | Transloaded/ViewModels/AppState.swift:214-218 | a failed read reports "Failed to open <name>: <error>", closes the entry, and touches no panel |
| AppModels.CloseFileSpec | Transloaded/ViewModels/AppState.swift:323-333 | the file and all its panels are gone and everything else stays; if it was active the last remaining file becomes active, or none when no file is left |
| AppModels.CloseFileValid | Transloaded/ViewModels/AppState.swift:323-333 | `closeFile` keeps the invariant |
| AppModels.SetActiveFileSpec | Transloaded/ViewModels/AppState.swift:335-338 | an open id becomes active and nothing else changes; any other id changes nothing |
| AppModels.SetSourceLanguageSpec | Transloaded/ViewModels/AppState.swift:426-430 | the choice is stored; with a service, every panel of the file starts translating from that language; other panels are untouched |
| AppModels.OpenScrapbookSpec | Transloaded/ViewModels/AppState.swift:521-531 | afterwards exactly one scrapbook is open and active: the open one if any, else a new empty one in front |
| AppModels.OpenFileKeepsOneScrapbook | Transloaded/ViewModels/AppState.swift:45-63 | opening a file never adds a second scrapbook |
| AppModels.CloseScrapbookSpec | Transloaded/ViewModels/AppState.swift:533-543 | a non-scrapbook is never closed here; a scrapbook with text asks for confirmation; an empty one closes at once |
| AppModels.DetectKeepsChosenSource | Transloaded/ViewModels/AppState.swift:575-584 | detection refreshes the scrapbook's detected language and keeps a source language the user chose |
| AppModels.SavePromptSpec | Transloaded/ViewModels/AppState.swift:588-595 | for the open active panel's file `dir/name.ext`, the default pattern suggests `name_<code>.ext` in the file's directory, and the panel's translation is what is written |
| AppModels.SuggestedName | Transloaded/ViewModels/AppState.swift:594 | the last component of the default save URL of `dir/name.ext` is `name_<code>.ext` |
| AppModels.NoSlashIn | Transloaded/ViewModels/AppState.swift:614-617 | the filled-in name has no '/' when its parts have none |
| AppModels.SavePromptNeedsFile | Transloaded/ViewModels/AppState.swift:589-591 | a save is offered only for an active panel whose file is open, and it writes that panel's translation |
| AppModels.LanguageCodePlain | Transloaded/Models/SupportedLanguage.swift:57-80 | every language code is non-empty and has no '{', '.' or '/' |
| AppModels.NoBraceNoToken | Transloaded/ViewModels/AppState.swift:615-617 | a token starting with '{' cannot start inside text without '{' |
| AppModels.ReplaceOnce | Transloaded/ViewModels/AppState.swift:615-617 | a token occurring once is replaced once |
| AppModels.BraceFree | Transloaded/ViewModels/AppState.swift:615-617 | text without '{' holds no token |
| AppModels.OnlyAtBraces | Transloaded/ViewModels/AppState.swift:615-617 | text whose braces each start no token holds none |
| AppModels.SkipPlain | Transloaded/ViewModels/AppState.swift:615-617 | text without '{' is copied unchanged by a replacement |
| AppModels.SkipOther | Transloaded/ViewModels/AppState.swift:615-617 | another token is copied unchanged by a replacement |
| AppModels.FillFirst | Transloaded/ViewModels/AppState.swift:615 | the first token of `n_l.e` is replaced when the later tokens are different |
| AppModels.FillName | Transloaded/ViewModels/AppState.swift:615 | the default pattern with `{name}` filled is `name_{lang}.{ext}` |
| AppModels.FillLang | Transloaded/ViewModels/AppState.swift:616 | then `{lang}` is filled by the code |
| AppModels.FillExt | Transloaded/ViewModels/AppState.swift:617 | then `{ext}` is filled by the extension |
| AppModels.DefaultPatternFilled | Transloaded/ViewModels/AppState.swift:613-617 | filling the default pattern in order gives `name_<code>.ext` |
| AppModels.SaveNameDefault | Transloaded/ViewModels/AppState.swift:613-617 | with an extension, the default pattern names `name.ext` as `name_<code>.ext` |
| AppModels.SaveNameDefaultBare | Transloaded/ViewModels/AppState.swift:619-622 | without an extension, the trailing dot is trimmed: `name` becomes `name_<code>` |
| AppModels.FileNameParts | Transloaded/ViewModels/AppState.swift:608-610 | `dir/name.ext` and `dir/name` give back directory, base name and extension |
| AppModels.DefaultSaveName | Transloaded/ViewModels/AppState.swift:607-625 | with the default pattern, `dir/name.ext` is saved as `dir/name_<code>.ext` and `dir/name` as `dir/name_<code>`; `readme.md` in French gives `readme_fr.md` as an instance |
| AppModels.TrimDot | Transloaded/ViewModels/AppState.swift:621 | trimming dots from `w.` gives `w` when `w` neither starts nor ends with a dot |
| AppStates.AppState.constructor | Transloaded/ViewModels/AppState.swift:8-31 | a new state: no files, no panels, nothing active, pending or alerted |
| AppStates.AppState.OpenFile | Transloaded/ViewModels/AppState.swift:45-63 | the fields become `AppModels.OpenFile` of the old ones, and the invariant is kept |
| AppStates.AppState.ConfirmOpenLargeFile | Transloaded/ViewModels/AppState.swift:65-70 | the remembered URL is opened and the alert dropped |
| AppStates.AppState.CancelOpenLargeFile | Transloaded/ViewModels/AppState.swift:72-75 | the remembered URL and the alert are dropped |
| AppStates.AppState.PerformOpenFile | Transloaded/ViewModels/AppState.swift:182-195 | the new entry is appended and becomes active |
| AppStates.AppState.ContentArrived | Transloaded/ViewModels/AppState.swift:204-213 | the fields become `AppModels.ContentArrived` of the old ones |
| AppStates.AppState.TextLoaded | Transloaded/ViewModels/AppState.swift:199-218 | the text load completion: the content arrives, or the entry is closed with an error |
| AppStates.AppState.ImageRecognized | Transloaded/ViewModels/AppState.swift:242-262 | the OCR completion: the text arrives, or an error is shown and the empty entry stays |
| AppStates.AppState.PDFExtracted | Transloaded/ViewModels/AppState.swift:284-304 | the extraction completion: the text with page count and method arrives, or an error is shown |
| AppStates.AppState.CloseActiveFile | Transloaded/ViewModels/AppState.swift:313-316 | closes the active file, if any |
| AppStates.AppState.CloseFile | Transloaded/ViewModels/AppState.swift:323-333 | the fields become `AppModels.CloseFile` of the old ones |
| AppStates.AppState.SetActiveFile | Transloaded/ViewModels/AppState.swift:335-338 | the fields become `AppModels.SetActiveFile` of the old ones |
| AppStates.AppState.SetSourceLanguage | Transloaded/ViewModels/AppState.swift:426-430 | the fields become `AppModels.SetSourceLanguage` of the old ones |
| AppStates.AppState.AddTranslation | Transloaded/ViewModels/AppState.swift:434-443 | the fields become `AppModels.AddTranslation` of the old ones |
| AppStates.AppState.CloseTranslation | Transloaded/ViewModels/AppState.swift:445-450 | the fields become `AppModels.CloseTranslation` of the old ones |
| AppStates.AppState.RetryTranslation | Transloaded/ViewModels/AppState.swift:452-454 | the fields become `AppModels.TranslateContent` of the old ones |
| AppStates.AppState.RetryPendingDownloads | Transloaded/ViewModels/AppState.swift:456-462 | the loop over the pending set, in whatever order it picks, ends in `AppModels.RetryPendingDownloads` of the old fields |
| AppStates.AppState.RetranslateAllPanels | Transloaded/ViewModels/AppState.swift:464-468 | the loop over the panels ends in `AppModels.Retranslated` of the old fields |
| AppStates.AppState.TranslateContent | Transloaded/ViewModels/AppState.swift:470-485 | the fields become `AppModels.TranslateContent` of the old ones |
| AppStates.AppState.CompleteTranslation | Transloaded/ViewModels/AppState.swift:487-511 | the fields become `AppModels.CompleteTranslation` of the old ones for the service's outcome |
| AppStates.AppState.OpenScrapbook | Transloaded/ViewModels/AppState.swift:521-531 | the fields become `AppModels.OpenScrapbook` of the old ones |
| AppStates.AppState.CloseScrapbook | Transloaded/ViewModels/AppState.swift:533-543 | the fields become `AppModels.CloseScrapbook` of the old ones |
| AppStates.AppState.ConfirmCloseScrapbook | Transloaded/ViewModels/AppState.swift:545-550 | the remembered scrapbook is closed and the alert dropped |
| AppStates.AppState.CancelCloseScrapbook | Transloaded/ViewModels/AppState.swift:552-555 | the remembered scrapbook and the alert are dropped |
| AppStates.AppState.UpdateScrapbookContent | Transloaded/ViewModels/AppState.swift:557-559 | the open scrapbook takes the new content |
| AppStates.AppState.OnScrapbookFocusLost | Transloaded/ViewModels/AppState.swift:570-573 | detection runs at once |
| AppStates.AppState.DetectAndRetranslateScrapbook | Transloaded/ViewModels/AppState.swift:575-584 | the fields become `AppModels.DetectAndRetranslateScrapbook` of the old ones |
| AppStates.AppState.SaveActiveTranslation | Transloaded/ViewModels/AppState.swift:588-597 | the save panel is offered the prompt `AppModels.SavePromptOf` gives, and nothing changes |
| AppStates.AppState.SaveFailed | Transloaded/ViewModels/AppState.swift:601-604 | a failed write shows "Failed to save translation: <error>" |

## Left out

- TranslationServices.TranslationService.Translate: requires `Terminates`. Either the pair resolves directly, or neither end is English, the leg source → English resolves directly, and that leg fails or the leg English → target resolves directly too. In every other case the Swift `translate` never returns. An English end makes one leg the original call again, and an unresolved leg that runs re-enters `translate` with the same arguments and the same cache. The model does not claim that those calls terminate.
- The SwiftUI and AppKit views and the app wiring are left out. They are presentation and event glue.
- The `.translationTask` handler and `saveActiveTranslationAs` are left out. They call members that the shown view models do not define, so each file is modelled on its own terms.
- `restoreFile`, `reloadActiveFile`, `reloadFile`, `markFileAsExternallyModified` and `dismissReloadBanner` in `AppState` are left out. They belong to the file watcher and session restore, outside the orchestration modelled here.
- `FileWatcherService` is left out. It is dispatch sources and file descriptors.
- The `recentItemsManager?.addRecentFile` call inside `AppState` is left out. The recent-items logic is modelled on its own in `RecentItems`.
- `OCRService` and the `ocrConfidence` field of `OpenFile` are left out. They are Vision-framework work and floating-point averaging.
- The internals of `detectLanguage` (`NLLanguageRecognizer`) are an input function of the text.
- The file-system type tests are input functions of the URL. File sizes, read results and OCR results are method parameters.
- The whole translation service is one flag in `AppModels.Env`. The view model and the settings are attached or not for the object's lifetime, and the settings do not change while `AppState` runs.
- Persistence is left out: UserDefaults, security-scoped bookmarks, and the `NSSavePanel` with its write. The result of a write is an input (`SaveFailed`), and stored settings and bookmarks are constructor arguments.
- `CameraImportService.saveImage` and its HEIC/JPEG encoding are left out, and so is `CameraImportError`. What is modelled of them is the name a scan gets and the number the next one gets.
- PDF page rendering and `renderPageToImage` are left out. A page is given as its trimmed native text, whether it rendered, and what OCR returned.
- PDFService.PageContribution: Swift's `nativeText.count` counts grapheme clusters, and Unicode text segmentation is not modelled. Each page carries that count as an input (`Page.nativeCount`), and the 20-character threshold is tested on it. The lemmas that need it assume only that the count is zero exactly for empty text and at most the number of scalars (`CountedDocument`).
- Concurrency is left out: actor isolation, `Task` hand-offs, `Task.detached` and cancellation. Each completion is a method that the environment may call at any time.
- The 800 ms scrapbook debounce is left out. `UpdateScrapbookContent` stores the text, and the detection runs when `DetectAndRetranslateScrapbook` is called.
- `FileSystemService` is left out apart from the fact that a loaded item keeps its URL. Directory traversal, sorting and children are not modelled.
- `TutorialPage`, `ImageQualityOption` and `FileItem` equality are left out. They are static content or presentation.
- URLs are path strings, with `lastPathComponent`, `deletingLastPathComponent`, `appendingPathComponent` and `pathExtension` written out for '/'-separated paths. File URL normalisation is not modelled.
- AppModels.DefaultSaveName: proved for the default pattern and for names and extensions without '.', '/' or '{'. No concrete file name is worked through by itself; `readme.md` in French is an instance of the lemma.
- CameraImport.Format03: this is the intended `%03ld` form. The source's `%03d` reads only a 32-bit `int`, which `ScanNameAsWritten` models; see Findings.
- CameraImport.Format03Value: holds of the intended format only. For the written `%03d` it holds below 2^31, and numbers 2^32 apart share a name (`ScanNameAsWrittenWraps`).
- AppStates.AppState.ConfirmOpenLargeFile: as in the source, the remembered URL is opened without checking again whether it is open already. Distinct file URLs are therefore proved only for `openFile`.
- AppModels.TextLoadFailed: as in the source, a failed read removes the entry but not its panels, and not the active id.

## Findings

| source | as written | input that shows it | evidently intended | confidence | as-written member | corrected member |
|---|---|---|---|---|---|---|
| Transloaded/ViewModels/SettingsState.swift:91 | `guard activeLanguages.count > 1` counts entries, so a language listed twice counts as two and both entries are removed | stored active languages `["fr-FR", "fr-FR"]`, then toggling French gives an empty list | never deactivate the last remaining language, whatever the number of entries | low: the app itself never stores a repeat, so only an edited defaults file shows it; not executed | Settings.ToggleAsWrittenCanEmpty | Settings.ToggleFlips |
| Transloaded/Services/CameraImportService.swift:23 | `String(format: "scan_%03d", nextNumber)` passes a 64-bit `Int` to `%d`, which reads a 32-bit `int`: the low 32 bits, taken as signed | a folder holding `scan_005.heic` and `scan_4294967300.heic`: the next number is 4294967301, which `%03d` writes as `scan_005`, so the new scan is saved over the existing one | a name carrying every digit of the number (`%03ld`), so a new scan never takes an existing scan's name | medium: it rests on the documented 32-bit width of `%d`, and needs a hand-named file in the folder; not executed | CameraImport.ScanNameAsWrittenOverwrites | CameraImport.NextAfterSavedScan |
