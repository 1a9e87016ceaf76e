/**
 * The document and panel state of the app, as values: the open files, the translation panels
 * beside them, which of each is active, the panels waiting for a language download, and the
 * alerts. Every operation of `AppState` is a function from one `Model` to the next; an
 * asynchronous `Task` is split into the part that runs at once and a completion that the
 * environment delivers later, in any order.
 */
module AppModels {
  import opened Wrappers
  import opened FoundationTypes
  import opened Languages
  import opened TranslationErrors
  import opened Availability
  import opened OpenFiles
  import opened TranslationPanels
  import opened Strings
  import opened Seqs
  import Settings
  import TS = TranslationServices
  import PDF = PDFService

  /** Text files larger than this many bytes ask for confirmation before opening. */
  const LargeFileThreshold: int := 1_000_000

  const SourceUnknown: string := "Source language unknown"

  /** What the app reads from its `SettingsState`, when it has one. */
  datatype SettingsSnapshot = SettingsSnapshot(
    defaultSourceLanguage: Option<SupportedLanguage>,
    defaultTargetLanguage: Option<SupportedLanguage>,
    translationSavePattern: string)

  /**
   * What the state depends on but does not own: whether the optional collaborators are
   * attached, the settings, `NLLanguageRecognizer` as a function of the text, and the
   * extension tests of the file system service.
   */
  datatype Env = Env(
    hasTranslationService: bool,
    hasTranslationViewModel: bool,
    settings: Option<SettingsSnapshot>,
    detectLanguage: string -> Option<SupportedLanguage>,
    isPDFFile: Url -> bool,
    isImageFile: Url -> bool)

  /** A call to `translate(text:from:to:)` started by `translateContent` for one panel. */
  datatype TranslationRequest = TranslationRequest(panelID: UUID, text: string, source: SupportedLanguage, target: SupportedLanguage)

  /**
   * The stored properties of `AppState`, with `nextID` standing for `UUID()`, `requests` the
   * translations started and not yet modelled as finished, and `preparations` the calls made
   * to `prepareTranslation(from:to:)`.
   */
  datatype Model = Model(
    files: seq<OpenFile>,
    activeFileID: Option<UUID>,
    panels: seq<TranslationPanel>,
    activePanelID: Option<UUID>,
    pending: set<UUID>,
    requests: multiset<TranslationRequest>,
    preparations: seq<LanguagePair>,
    showError: bool,
    errorMessage: string,
    showLargeFileAlert: bool,
    pendingLargeFileURL: Option<Url>,
    showCloseScrapbookAlert: bool,
    pendingCloseScrapbookID: Option<UUID>,
    nextID: nat)

  /** The state of a new `AppState`. */
  function Initial(): Model {
    Model([], None, [], None, {}, multiset{}, [], false, "", false, None, false, None, 0)
  }

  // ---------------------------------------------------------------------------------------
  // Lookups: `first(where:)`, `firstIndex(where:)`, `contains(where:)`, `filter` and `removeAll`.

  function FileID(f: OpenFile): UUID { f.id }
  function FileURL(f: OpenFile): Url { f.url }
  function PanelID(p: TranslationPanel): UUID { p.id }
  function PanelPair(p: TranslationPanel): (UUID, SupportedLanguage) { (p.fileID, p.targetLanguage) }

  function FileIndex(files: seq<OpenFile>, id: UUID): int {
    FirstIndex(files, (f: OpenFile) => f.id == id)
  }

  /** `first(where: { $0.id == id })`. */
  function FindFile(files: seq<OpenFile>, id: UUID): Option<OpenFile>
    decreases |files|
  {
    if files == [] then None
    else if files[0].id == id then Some(files[0])
    else FindFile(files[1..], id)
  }

  /** `first(where:)` is the element at `firstIndex(where:)`. */
  lemma {:induction false} FindFileAtIndex(files: seq<OpenFile>, id: UUID)
    ensures var i := FileIndex(files, id);
      FindFile(files, id) == if i < 0 then None else Some(files[i])
    decreases |files|
  {
    if files != [] && files[0].id != id {
      FindFileAtIndex(files[1..], id);
    }
  }

  function URLIndex(files: seq<OpenFile>, url: Url): int {
    FirstIndex(files, (f: OpenFile) => f.url == url)
  }

  function ScrapbookIndex(files: seq<OpenFile>): int {
    FirstIndex(files, (f: OpenFile) => f.IsScrapbook())
  }

  function PanelIndex(panels: seq<TranslationPanel>, id: UUID): int {
    FirstIndex(panels, (p: TranslationPanel) => p.id == id)
  }

  function PairIndex(panels: seq<TranslationPanel>, fileID: UUID, language: SupportedLanguage): int {
    FirstIndex(panels, (p: TranslationPanel) => p.fileID == fileID && p.targetLanguage == language)
  }

  function FilesWithoutID(files: seq<OpenFile>, id: UUID): seq<OpenFile> {
    Filter(files, (f: OpenFile) => f.id != id)
  }

  function PanelsWithoutFile(panels: seq<TranslationPanel>, fileID: UUID): seq<TranslationPanel> {
    Filter(panels, (p: TranslationPanel) => p.fileID != fileID)
  }

  function PanelsWithoutID(panels: seq<TranslationPanel>, id: UUID): seq<TranslationPanel> {
    Filter(panels, (p: TranslationPanel) => p.id != id)
  }

  function PanelsOfFile(panels: seq<TranslationPanel>, fileID: UUID): seq<TranslationPanel> {
    Filter(panels, (p: TranslationPanel) => p.fileID == fileID)
  }

  /** `activeFile`: the open file whose id is the active one, if any. */
  function ActiveFile(st: Model): (r: Option<OpenFile>)
    ensures r.Some? <==> st.activeFileID.Some? && exists i :: 0 <= i < |st.files| && st.files[i].id == st.activeFileID.value
    ensures r.Some? ==> r.value in st.files && Some(r.value.id) == st.activeFileID
  {
    match st.activeFileID
    case None => None
    case Some(id) =>
      var i := FileIndex(st.files, id);
      if i < 0 then None else Some(st.files[i])
  }

  /** `visibleTranslationPanels`: the panels of the active file, in order. */
  function Visible(st: Model): seq<TranslationPanel> {
    match st.activeFileID
    case None => []
    case Some(id) => PanelsOfFile(st.panels, id)
  }

  /** A panel is visible exactly when it exists and belongs to the active file. */
  lemma VisibleMembers(st: Model, p: TranslationPanel)
    ensures p in Visible(st) <==> p in st.panels && st.activeFileID == Some(p.fileID)
  {
    if st.activeFileID.Some? {
      FilterMembers(st.panels, (q: TranslationPanel) => q.fileID == st.activeFileID.value);
    }
  }

  lemma FileIndexOf(files: seq<OpenFile>, i: nat)
    requires DistinctBy(files, FileID) && i < |files|
    ensures FileIndex(files, files[i].id) == i
  {
    var k := FileIndex(files, files[i].id);
    assert 0 <= k <= i && FileID(files[k]) == FileID(files[i]);
  }

  lemma PanelIndexOf(panels: seq<TranslationPanel>, i: nat)
    requires DistinctBy(panels, PanelID) && i < |panels|
    ensures PanelIndex(panels, panels[i].id) == i
  {
    var k := PanelIndex(panels, panels[i].id);
    assert 0 <= k <= i && PanelID(panels[k]) == PanelID(panels[i]);
  }

  /** The position of an id only depends on the ids, in order. */
  lemma SameIDsSameIndex(a: seq<TranslationPanel>, b: seq<TranslationPanel>, id: UUID)
    requires |a| == |b| && forall i :: 0 <= i < |a| ==> a[i].id == b[i].id
    ensures PanelIndex(a, id) == PanelIndex(b, id)
  {
    var i, j := PanelIndex(a, id), PanelIndex(b, id);
    if i >= 0 && j >= 0 {
      assert !(i < j) && !(j < i);
    }
  }

  // ---------------------------------------------------------------------------------------
  // Invariant

  /** Every id was handed out before `nextID`. */
  predicate IDsBelow(st: Model) {
    (forall i :: 0 <= i < |st.files| ==> st.files[i].id < st.nextID) &&
    (forall i :: 0 <= i < |st.panels| ==> st.panels[i].id < st.nextID)
  }

  /**
   * File ids and panel ids are unique, no two panels translate the same file into the same
   * language, and the id counter is ahead of every id in use.
   */
  predicate ValidModel(st: Model) {
    DistinctBy(st.files, FileID) && DistinctBy(st.panels, PanelID) && DistinctBy(st.panels, PanelPair) && IDsBelow(st)
  }

  /** Changing only the mutable fields of panels keeps the invariant. */
  lemma SamePanelsValid(st: Model, panels: seq<TranslationPanel>)
    requires ValidModel(st) && |panels| == |st.panels|
    requires forall i :: 0 <= i < |panels| ==> SamePanel(st.panels[i], panels[i])
    ensures ValidModel(st.(panels := panels))
  {
    assert forall i :: 0 <= i < |panels| ==> PanelID(panels[i]) == PanelID(st.panels[i]) && PanelPair(panels[i]) == PanelPair(st.panels[i]);
  }

  /** Changing files other than in their ids keeps the invariant. */
  lemma SameFileIDsValid(st: Model, files: seq<OpenFile>)
    requires ValidModel(st) && |files| == |st.files|
    requires forall i :: 0 <= i < |files| ==> files[i].id == st.files[i].id
    ensures ValidModel(st.(files := files))
  {
    assert forall i :: 0 <= i < |files| ==> FileID(files[i]) == FileID(st.files[i]);
  }

  // ---------------------------------------------------------------------------------------
  // translateContent and the loops over it

  /**
   * What `translateContent` does to one panel and which translation it starts: nothing when
   * the file is gone or there is no service, an error when no source language is known, and
   * otherwise a request with the panel marked as translating and its error cleared.
   */
  function Effect(env: Env, files: seq<OpenFile>, p: TranslationPanel): (r: (TranslationPanel, Option<TranslationRequest>))
    ensures SamePanel(p, r.0) && r.0.translatedContent == p.translatedContent
    ensures r.1.Some? ==> r.1.value.panelID == p.id && r.1.value.target == p.targetLanguage && r.0.isTranslating && r.0.error.None?
  {
    match FindFile(files, p.fileID)
    case None => (p, None)
    case Some(file) =>
      var source := if file.selectedSourceLanguage.Some? then file.selectedSourceLanguage else file.detectedLanguage;
      match source
      case None => (p.(error := Some(SourceUnknown), isTranslating := false), None)
      case Some(s) =>
        if !env.hasTranslationService then (p, None)
        else (p.(isTranslating := true, error := None), Some(TranslationRequest(p.id, file.content, s, p.targetLanguage)))
  }

  /**
   * The three outcomes of `translateContent` for a panel whose file is open: no source language
   * gives the "Source language unknown" error and stops translating; with one and a service, the
   * file's content is sent from that language to the panel's.
   */
  lemma EffectCases(env: Env, files: seq<OpenFile>, p: TranslationPanel, i: nat)
    requires DistinctBy(files, FileID) && i < |files| && files[i].id == p.fileID
    ensures var e := Effect(env, files, p);
      var file := files[i];
      (file.selectedSourceLanguage.None? && file.detectedLanguage.None? ==>
        e == (p.(error := Some(SourceUnknown), isTranslating := false), None)) &&
      (file.selectedSourceLanguage.Some? && env.hasTranslationService ==>
        e.1 == Some(TranslationRequest(p.id, file.content, file.selectedSourceLanguage.value, p.targetLanguage))) &&
      (file.selectedSourceLanguage.None? && file.detectedLanguage.Some? && env.hasTranslationService ==>
        e.1 == Some(TranslationRequest(p.id, file.content, file.detectedLanguage.value, p.targetLanguage))) &&
      (!env.hasTranslationService && (file.selectedSourceLanguage.Some? || file.detectedLanguage.Some?) ==> e == (p, None))
  {
    FileIndexOf(files, i);
    FindFileAtIndex(files, p.fileID);
  }

  /** A panel whose file is not open is left alone. */
  lemma EffectWithoutFile(env: Env, files: seq<OpenFile>, p: TranslationPanel)
    requires forall i :: 0 <= i < |files| ==> files[i].id != p.fileID
    ensures Effect(env, files, p) == (p, None)
  {
    FindFileAtIndex(files, p.fileID);
  }

  function Started(r: Option<TranslationRequest>): multiset<TranslationRequest> {
    if r.Some? then multiset{r.value} else multiset{}
  }

  /** `translateContent(panelID:)`: a missing panel is ignored. */
  function TranslateContent(env: Env, st: Model, panelID: UUID): Model {
    var pi := PanelIndex(st.panels, panelID);
    if pi < 0 then st
    else
      var e := Effect(env, st.files, st.panels[pi]);
      st.(panels := st.panels[pi := e.0], requests := st.requests + Started(e.1))
  }

  /**
   * Only the named panel changes, and only in its flags, error and content; nothing but the
   * panels and the started requests changes, and the invariant is kept.
   */
  lemma TranslateContentSpec(env: Env, st: Model, panelID: UUID)
    requires ValidModel(st)
    ensures var r := TranslateContent(env, st, panelID);
      ValidModel(r) &&
      r == st.(panels := r.panels, requests := r.requests) &&
      |r.panels| == |st.panels| &&
      (forall i :: 0 <= i < |st.panels| && st.panels[i].id != panelID ==> r.panels[i] == st.panels[i]) &&
      (forall i :: 0 <= i < |st.panels| && st.panels[i].id == panelID ==>
        r.panels[i] == Effect(env, st.files, st.panels[i]).0 &&
        r.requests == st.requests + Started(Effect(env, st.files, st.panels[i]).1)) &&
      ((forall i :: 0 <= i < |st.panels| ==> st.panels[i].id != panelID) ==> r == st)
  {
    var r := TranslateContent(env, st, panelID);
    var pi := PanelIndex(st.panels, panelID);
    if pi >= 0 {
      forall i | 0 <= i < |st.panels| && st.panels[i].id == panelID
        ensures i == pi
      {
        PanelIndexOf(st.panels, i);
      }
      SamePanelsValid(st, r.panels);
    }
  }

  lemma TranslateContentValid(env: Env, st: Model, panelID: UUID)
    requires ValidModel(st)
    ensures ValidModel(TranslateContent(env, st, panelID))
  {
    TranslateContentSpec(env, st, panelID);
  }

  /** The panel after the loop body ran for it when its id is among `ids`. */
  function RetriedPanel(env: Env, files: seq<OpenFile>, p: TranslationPanel, ids: set<UUID>): TranslationPanel {
    if p.id in ids then Effect(env, files, p).0 else p
  }

  function RetriedPanels(env: Env, files: seq<OpenFile>, panels: seq<TranslationPanel>, ids: set<UUID>): (r: seq<TranslationPanel>)
    ensures |r| == |panels|
    ensures forall i :: 0 <= i < |panels| ==> r[i] == RetriedPanel(env, files, panels[i], ids)
    decreases |panels|
  {
    if panels == [] then []
    else RetriedPanels(env, files, panels[..|panels| - 1], ids) + [RetriedPanel(env, files, panels[|panels| - 1], ids)]
  }

  function Requested(env: Env, files: seq<OpenFile>, p: TranslationPanel, ids: set<UUID>): multiset<TranslationRequest> {
    if p.id in ids then Started(Effect(env, files, p).1) else multiset{}
  }

  /** The translations started for the panels whose ids are in `ids`. */
  function RequestsFor(env: Env, files: seq<OpenFile>, panels: seq<TranslationPanel>, ids: set<UUID>): multiset<TranslationRequest>
    decreases |panels|
  {
    if panels == [] then multiset{}
    else RequestsFor(env, files, panels[..|panels| - 1], ids) + Requested(env, files, panels[|panels| - 1], ids)
  }

  /**
   * `translateContent` run once for every id in `ids`, in any order: each of those panels
   * takes its own effect and starts its own request, independently of the others.
   */
  function Retried(env: Env, st: Model, ids: set<UUID>): Model {
    st.(panels := RetriedPanels(env, st.files, st.panels, ids),
        requests := st.requests + RequestsFor(env, st.files, st.panels, ids))
  }

  /** A request is started for exactly the panels whose ids are retried. */
  lemma {:induction false} RequestsForMembers(env: Env, files: seq<OpenFile>, panels: seq<TranslationPanel>, ids: set<UUID>, req: TranslationRequest)
    ensures req in RequestsFor(env, files, panels, ids) <==>
      exists i :: 0 <= i < |panels| && panels[i].id in ids && Effect(env, files, panels[i]).1 == Some(req)
    decreases |panels|
  {
    if panels != [] {
      var init := panels[..|panels| - 1];
      RequestsForMembers(env, files, init, ids, req);
      assert forall i :: 0 <= i < |init| ==> init[i] == panels[i];
      if req in RequestsFor(env, files, panels, ids) && req !in RequestsFor(env, files, init, ids) {
        assert Effect(env, files, panels[|panels| - 1]).1 == Some(req);
      }
    }
  }

  lemma {:induction false} RequestsForUnion(env: Env, files: seq<OpenFile>, panels: seq<TranslationPanel>, a: set<UUID>, b: set<UUID>)
    requires a !! b
    ensures RequestsFor(env, files, panels, a + b) == RequestsFor(env, files, panels, a) + RequestsFor(env, files, panels, b)
    decreases |panels|
  {
    if panels != [] {
      var init := panels[..|panels| - 1];
      var last := panels[|panels| - 1];
      RequestsForUnion(env, files, init, a, b);
      assert Requested(env, files, last, a + b) == Requested(env, files, last, a) + Requested(env, files, last, b);
    }
  }

  lemma {:induction false} RequestsForNone(env: Env, files: seq<OpenFile>, panels: seq<TranslationPanel>, ids: set<UUID>)
    requires forall i :: 0 <= i < |panels| ==> panels[i].id !in ids
    ensures RequestsFor(env, files, panels, ids) == multiset{}
    decreases |panels|
  {
    if panels != [] {
      var init := panels[..|panels| - 1];
      assert forall i :: 0 <= i < |init| ==> init[i] == panels[i];
      RequestsForNone(env, files, init, ids);
    }
  }

  lemma {:induction false} RequestsForSingle(env: Env, files: seq<OpenFile>, panels: seq<TranslationPanel>, i: nat)
    requires DistinctBy(panels, PanelID) && i < |panels|
    ensures RequestsFor(env, files, panels, {panels[i].id}) == Started(Effect(env, files, panels[i]).1)
    decreases |panels|
  {
    var init := panels[..|panels| - 1];
    var ids := {panels[i].id};
    assert forall k :: 0 <= k < |init| ==> init[k] == panels[k];
    if i == |panels| - 1 {
      forall k | 0 <= k < |init|
        ensures init[k].id !in ids
      {
        assert PanelID(panels[k]) != PanelID(panels[i]);
      }
      RequestsForNone(env, files, init, ids);
    } else {
      assert DistinctBy(init, PanelID) by {
        forall a, b | 0 <= a < b < |init|
          ensures PanelID(init[a]) != PanelID(init[b])
        {
          assert PanelID(panels[a]) != PanelID(panels[b]);
        }
      }
      RequestsForSingle(env, files, init, i);
      assert PanelID(panels[i]) != PanelID(panels[|panels| - 1]);
    }
  }

  /** Retrying nothing changes nothing. */
  lemma RetriedNothing(env: Env, st: Model)
    ensures Retried(env, st, {}) == st
  {
    RequestsForNone(env, st.files, st.panels, {});
    assert RetriedPanels(env, st.files, st.panels, {}) == st.panels;
  }

  /** Adding an id to the retried set changes the one panel with that id, if there is one. */
  lemma RetriedPanelsStep(env: Env, files: seq<OpenFile>, panels: seq<TranslationPanel>, ids: set<UUID>, panelID: UUID)
    requires DistinctBy(panels, PanelID) && panelID !in ids
    ensures var pi := PanelIndex(panels, panelID);
      RetriedPanels(env, files, panels, ids + {panelID}) ==
        if pi < 0 then RetriedPanels(env, files, panels, ids)
        else RetriedPanels(env, files, panels, ids)[pi := Effect(env, files, panels[pi]).0]
  {
    var pi := PanelIndex(panels, panelID);
    if pi >= 0 {
      forall i | 0 <= i < |panels| && i != pi
        ensures panels[i].id != panelID
      {
        assert PanelID(panels[i]) != PanelID(panels[pi]);
      }
    }
  }

  /** Adding an id to the retried set adds the one request its panel starts. */
  lemma RequestsForStep(env: Env, files: seq<OpenFile>, panels: seq<TranslationPanel>, ids: set<UUID>, panelID: UUID)
    requires DistinctBy(panels, PanelID) && panelID !in ids
    ensures var pi := PanelIndex(panels, panelID);
      RequestsFor(env, files, panels, ids + {panelID}) ==
        RequestsFor(env, files, panels, ids) + (if pi < 0 then multiset{} else Started(Effect(env, files, panels[pi]).1))
  {
    RequestsForUnion(env, files, panels, ids, {panelID});
    var pi := PanelIndex(panels, panelID);
    if pi < 0 {
      RequestsForNone(env, files, panels, {panelID});
    } else {
      RequestsForSingle(env, files, panels, pi);
    }
  }

  /** One more `translateContent` for an id not yet retried extends the set retried. */
  lemma RetriedStep(env: Env, st: Model, ids: set<UUID>, panelID: UUID)
    requires DistinctBy(st.panels, PanelID) && panelID !in ids
    ensures TranslateContent(env, Retried(env, st, ids), panelID) == Retried(env, st, ids + {panelID})
  {
    SameIDsSameIndex(Retried(env, st, ids).panels, st.panels, panelID);
    RetriedPanelsStep(env, st.files, st.panels, ids, panelID);
    RequestsForStep(env, st.files, st.panels, ids, panelID);
    if PanelIndex(st.panels, panelID) >= 0 {
      RetriedStepPresent(env, st, ids, panelID);
    } else {
      RetriedStepAbsent(env, st, ids, panelID);
    }
  }

  lemma RetriedStepAbsent(env: Env, st: Model, ids: set<UUID>, panelID: UUID)
    requires PanelIndex(st.panels, panelID) < 0
    requires PanelIndex(Retried(env, st, ids).panels, panelID) < 0
    requires RetriedPanels(env, st.files, st.panels, ids + {panelID}) == RetriedPanels(env, st.files, st.panels, ids)
    requires RequestsFor(env, st.files, st.panels, ids + {panelID}) == RequestsFor(env, st.files, st.panels, ids) + multiset{}
    ensures TranslateContent(env, Retried(env, st, ids), panelID) == Retried(env, st, ids + {panelID})
  {
  }

  lemma RetriedStepPresent(env: Env, st: Model, ids: set<UUID>, panelID: UUID)
    requires DistinctBy(st.panels, PanelID) && panelID !in ids
    requires var pi := PanelIndex(st.panels, panelID);
      (pi >= 0 &&
       PanelIndex(Retried(env, st, ids).panels, panelID) == pi &&
       RetriedPanels(env, st.files, st.panels, ids + {panelID}) ==
         RetriedPanels(env, st.files, st.panels, ids)[pi := Effect(env, st.files, st.panels[pi]).0] &&
       RequestsFor(env, st.files, st.panels, ids + {panelID}) ==
         RequestsFor(env, st.files, st.panels, ids) + Started(Effect(env, st.files, st.panels[pi]).1))
    ensures TranslateContent(env, Retried(env, st, ids), panelID) == Retried(env, st, ids + {panelID})
  {
    var mid := Retried(env, st, ids);
    var pi := PanelIndex(st.panels, panelID);
    assert mid.panels[pi] == st.panels[pi];
  }

  /** A single `translateContent` is the retry of its one id. */
  lemma TranslateIsRetried(env: Env, st: Model, panelID: UUID)
    requires DistinctBy(st.panels, PanelID)
    ensures TranslateContent(env, st, panelID) == Retried(env, st, {panelID})
  {
    RetriedNothing(env, st);
    RetriedStep(env, st, {}, panelID);
    assert {} + {panelID} == {panelID};
  }

  /** Retrying keeps the invariant, and changes only the retried panels and the started requests. */
  lemma RetriedValid(env: Env, st: Model, ids: set<UUID>)
    requires ValidModel(st)
    ensures ValidModel(Retried(env, st, ids))
  {
    SamePanelsValid(st, RetriedPanels(env, st.files, st.panels, ids));
  }

  /** The ids of the panels of one file: the panels `retranslateAllPanels` visits. */
  function IDsOfFile(panels: seq<TranslationPanel>, fileID: UUID): set<UUID>
    decreases |panels|
  {
    if panels == [] then {}
    else
      var last := panels[|panels| - 1];
      IDsOfFile(panels[..|panels| - 1], fileID) + (if last.fileID == fileID then {last.id} else {})
  }

  lemma {:induction false} IDsOfFileMembers(panels: seq<TranslationPanel>, fileID: UUID, id: UUID)
    ensures id in IDsOfFile(panels, fileID) <==> exists i :: 0 <= i < |panels| && panels[i].fileID == fileID && panels[i].id == id
    decreases |panels|
  {
    if panels != [] {
      var init := panels[..|panels| - 1];
      IDsOfFileMembers(init, fileID, id);
      assert forall i :: 0 <= i < |init| ==> init[i] == panels[i];
    }
  }

  /**
   * One pass of the loop of `retranslateAllPanels(for:)` over the panels as they were: a
   * panel of the file is translated once more, any other is skipped.
   */
  lemma RetranslateStep(env: Env, st: Model, fileID: UUID, i: nat)
    requires ValidModel(st) && i < |st.panels|
    ensures var ids := IDsOfFile(st.panels[..i], fileID);
      var next := IDsOfFile(st.panels[..i + 1], fileID);
      ValidModel(Retried(env, st, ids)) &&
      (st.panels[i].fileID == fileID ==> TranslateContent(env, Retried(env, st, ids), st.panels[i].id) == Retried(env, st, next)) &&
      (st.panels[i].fileID != fileID ==> next == ids)
  {
    var panels := st.panels;
    var ids := IDsOfFile(panels[..i], fileID);
    assert panels[..i + 1][..i] == panels[..i];
    RetriedValid(env, st, ids);
    if panels[i].fileID == fileID {
      forall k | 0 <= k < i
        ensures panels[..i][k].id != panels[i].id
      {
        assert PanelID(panels[k]) != PanelID(panels[i]);
      }
      IDsOfFileMembers(panels[..i], fileID, panels[i].id);
      RetriedStep(env, st, ids, panels[i].id);
    }
  }

  /** `retranslateAllPanels(for:)`. */
  function Retranslated(env: Env, st: Model, fileID: UUID): Model {
    Retried(env, st, IDsOfFile(st.panels, fileID))
  }

  /**
   * With unique panel ids, retranslating a file re-runs exactly its panels: no other panel
   * changes, and the requests started are exactly those of its panels.
   */
  lemma RetranslatedExactly(env: Env, st: Model, fileID: UUID, req: TranslationRequest)
    requires DistinctBy(st.panels, PanelID)
    ensures var r := Retranslated(env, st, fileID);
      |r.panels| == |st.panels| &&
      (forall i :: 0 <= i < |st.panels| && st.panels[i].fileID != fileID ==> r.panels[i] == st.panels[i]) &&
      (forall i :: 0 <= i < |st.panels| && st.panels[i].fileID == fileID ==> r.panels[i] == Effect(env, st.files, st.panels[i]).0) &&
      (req in r.requests - st.requests <==>
        exists i :: 0 <= i < |st.panels| && st.panels[i].fileID == fileID && Effect(env, st.files, st.panels[i]).1 == Some(req))
  {
    var ids := IDsOfFile(st.panels, fileID);
    IDsOfFileExactly(st.panels, fileID);
    RequestsForMembers(env, st.files, st.panels, ids, req);
    var r := Retranslated(env, st, fileID);
    assert r.requests - st.requests == RequestsFor(env, st.files, st.panels, ids);
  }

  /** With unique panel ids, a panel's id is among those of a file exactly when the panel belongs to it. */
  lemma IDsOfFileExactly(panels: seq<TranslationPanel>, fileID: UUID)
    requires DistinctBy(panels, PanelID)
    ensures forall i :: 0 <= i < |panels| ==> (panels[i].id in IDsOfFile(panels, fileID) <==> panels[i].fileID == fileID)
  {
    forall i | 0 <= i < |panels|
      ensures panels[i].id in IDsOfFile(panels, fileID) <==> panels[i].fileID == fileID
    {
      IDsOfFileMembers(panels, fileID, panels[i].id);
      if panels[i].id in IDsOfFile(panels, fileID) {
        var j :| 0 <= j < |panels| && panels[j].fileID == fileID && panels[j].id == panels[i].id;
        assert PanelID(panels[j]) == PanelID(panels[i]);
      }
    }
  }

  // ---------------------------------------------------------------------------------------
  // Growing and shrinking the arrays keeps the invariant

  /** Appending a file with the next id, and moving the counter on. */
  lemma AppendFileValid(st: Model, f: OpenFile)
    requires ValidModel(st) && f.id == st.nextID
    ensures ValidModel(st.(files := st.files + [f], nextID := st.nextID + 1))
  {
    var files := st.files + [f];
    forall i, j | 0 <= i < j < |files|
      ensures FileID(files[i]) != FileID(files[j])
    {
      assert files[i] == st.files[i];
      if j < |st.files| {
        assert files[j] == st.files[j];
      }
    }
  }

  /** Inserting a file with the next id at the front, and moving the counter on. */
  lemma PrependFileValid(st: Model, f: OpenFile)
    requires ValidModel(st) && f.id == st.nextID
    ensures ValidModel(st.(files := [f] + st.files, nextID := st.nextID + 1))
  {
    var files := [f] + st.files;
    forall i, j | 0 <= i < j < |files|
      ensures FileID(files[i]) != FileID(files[j])
    {
      assert files[j] == st.files[j - 1];
      if i > 0 {
        assert files[i] == st.files[i - 1];
      }
    }
  }

  /** Appending a panel with the next id for a pair no panel has yet. */
  lemma AppendPanelValid(st: Model, p: TranslationPanel)
    requires ValidModel(st) && p.id == st.nextID
    requires forall i :: 0 <= i < |st.panels| ==> PanelPair(st.panels[i]) != PanelPair(p)
    ensures ValidModel(st.(panels := st.panels + [p], nextID := st.nextID + 1))
  {
    var panels := st.panels + [p];
    forall i, j | 0 <= i < j < |panels|
      ensures PanelID(panels[i]) != PanelID(panels[j]) && PanelPair(panels[i]) != PanelPair(panels[j])
    {
      assert panels[i] == st.panels[i];
      if j < |st.panels| {
        assert panels[j] == st.panels[j];
      }
    }
  }

  /** Removing files keeps the invariant. */
  lemma FilterFilesValid(st: Model, keep: OpenFile -> bool)
    requires ValidModel(st)
    ensures ValidModel(st.(files := Filter(st.files, keep)))
  {
    var files := Filter(st.files, keep);
    FilterKeepsDistinct(st.files, keep, FileID);
    FilterMembers(st.files, keep);
    forall i | 0 <= i < |files|
      ensures files[i].id < st.nextID
    {
      assert files[i] in files;
      var j :| 0 <= j < |st.files| && st.files[j] == files[i];
    }
  }

  /** Removing panels keeps the invariant. */
  lemma FilterPanelsValid(st: Model, keep: TranslationPanel -> bool)
    requires ValidModel(st)
    ensures ValidModel(st.(panels := Filter(st.panels, keep)))
  {
    var panels := Filter(st.panels, keep);
    FilterKeepsDistinct(st.panels, keep, PanelID);
    FilterKeepsDistinct(st.panels, keep, PanelPair);
    FilterMembers(st.panels, keep);
    forall i | 0 <= i < |panels|
      ensures panels[i].id < st.nextID
    {
      assert panels[i] in panels;
      var j :| 0 <= j < |st.panels| && st.panels[j] == panels[i];
    }
  }

  // ---------------------------------------------------------------------------------------
  // Translation panels

  /** `addTranslation(for:language:)`: at most one panel per file and language. */
  function AddTranslation(env: Env, st: Model, fileID: UUID, language: SupportedLanguage): Model {
    if PairIndex(st.panels, fileID, language) >= 0 then st
    else
      var id := st.nextID;
      var added := st.(panels := st.panels + [NewPanel(id, fileID, language)], activePanelID := Some(id), nextID := id + 1);
      TranslateContent(env, added, id)
  }

  /** Asking again for a pair that has a panel changes nothing. */
  lemma AddTranslationExisting(env: Env, st: Model, fileID: UUID, language: SupportedLanguage)
    requires exists i :: 0 <= i < |st.panels| && st.panels[i].fileID == fileID && st.panels[i].targetLanguage == language
    ensures AddTranslation(env, st, fileID, language) == st
  {
  }

  /**
   * A new pair gets exactly one new panel, at the end, which becomes the active panel and is
   * translated at once; the earlier panels and the files are untouched, and the invariant
   * (at most one panel per pair among them) is kept.
   */
  lemma AddTranslationNew(env: Env, st: Model, fileID: UUID, language: SupportedLanguage)
    requires ValidModel(st)
    requires forall i :: 0 <= i < |st.panels| ==> !(st.panels[i].fileID == fileID && st.panels[i].targetLanguage == language)
    ensures var r := AddTranslation(env, st, fileID, language);
      var n := |st.panels|;
      ValidModel(r) &&
      |r.panels| == n + 1 && r.panels[..n] == st.panels &&
      r.panels[n] == Effect(env, st.files, NewPanel(st.nextID, fileID, language)).0 &&
      r.panels[n].id == st.nextID && r.panels[n].fileID == fileID && r.panels[n].targetLanguage == language &&
      r.activePanelID == Some(st.nextID) && r.files == st.files && r.nextID == st.nextID + 1 &&
      r.requests == st.requests + Started(Effect(env, st.files, NewPanel(st.nextID, fileID, language)).1)
  {
    var id := st.nextID;
    var p := NewPanel(id, fileID, language);
    var added := st.(panels := st.panels + [p], activePanelID := Some(id), nextID := id + 1);
    assert PairIndex(st.panels, fileID, language) < 0;
    AppendPanelValid(st, p);
    PanelIndexOf(added.panels, |st.panels|);
    TranslateContentSpec(env, added, id);
    var r := TranslateContent(env, added, id);
    assert r.panels[..|st.panels|] == st.panels by {
      forall i | 0 <= i < |st.panels|
        ensures r.panels[i] == st.panels[i]
      {
        assert added.panels[i] == st.panels[i];
      }
    }
  }

  /** `closeTranslation(id:)`: the active panel falls back to the last visible panel. */
  function CloseTranslation(st: Model, id: UUID): Model {
    var removed := st.(panels := PanelsWithoutID(st.panels, id));
    if st.activePanelID == Some(id) then
      var visible := Visible(removed);
      removed.(activePanelID := if visible == [] then None else Some(visible[|visible| - 1].id))
    else removed
  }

  /**
   * The panel is gone and every other panel stays; when it was the active one, the new
   * active panel is the last of the active file's remaining panels (`visibleTranslationPanels.last`),
   * none being left only when that file has no other panel; the invariant is kept.
   */
  lemma CloseTranslationSpec(st: Model, id: UUID)
    requires ValidModel(st)
    ensures var r := CloseTranslation(st, id);
      ValidModel(r) &&
      (forall p :: p in r.panels <==> p in st.panels && p.id != id) &&
      r.files == st.files && r.activeFileID == st.activeFileID &&
      (st.activePanelID != Some(id) ==> r.activePanelID == st.activePanelID) &&
      (st.activePanelID == Some(id) && Visible(r) != [] ==>
        r.activePanelID == Some(Visible(r)[|Visible(r)| - 1].id)) &&
      (st.activePanelID == Some(id) && r.activePanelID.Some? ==>
        exists p :: p in r.panels && p.id == r.activePanelID.value && Some(p.fileID) == st.activeFileID) &&
      (st.activePanelID == Some(id) && r.activePanelID.None? ==>
        forall p :: p in r.panels ==> Some(p.fileID) != st.activeFileID)
  {
    var keep := (p: TranslationPanel) => p.id != id;
    FilterPanelsValid(st, keep);
    FilterMembers(st.panels, keep);
    var removed := st.(panels := PanelsWithoutID(st.panels, id));
    var visible := Visible(removed);
    forall p
      ensures p in visible <==> p in removed.panels && removed.activeFileID == Some(p.fileID)
    {
      VisibleMembers(removed, p);
    }
    if visible != [] {
      assert visible[|visible| - 1] in visible;
    }
  }

  lemma CloseTranslationValid(st: Model, id: UUID)
    requires ValidModel(st)
    ensures ValidModel(CloseTranslation(st, id))
  {
    CloseTranslationSpec(st, id);
  }

  /** How the `Task` of `translateContent` ends: which of its three `catch` arms runs, if any. */
  datatype Completion = Translated(text: string) | NeedsDownload(source: SupportedLanguage, target: SupportedLanguage) | Failed(description: string)

  /**
   * A `downloadRequired` error gets its own arm; any other error, a `TranslationError` or one
   * the engine threw, ends up as its `localizedDescription`.
   */
  function CompletionOf(outcome: TS.Outcome): (c: Completion)
    ensures outcome.Success? <==> c.Translated?
    ensures c.NeedsDownload? <==> outcome.Failure? && outcome.error.Known? && outcome.error.error.DownloadRequired?
    ensures outcome.Failure? && outcome.error.EngineFailure? ==> c == Failed(outcome.error.message)
    ensures outcome.Failure? && outcome.error.Known? && outcome.error.error.UnsupportedPair? ==>
      c == Failed(ErrorDescription(outcome.error.error).value)
  {
    match outcome
    case Success(text) => Translated(text)
    case Failure(failure) =>
      if failure.Known? && failure.error.DownloadRequired? then NeedsDownload(failure.error.source, failure.error.target)
      else if failure.Known? then Failed(ErrorDescription(failure.error).value)
      else Failed(failure.message)
  }

  /**
   * `translateContent`'s completion: a result is written only into a panel that still exists;
   * a missing language download leaves the panel translating, remembers it as pending and
   * asks the view model to prepare the pair; any other error ends the translation with its
   * description.
   */
  function CompleteTranslation(env: Env, st: Model, panelID: UUID, completion: Completion): Model {
    var pi := PanelIndex(st.panels, panelID);
    match completion
    case Translated(text) =>
      if pi < 0 then st
      else st.(panels := st.panels[pi := st.panels[pi].(translatedContent := text, isTranslating := false)])
    case NeedsDownload(source, target) =>
      st.(pending := st.pending + {panelID},
          preparations := if env.hasTranslationViewModel then st.preparations + [LanguagePair(source, target)] else st.preparations)
    case Failed(message) =>
      if pi < 0 then st
      else st.(panels := st.panels[pi := st.panels[pi].(error := Some(message), isTranslating := false)])
  }

  /**
   * `r` differs from `st` at most in the panel with id `panelID`, never in a panel's identity,
   * and not in any panel when there is none with that id; the files, the active ids and the
   * invariant stay.
   */
  predicate OnlyPanelChanged(st: Model, r: Model, panelID: UUID) {
    ValidModel(r) &&
    r.files == st.files && r.activeFileID == st.activeFileID && r.activePanelID == st.activePanelID &&
    |r.panels| == |st.panels| &&
    (forall i :: 0 <= i < |st.panels| ==> SamePanel(st.panels[i], r.panels[i])) &&
    (forall i :: 0 <= i < |st.panels| && st.panels[i].id != panelID ==> r.panels[i] == st.panels[i]) &&
    ((forall i :: 0 <= i < |st.panels| ==> st.panels[i].id != panelID) ==> r.panels == st.panels)
  }

  /** Writing the mutable fields of the panel found by id. */
  lemma WritePanel(st: Model, panelID: UUID, q: TranslationPanel)
    requires ValidModel(st)
    requires var pi := PanelIndex(st.panels, panelID); pi >= 0 && SamePanel(st.panels[pi], q)
    ensures OnlyPanelChanged(st, st.(panels := st.panels[PanelIndex(st.panels, panelID) := q]), panelID)
  {
    var pi := PanelIndex(st.panels, panelID);
    var r := st.(panels := st.panels[pi := q]);
    forall i | 0 <= i < |st.panels| && st.panels[i].id == panelID
      ensures i == pi
    {
      PanelIndexOf(st.panels, i);
    }
    SamePanelsValid(st, r.panels);
  }

  /**
   * A completion changes at most the panel with its id, and never a panel's identity; a
   * completion for a closed panel changes no panel; only a missing download touches the
   * pending set, and then only by adding this panel.
   */
  lemma CompleteTranslationSpec(env: Env, st: Model, panelID: UUID, completion: Completion)
    requires ValidModel(st)
    ensures var r := CompleteTranslation(env, st, panelID, completion);
      OnlyPanelChanged(st, r.(pending := st.pending, preparations := st.preparations), panelID) &&
      r.pending == (if completion.NeedsDownload? then st.pending + {panelID} else st.pending)
  {
    var pi := PanelIndex(st.panels, panelID);
    if pi >= 0 {
      var p := st.panels[pi];
      match completion
      case Translated(text) =>
        WritePanel(st, panelID, p.(translatedContent := text, isTranslating := false));
      case NeedsDownload(_, _) =>
      case Failed(message) =>
        WritePanel(st, panelID, p.(error := Some(message), isTranslating := false));
    }
  }

  lemma CompleteTranslationValid(env: Env, st: Model, panelID: UUID, completion: Completion)
    requires ValidModel(st)
    ensures ValidModel(CompleteTranslation(env, st, panelID, completion))
  {
    CompleteTranslationSpec(env, st, panelID, completion);
  }

  /** A successful completion for an open panel shows its translation and stops the spinner. */
  lemma CompleteTranslationSuccess(env: Env, st: Model, i: nat, text: string)
    requires ValidModel(st) && i < |st.panels|
    ensures var r := CompleteTranslation(env, st, st.panels[i].id, Translated(text));
      r.panels[i].translatedContent == text && !r.panels[i].isTranslating && r.panels[i].error == st.panels[i].error
  {
    PanelIndexOf(st.panels, i);
  }

  /** A missing download adds the panel to the pending set and leaves every panel as it was. */
  lemma CompleteTranslationDownload(env: Env, st: Model, panelID: UUID, source: SupportedLanguage, target: SupportedLanguage)
    ensures var r := CompleteTranslation(env, st, panelID, CompletionOf(Failure(TS.Known(DownloadRequired(source, target)))));
      r.panels == st.panels && r.pending == st.pending + {panelID} &&
      r.preparations == st.preparations + (if env.hasTranslationViewModel then [LanguagePair(source, target)] else [])
  {
  }

  /** `retryPendingDownloads()`: the pending set is emptied and each panel in it retried. */
  function RetryPendingDownloads(env: Env, st: Model): Model {
    Retried(env, st.(pending := {}), st.pending)
  }

  /**
   * After a retry nothing is pending; exactly the panels that were pending are re-run, and
   * the translations started are exactly theirs.
   */
  lemma RetryPendingSpec(env: Env, st: Model, req: TranslationRequest)
    requires ValidModel(st)
    ensures var r := RetryPendingDownloads(env, st);
      ValidModel(r) && r.pending == {} && r.files == st.files && |r.panels| == |st.panels| &&
      (forall i :: 0 <= i < |st.panels| ==>
        r.panels[i] == if st.panels[i].id in st.pending then Effect(env, st.files, st.panels[i]).0 else st.panels[i]) &&
      (req in r.requests - st.requests <==>
        exists i :: 0 <= i < |st.panels| && st.panels[i].id in st.pending && Effect(env, st.files, st.panels[i]).1 == Some(req))
  {
    var cleared := st.(pending := {});
    RetriedValid(env, cleared, st.pending);
    RequestsForMembers(env, st.files, st.panels, st.pending, req);
  }

  // ---------------------------------------------------------------------------------------
  // Opening and closing files

  /** The entry `performOpenFile(url:)` appends: a PDF, an image or a text file, still empty. */
  function NewEntry(env: Env, id: UUID, url: Url): (f: OpenFile)
    ensures f.id == id && f.url == url && f.name == LastPathComponent(url) && f.content == ""
    ensures f.fileType == (if env.isPDFFile(url) then Pdf else if env.isImageFile(url) then Image else Text)
    ensures f.sourcePDFURL == (if f.fileType == Pdf then Some(url) else None)
    ensures f.sourceImageURL == (if f.fileType == Image then Some(url) else None)
    ensures f.detectedLanguage.None? && f.selectedSourceLanguage.None? && !f.isExternallyModified
  {
    var name := LastPathComponent(url);
    if env.isPDFFile(url) then NewOpenFile(id, url, name, "", None, Pdf, None, Some(url), None, None)
    else if env.isImageFile(url) then NewOpenFile(id, url, name, "", None, Image, Some(url), None, None, None)
    else NewOpenFile(id, url, name, "", None, Text, None, None, None, None)
  }

  /** `performOpenFile(url:)`: the new entry is appended and becomes the active file. */
  function PerformOpen(env: Env, st: Model, url: Url): Model {
    st.(files := st.files + [NewEntry(env, st.nextID, url)], activeFileID := Some(st.nextID), nextID := st.nextID + 1)
  }

  /** The size check only applies to text files, and only when the size could be read. */
  predicate NeedsConfirmation(env: Env, url: Url, size: Option<int>) {
    !env.isPDFFile(url) && !env.isImageFile(url) && size.Some? && size.value > LargeFileThreshold
  }

  /**
   * `openFile(url:)`, with `size` what `attributesOfItem` reports: an open URL is re-activated,
   * a large text file waits for confirmation, and anything else is opened.
   */
  function OpenFile(env: Env, st: Model, url: Url, size: Option<int>): Model {
    var i := URLIndex(st.files, url);
    if i >= 0 then st.(activeFileID := Some(st.files[i].id))
    else if NeedsConfirmation(env, url, size) then st.(pendingLargeFileURL := Some(url), showLargeFileAlert := true)
    else PerformOpen(env, st, url)
  }

  /** Opening a URL that is already open only makes that file active. */
  lemma OpenFileAlreadyOpen(env: Env, st: Model, url: Url, size: Option<int>, i: nat)
    requires DistinctBy(st.files, FileURL) && i < |st.files| && st.files[i].url == url
    ensures OpenFile(env, st, url, size) == st.(activeFileID := Some(st.files[i].id))
  {
    var k := URLIndex(st.files, url);
    assert 0 <= k <= i && FileURL(st.files[k]) == FileURL(st.files[i]);
  }

  /** A large text file that is not open is only remembered, with the alert raised. */
  lemma OpenFileLarge(env: Env, st: Model, url: Url, size: Option<int>)
    requires forall i :: 0 <= i < |st.files| ==> st.files[i].url != url
    requires !env.isPDFFile(url) && !env.isImageFile(url) && size.Some? && size.value > LargeFileThreshold
    ensures OpenFile(env, st, url, size) == st.(pendingLargeFileURL := Some(url), showLargeFileAlert := true)
  {
  }

  /**
   * Any other URL that is not open is appended as a new, active entry with a fresh id; the
   * invariant is kept, and so are distinct URLs.
   */
  lemma OpenFileNew(env: Env, st: Model, url: Url, size: Option<int>)
    requires ValidModel(st)
    requires forall i :: 0 <= i < |st.files| ==> st.files[i].url != url
    requires !NeedsConfirmation(env, url, size)
    ensures var r := OpenFile(env, st, url, size);
      r == PerformOpen(env, st, url) && ValidModel(r) &&
      r.files == st.files + [NewEntry(env, st.nextID, url)] && r.activeFileID == Some(st.nextID) &&
      (DistinctBy(st.files, FileURL) ==> DistinctBy(r.files, FileURL))
  {
    AppendFileValid(st, NewEntry(env, st.nextID, url));
    var files := st.files + [NewEntry(env, st.nextID, url)];
    if DistinctBy(st.files, FileURL) {
      forall i, j | 0 <= i < j < |files|
        ensures FileURL(files[i]) != FileURL(files[j])
      {
        assert files[i] == st.files[i];
        if j < |st.files| {
          assert files[j] == st.files[j];
        }
      }
    }
  }

  /** `confirmOpenLargeFile()`: the remembered URL is opened without checking again. */
  function ConfirmOpenLargeFile(env: Env, st: Model): Model {
    match st.pendingLargeFileURL
    case None => st
    case Some(url) => PerformOpen(env, st.(pendingLargeFileURL := None, showLargeFileAlert := false), url)
  }

  /** `cancelOpenLargeFile()`. */
  function CancelOpenLargeFile(st: Model): Model {
    st.(pendingLargeFileURL := None, showLargeFileAlert := false)
  }

  lemma PerformOpenValid(env: Env, st: Model, url: Url)
    requires ValidModel(st)
    ensures ValidModel(PerformOpen(env, st, url))
  {
    AppendFileValid(st, NewEntry(env, st.nextID, url));
  }

  /** `detectLanguage(for:) ?? settingsState?.defaultSourceLanguage`. */
  function Detected(env: Env, text: string): Option<SupportedLanguage> {
    match env.detectLanguage(text)
    case Some(l) => Some(l)
    case None => if env.settings.Some? then env.settings.value.defaultSourceLanguage else None
  }

  /** The default target language, when there is one and it differs from the detected source. */
  function AutoTarget(env: Env, detected: Option<SupportedLanguage>): (t: Option<SupportedLanguage>)
    ensures t.Some? <==> (env.settings.Some? && env.settings.value.defaultTargetLanguage.Some? &&
                          env.settings.value.defaultTargetLanguage != detected)
    ensures t.Some? ==> t == env.settings.value.defaultTargetLanguage && t != detected
  {
    if env.settings.Some? && env.settings.value.defaultTargetLanguage.Some? && env.settings.value.defaultTargetLanguage != detected
    then env.settings.value.defaultTargetLanguage
    else None
  }

  /** The part of an extraction `Task` that files a PDF's page count and method, when it reports them. */
  datatype PDFDetails = PDFDetails(pageCount: nat, extractionMethod: string)

  /**
   * A successful load or extraction: the file, if still open, takes the text and the detected
   * language as both detected and selected source; then a panel for the default target opens.
   */
  function ContentArrived(env: Env, st: Model, fileID: UUID, text: string, details: Option<PDFDetails>): Model {
    var i := FileIndex(st.files, fileID);
    if i < 0 then st
    else
      var detected := Detected(env, text);
      var f := st.files[i].(content := text, detectedLanguage := detected, selectedSourceLanguage := detected);
      var g := if details.Some? then f.(pdfPageCount := Some(details.value.pageCount), pdfExtractionMethod := Some(details.value.extractionMethod)) else f;
      var updated := st.(files := st.files[i := g]);
      match AutoTarget(env, detected)
      case None => updated
      case Some(target) => AddTranslation(env, updated, fileID, target)
  }

  function FailureMessage(what: string, url: Url, description: string): string {
    what + LastPathComponent(url) + ": " + description
  }

  /** The completion of `performOpenTextFile`: a read error closes the entry again. */
  function TextLoaded(env: Env, st: Model, fileID: UUID, url: Url, result: Result<string, string>): Model {
    match result
    case Success(content) => ContentArrived(env, st, fileID, content, None)
    case Failure(description) =>
      st.(errorMessage := FailureMessage("Failed to open ", url, description), showError := true,
          files := FilesWithoutID(st.files, fileID))
  }

  /** The completion of `performOpenImageFile`: an OCR error leaves the empty entry open. */
  function ImageRecognized(env: Env, st: Model, fileID: UUID, url: Url, result: Result<string, string>): Model {
    match result
    case Success(text) => ContentArrived(env, st, fileID, text, None)
    case Failure(description) =>
      st.(errorMessage := FailureMessage("Failed to extract text from ", url, description), showError := true)
  }

  /** The completion of `performOpenPDFFile`, with the extraction's result or its error. */
  function PDFExtracted(env: Env, st: Model, fileID: UUID, url: Url, result: Result<PDF.PDFExtractionResult, PDF.PDFError>): Model {
    match result
    case Success(r) =>
      ContentArrived(env, st, fileID, r.text, Some(PDFDetails(r.pageCount, PDF.MethodRawValue(r.extractionMethod))))
    case Failure(e) =>
      st.(errorMessage := FailureMessage("Failed to extract text from ", url, PDF.ErrorDescription(e)), showError := true)
  }

  /**
   * A load for an open file stores the text and the language, and opens a panel for the
   * default target exactly when one is set and differs from the detected language; the
   * invariant is kept.
   */
  lemma ContentArrivedSpec(env: Env, st: Model, i: nat, text: string, details: Option<PDFDetails>)
    requires ValidModel(st) && i < |st.files|
    ensures var r := ContentArrived(env, st, st.files[i].id, text, details);
      var detected := Detected(env, text);
      ValidModel(r) && |r.files| == |st.files| &&
      r.files[i].content == text && r.files[i].detectedLanguage == detected && r.files[i].selectedSourceLanguage == detected &&
      r.files[i].id == st.files[i].id && r.files[i].url == st.files[i].url &&
      (forall j :: 0 <= j < |st.files| && j != i ==> r.files[j] == st.files[j]) &&
      (AutoTarget(env, detected).None? ==> r.panels == st.panels) &&
      (AutoTarget(env, detected).Some? ==>
        exists k :: 0 <= k < |r.panels| && r.panels[k].fileID == st.files[i].id && r.panels[k].targetLanguage == AutoTarget(env, detected).value)
  {
    var id := st.files[i].id;
    FileIndexOf(st.files, i);
    var detected := Detected(env, text);
    var f := st.files[i].(content := text, detectedLanguage := detected, selectedSourceLanguage := detected);
    var g := if details.Some? then f.(pdfPageCount := Some(details.value.pageCount), pdfExtractionMethod := Some(details.value.extractionMethod)) else f;
    var updated := st.(files := st.files[i := g]);
    SameFileIDsValid(st, updated.files);
    if AutoTarget(env, detected).Some? {
      AddTranslationLands(env, updated, id, AutoTarget(env, detected).value);
    }
  }

  /** After `addTranslation`, the pair has a panel, the files are the same and the invariant holds. */
  lemma AddTranslationLands(env: Env, st: Model, fileID: UUID, language: SupportedLanguage)
    requires ValidModel(st)
    ensures var r := AddTranslation(env, st, fileID, language);
      ValidModel(r) && r.files == st.files &&
      exists k :: 0 <= k < |r.panels| && r.panels[k].fileID == fileID && r.panels[k].targetLanguage == language
  {
    var k := PairIndex(st.panels, fileID, language);
    if k < 0 {
      AddTranslationNew(env, st, fileID, language);
      var r := AddTranslation(env, st, fileID, language);
      assert r.panels[|st.panels|].fileID == fileID;
    }
  }

  /** A failed text load closes the entry and reports the file by name; no panel is touched. */
  lemma TextLoadFailed(env: Env, st: Model, fileID: UUID, url: Url, description: string)
    requires ValidModel(st)
    ensures var r := TextLoaded(env, st, fileID, url, Failure(description));
      ValidModel(r) && r.showError && r.errorMessage == "Failed to open " + LastPathComponent(url) + ": " + description &&
      (forall f :: f in r.files <==> f in st.files && f.id != fileID) &&
      r.panels == st.panels && r.activeFileID == st.activeFileID
  {
    var keep := (f: OpenFile) => f.id != fileID;
    FilterFilesValid(st, keep);
    FilterMembers(st.files, keep);
  }

  /** `closeFile(id:)`: its panels go with it, and the active file falls back to the last one. */
  function CloseFile(st: Model, id: UUID): Model {
    var files := FilesWithoutID(st.files, id);
    st.(panels := PanelsWithoutFile(st.panels, id), files := files,
        activeFileID := if st.activeFileID == Some(id) then (if files == [] then None else Some(files[|files| - 1].id)) else st.activeFileID)
  }

  /**
   * The file and all its panels are gone and everything else stays, in order; when it was the
   * active file, the last remaining file becomes active, or none when no file is left; the
   * invariant is kept.
   */
  lemma CloseFileSpec(st: Model, id: UUID)
    requires ValidModel(st)
    ensures var r := CloseFile(st, id);
      ValidModel(r) &&
      (forall f :: f in r.files <==> f in st.files && f.id != id) &&
      (forall p :: p in r.panels <==> p in st.panels && p.fileID != id) &&
      (st.activeFileID != Some(id) ==> r.activeFileID == st.activeFileID) &&
      (st.activeFileID == Some(id) ==>
        (r.activeFileID.None? <==> r.files == []) &&
        (r.activeFileID.Some? ==> r.activeFileID.value == r.files[|r.files| - 1].id && r.activeFileID != Some(id)))
  {
    var keepFile := (f: OpenFile) => f.id != id;
    var keepPanel := (p: TranslationPanel) => p.fileID != id;
    FilterPanelsValid(st, keepPanel);
    FilterFilesValid(st.(panels := PanelsWithoutFile(st.panels, id)), keepFile);
    FilterMembers(st.files, keepFile);
    FilterMembers(st.panels, keepPanel);
    var files := FilesWithoutID(st.files, id);
    if files != [] {
      assert files[|files| - 1] in files;
    }
  }

  lemma CloseFileValid(st: Model, id: UUID)
    requires ValidModel(st)
    ensures ValidModel(CloseFile(st, id))
  {
    CloseFileSpec(st, id);
  }

  /** `closeActiveFile()`. */
  function CloseActiveFile(st: Model): Model {
    match st.activeFileID
    case None => st
    case Some(id) => CloseFile(st, id)
  }

  /** `setActiveFile(id:)`: an id that is not open is ignored. */
  function SetActiveFile(st: Model, id: UUID): Model {
    if FileIndex(st.files, id) >= 0 then st.(activeFileID := Some(id)) else st
  }

  /** Activating an open file changes only the active id; any other id changes nothing. */
  lemma SetActiveFileSpec(st: Model, id: UUID)
    ensures (exists i :: 0 <= i < |st.files| && st.files[i].id == id) ==> SetActiveFile(st, id) == st.(activeFileID := Some(id))
    ensures (forall i :: 0 <= i < |st.files| ==> st.files[i].id != id) ==> SetActiveFile(st, id) == st
  {
  }

  /** `setSourceLanguage(_:for:)`: the choice is stored and every panel of the file retranslated. */
  function SetSourceLanguage(env: Env, st: Model, language: SupportedLanguage, fileID: UUID): Model {
    var i := FileIndex(st.files, fileID);
    if i < 0 then st
    else Retranslated(env, st.(files := st.files[i := st.files[i].(selectedSourceLanguage := Some(language))]), fileID)
  }

  /**
   * Choosing a source language makes every panel of the file that has a translation service
   * start translating from that language, and leaves the other panels alone.
   */
  lemma SetSourceLanguageSpec(env: Env, st: Model, language: SupportedLanguage, i: nat, k: nat)
    requires ValidModel(st) && i < |st.files| && k < |st.panels|
    ensures var r := SetSourceLanguage(env, st, language, st.files[i].id);
      ValidModel(r) && |r.panels| == |st.panels| && r.files[i].selectedSourceLanguage == Some(language) &&
      (st.panels[k].fileID != st.files[i].id ==> r.panels[k] == st.panels[k]) &&
      (st.panels[k].fileID == st.files[i].id && env.hasTranslationService ==>
        r.panels[k].isTranslating && r.panels[k].error.None? &&
        TranslationRequest(st.panels[k].id, st.files[i].content, language, st.panels[k].targetLanguage) in r.requests)
  {
    var id := st.files[i].id;
    FileIndexOf(st.files, i);
    var updated := st.(files := st.files[i := st.files[i].(selectedSourceLanguage := Some(language))]);
    SameFileIDsValid(st, updated.files);
    RetriedValid(env, updated, IDsOfFile(updated.panels, id));
    var r := SetSourceLanguage(env, st, language, id);
    if st.panels[k].fileID == id {
      var req := TranslationRequest(st.panels[k].id, st.files[i].content, language, st.panels[k].targetLanguage);
      RetranslatedExactly(env, updated, id, req);
      EffectCases(env, updated.files, st.panels[k], i);
    } else {
      RetranslatedExactly(env, updated, id, TranslationRequest(0, [], language, language));
    }
  }

  // ---------------------------------------------------------------------------------------
  // The scrapbook

  /** No two open files are the scrapbook. */
  predicate AtMostOneScrapbook(files: seq<OpenFile>) {
    forall i, j :: 0 <= i < j < |files| && files[i].IsScrapbook() ==> !files[j].IsScrapbook()
  }

  /** `openScrapbook()`: switch to the open scrapbook, or insert a new one at the front. */
  function OpenScrapbook(st: Model): Model {
    var i := ScrapbookIndex(st.files);
    if i >= 0 then st.(activeFileID := Some(st.files[i].id))
    else st.(files := [NewScrapbook(st.nextID)] + st.files, activeFileID := Some(st.nextID), nextID := st.nextID + 1)
  }

  /**
   * Afterwards exactly one scrapbook is open and it is the active file; an open scrapbook is
   * reused, otherwise a new empty one comes first; the invariant is kept.
   */
  lemma OpenScrapbookSpec(st: Model)
    requires ValidModel(st) && AtMostOneScrapbook(st.files)
    ensures var r := OpenScrapbook(st);
      var i := ScrapbookIndex(r.files);
      ValidModel(r) && AtMostOneScrapbook(r.files) && i >= 0 && r.activeFileID == Some(r.files[i].id) &&
      ((exists j :: 0 <= j < |st.files| && st.files[j].IsScrapbook()) ==> r.files == st.files) &&
      ((forall j :: 0 <= j < |st.files| ==> !st.files[j].IsScrapbook()) ==>
        r.files == [NewScrapbook(st.nextID)] + st.files && r.files[i].content == "")
  {
    if ScrapbookIndex(st.files) < 0 {
      var s := NewScrapbook(st.nextID);
      PrependFileValid(st, s);
      var files := [s] + st.files;
      forall i, j | 0 <= i < j < |files| && files[i].IsScrapbook()
        ensures !files[j].IsScrapbook()
      {
        assert files[j] == st.files[j - 1];
      }
      assert files[0].IsScrapbook();
    }
  }

  /** Opening a file keeps a single scrapbook: its URL is never opened a second time. */
  lemma OpenFileKeepsOneScrapbook(env: Env, st: Model, url: Url, size: Option<int>)
    requires AtMostOneScrapbook(st.files)
    ensures AtMostOneScrapbook(OpenFile(env, st, url, size).files)
  {
    var r := OpenFile(env, st, url, size);
    if URLIndex(st.files, url) < 0 && !NeedsConfirmation(env, url, size) {
      var files := r.files;
      forall i, j | 0 <= i < j < |files| && files[i].IsScrapbook()
        ensures !files[j].IsScrapbook()
      {
        assert files[i] == st.files[i];
        if j < |st.files| {
          assert files[j] == st.files[j];
        } else {
          assert files[j].url == url && st.files[i].url == ScrapbookURL;
        }
      }
    }
  }

  /** `closeScrapbook(id:)`: a scrapbook with text asks first, an empty one closes at once. */
  function CloseScrapbook(st: Model, id: UUID): Model {
    match FindFile(st.files, id)
    case None => st
    case Some(file) =>
      if !file.IsScrapbook() then st
      else if file.content != "" then st.(pendingCloseScrapbookID := Some(id), showCloseScrapbookAlert := true)
      else CloseFile(st, id)
  }

  /** A scrapbook with text is never closed without confirmation; other files are never closed here. */
  lemma CloseScrapbookSpec(st: Model, i: nat)
    requires DistinctBy(st.files, FileID) && i < |st.files|
    ensures var r := CloseScrapbook(st, st.files[i].id);
      (!st.files[i].IsScrapbook() ==> r == st) &&
      (st.files[i].IsScrapbook() && st.files[i].content != "" ==>
        r == st.(pendingCloseScrapbookID := Some(st.files[i].id), showCloseScrapbookAlert := true)) &&
      (st.files[i].IsScrapbook() && st.files[i].content == "" ==> r == CloseFile(st, st.files[i].id))
  {
    FileIndexOf(st.files, i);
    FindFileAtIndex(st.files, st.files[i].id);
  }

  /** `confirmCloseScrapbook()`. */
  function ConfirmCloseScrapbook(st: Model): Model {
    match st.pendingCloseScrapbookID
    case None => st
    case Some(id) => CloseFile(st.(pendingCloseScrapbookID := None, showCloseScrapbookAlert := false), id)
  }

  /** `cancelCloseScrapbook()`. */
  function CancelCloseScrapbook(st: Model): Model {
    st.(pendingCloseScrapbookID := None, showCloseScrapbookAlert := false)
  }

  /** `updateScrapbookContent(_:)`, without the debounced detection that follows it. */
  function UpdateScrapbookContent(st: Model, content: string): Model {
    var i := ScrapbookIndex(st.files);
    if i < 0 then st else st.(files := st.files[i := st.files[i].(content := content)])
  }

  /**
   * `detectAndRetranslateScrapbook()`: a scrapbook with text gets its detected language, which
   * becomes the source only if none was chosen, and all its panels are retranslated.
   */
  function DetectAndRetranslateScrapbook(env: Env, st: Model): Model {
    var i := ScrapbookIndex(st.files);
    if i < 0 || st.files[i].content == "" then st
    else
      var f := st.files[i];
      var detected := env.detectLanguage(f.content);
      var g := f.(detectedLanguage := detected,
                  selectedSourceLanguage := if f.selectedSourceLanguage.None? then detected else f.selectedSourceLanguage);
      Retranslated(env, st.(files := st.files[i := g]), f.id)
  }

  /** The user's choice of source language survives detection; only the detected language is refreshed. */
  lemma DetectKeepsChosenSource(env: Env, st: Model)
    requires ValidModel(st)
    ensures var r := DetectAndRetranslateScrapbook(env, st);
      var i := ScrapbookIndex(st.files);
      ValidModel(r) && |r.files| == |st.files| &&
      (i >= 0 && st.files[i].content != "" ==>
        r.files[i].detectedLanguage == env.detectLanguage(st.files[i].content) &&
        (st.files[i].selectedSourceLanguage.Some? ==> r.files[i].selectedSourceLanguage == st.files[i].selectedSourceLanguage) &&
        (st.files[i].selectedSourceLanguage.None? ==> r.files[i].selectedSourceLanguage == r.files[i].detectedLanguage))
  {
    var i := ScrapbookIndex(st.files);
    if i >= 0 && st.files[i].content != "" {
      var f := st.files[i];
      var detected := env.detectLanguage(f.content);
      var g := f.(detectedLanguage := detected,
                  selectedSourceLanguage := if f.selectedSourceLanguage.None? then detected else f.selectedSourceLanguage);
      var updated := st.(files := st.files[i := g]);
      SameFileIDsValid(st, updated.files);
      RetriedValid(env, updated, IDsOfFile(updated.panels, f.id));
    }
  }

  // ---------------------------------------------------------------------------------------
  // The default name of a saved translation

  /** The tokens of the naming pattern, replaced in this order. */
  const NameToken: string := "{name}"
  const LangToken: string := "{lang}"
  const ExtToken: string := "{ext}"

  /** The naming pattern: the stored setting, or the default when there are no settings. */
  function SavePattern(env: Env): string {
    if env.settings.Some? then env.settings.value.translationSavePattern else Settings.DefaultSavePattern
  }

  /**
   * The file name a pattern gives: its tokens replaced by the base name, the language code
   * and the extension, in that order; without an extension the dots at either end are trimmed.
   */
  function SaveName(pattern: string, name: string, code: string, ext: string): string {
    var filename := ReplaceAll(ReplaceAll(ReplaceAll(pattern, NameToken, name), LangToken, code), ExtToken, ext);
    if ext == "" then Trim(filename, '.') else filename
  }

  /** `defaultSaveURL(for:language:)`: the pattern's file name, beside the original. */
  function DefaultSaveURL(env: Env, originalURL: Url, language: SupportedLanguage): Url {
    AppendingPathComponent(DeletingLastPathComponent(originalURL),
      SaveName(SavePattern(env), BaseName(originalURL), LanguageCode(language), PathExtension(originalURL)))
  }

  /** What `saveActiveTranslation()` offers in its save panel: a name, a directory and the text to write. */
  datatype SavePrompt = SavePrompt(suggestedName: string, directory: Url, content: string)

  /**
   * `saveActiveTranslation()` up to the save panel: nothing without an active panel whose
   * file is open; otherwise the last component of the default save URL, the original's
   * directory and the panel's translation.
   */
  function SavePromptOf(env: Env, st: Model): Option<SavePrompt> {
    var pi := if st.activePanelID.Some? then PanelIndex(st.panels, st.activePanelID.value) else -1;
    if pi < 0 then None
    else
      var panel := st.panels[pi];
      match FindFile(st.files, panel.fileID)
      case None => None
      case Some(file) =>
        Some(SavePrompt(LastPathComponent(DefaultSaveURL(env, file.url, panel.targetLanguage)),
                        DeletingLastPathComponent(file.url), panel.translatedContent))
  }

  /** A failed write of the chosen file raises the error alert. */
  function SaveFailed(st: Model, description: string): Model {
    st.(errorMessage := "Failed to save translation: " + description, showError := true)
  }

  /**
   * A save is offered exactly when the active panel and its file are open; it writes that
   * panel's translation, and with the default pattern it suggests `name_<code>.ext` in the
   * file's own directory.
   */
  lemma SavePromptSpec(env: Env, st: Model, k: nat, i: nat, dir: Url, name: string, ext: string)
    requires ValidModel(st) && k < |st.panels| && i < |st.files|
    requires st.activePanelID == Some(st.panels[k].id) && st.files[i].id == st.panels[k].fileID
    requires SavePattern(env) == Settings.DefaultSavePattern
    requires name != [] && '.' !in name && '/' !in name && '{' !in name
    requires ext != [] && '.' !in ext && '/' !in ext && '{' !in ext
    requires st.files[i].url == AppendingPathComponent(dir, name + "." + ext)
    ensures var prompt := SavePromptOf(env, st);
      prompt.Some? && prompt.value.content == st.panels[k].translatedContent &&
      prompt.value.suggestedName == name + "_" + LanguageCode(st.panels[k].targetLanguage) + "." + ext &&
      prompt.value.directory == DeletingLastPathComponent(st.files[i].url)
  {
    PanelIndexOf(st.panels, k);
    FileIndexOf(st.files, i);
    FindFileAtIndex(st.files, st.panels[k].fileID);
    SuggestedName(env, dir, name, ext, st.panels[k].targetLanguage);
  }

  /** The name the save panel suggests, with the default pattern. */
  lemma SuggestedName(env: Env, dir: Url, name: string, ext: string, language: SupportedLanguage)
    requires SavePattern(env) == Settings.DefaultSavePattern
    requires name != [] && '.' !in name && '/' !in name && '{' !in name
    requires ext != [] && '.' !in ext && '/' !in ext && '{' !in ext
    ensures LastPathComponent(DefaultSaveURL(env, AppendingPathComponent(dir, name + "." + ext), language)) ==
      name + "_" + LanguageCode(language) + "." + ext
  {
    var code := LanguageCode(language);
    DefaultSaveName(env, dir, name, ext, language);
    LanguageCodePlain(language);
    NoSlashIn(name, code, ext);
    AppendingPathComponentSplits(dir, name + "_" + code + "." + ext);
  }

  /** `name_code.ext` has no slash when none of its parts has one. */
  lemma NoSlashIn(name: string, code: string, ext: string)
    requires '/' !in name && '/' !in code && '/' !in ext
    ensures '/' !in name + "_" + code + "." + ext
  {
    var s := name + "_" + code + "." + ext;
    forall k | 0 <= k < |s|
      ensures s[k] != '/'
    {
      var n := |name|;
      var c := |code|;
      if k < n {
        assert s[k] == name[k];
      } else if n < k < n + 1 + c {
        assert s[k] == code[k - n - 1];
      } else if k > n + 1 + c {
        assert s[k] == ext[k - n - c - 2];
      }
    }
  }

  /** A prompt is offered only for an active panel, and only when its file is open. */
  lemma SavePromptNeedsFile(env: Env, st: Model)
    ensures SavePromptOf(env, st).Some? ==> st.activePanelID.Some?
    ensures SavePromptOf(env, st).Some? ==> exists k, i ::
      (0 <= k < |st.panels| && 0 <= i < |st.files| &&
       st.panels[k].id == st.activePanelID.value && st.files[i].id == st.panels[k].fileID &&
       SavePromptOf(env, st).value.content == st.panels[k].translatedContent)
  {
    if SavePromptOf(env, st).Some? {
      var pi := PanelIndex(st.panels, st.activePanelID.value);
      FindFileAtIndex(st.files, st.panels[pi].fileID);
      var i := FileIndex(st.files, st.panels[pi].fileID);
      assert 0 <= pi < |st.panels| && 0 <= i < |st.files|;
    }
  }

  /** Language codes hold no token brace, dot or slash. */
  lemma LanguageCodePlain(l: SupportedLanguage)
    ensures var c := LanguageCode(l); c != [] && '{' !in c && '.' !in c && '/' !in c
  {
    match l
    case Arabic =>
    case ChineseSimplified =>
    case ChineseTraditional =>
    case Dutch =>
    case English =>
    case French =>
    case German =>
    case Hindi =>
    case Indonesian =>
    case Italian =>
    case Japanese =>
    case Korean =>
    case Polish =>
    case Portuguese =>
    case Russian =>
    case Spanish =>
    case Thai =>
    case Turkish =>
    case Ukrainian =>
    case Vietnamese =>
  }

  /** A token starts with '{', so it cannot occur at a position of text without one. */
  lemma NoBraceNoToken(b: string, token: string, rest: string)
    requires token != [] && token[0] == '{' && '{' !in b
    ensures forall i :: 0 <= i < |b| ==> !OccursAt(b + rest, token, i)
  {
    forall i | 0 <= i < |b|
      ensures !OccursAt(b + rest, token, i)
    {
      assert (b + rest)[i] == b[i];
      if i + |token| <= |b + rest| {
        assert (b + rest)[i..i + |token|][0] == (b + rest)[i];
      }
    }
  }

  /** Replacing a token in `a + token + b`, when `a` has no '{' and `b` no token. */
  lemma ReplaceOnce(a: string, token: string, b: string, rep: string)
    requires token != [] && token[0] == '{' && '{' !in a
    requires forall i :: 0 <= i < |b| ==> !OccursAt(b, token, i)
    ensures ReplaceAll(a + token + b, token, rep) == a + rep + b
  {
    NoBraceNoToken(a, token, token + b);
    assert a + token + b == a + (token + b);
    ReplaceFirst(a, token, b, rep);
    ReplaceAbsent(b, token, rep);
  }

  /** Text without '{' holds no token. */
  lemma BraceFree(b: string, token: string)
    requires token != [] && token[0] == '{' && '{' !in b
    ensures forall i :: 0 <= i < |b| ==> !OccursAt(b, token, i)
  {
    NoBraceNoToken(b, token, "");
    assert b + "" == b;
  }

  /** A token starts with '{', so text whose braces each start no token holds none. */
  lemma OnlyAtBraces(b: string, token: string)
    requires token != [] && token[0] == '{'
    requires forall i :: 0 <= i < |b| && b[i] == '{' ==> !OccursAt(b, token, i)
    ensures forall i :: 0 <= i < |b| ==> !OccursAt(b, token, i)
  {
    forall i | 0 <= i < |b|
      ensures !OccursAt(b, token, i)
    {
      if i + |token| <= |b| {
        assert b[i..i + |token|][0] == b[i];
      }
    }
  }

  /** Text without '{' is copied past when replacing a token. */
  lemma SkipPlain(a: string, b: string, token: string, rep: string)
    requires token != [] && token[0] == '{' && '{' !in a
    ensures ReplaceAll(a + b, token, rep) == a + ReplaceAll(b, token, rep)
  {
    NoBraceNoToken(a, token, b);
    ReplaceSkip(a, b, token, rep);
  }

  /** Another token, whose only brace is its first character, is copied past too. */
  lemma SkipOther(u: string, b: string, token: string, rep: string)
    requires token != [] && token[0] == '{'
    requires u != [] && '{' !in u[1..] && !OccursAt(u + b, token, 0)
    ensures ReplaceAll(u + b, token, rep) == u + ReplaceAll(b, token, rep)
  {
    forall i | 1 <= i < |u|
      ensures !OccursAt(u + b, token, i)
    {
      assert (u + b)[i] == u[1..][i - 1];
      if i + |token| <= |u + b| {
        assert (u + b)[i..i + |token|][0] == (u + b)[i];
      }
    }
    ReplaceSkip(u, b, token, rep);
  }

  /** Replacing the first of three tokens in `n_l.e`, when neither later token is the first. */
  lemma FillFirst(n: string, l: string, e: string, name: string)
    requires n != [] && n[0] == '{' && l != [] && '{' !in l[1..] && |e| < |n|
    requires !OccursAt(l + ("." + e), n, 0)
    ensures ReplaceAll(n + "_" + l + "." + e, n, name) == name + "_" + l + "." + e
  {
    var tail := "." + e;
    var lt := l + tail;
    var rest := "_" + lt;
    assert ReplaceAll(e, n, name) == e;
    assert ReplaceAll(tail, n, name) == tail by {
      SkipPlain(".", e, n, name);
    }
    assert ReplaceAll(lt, n, name) == lt by {
      SkipOther(l, tail, n, name);
    }
    assert ReplaceAll(rest, n, name) == rest by {
      SkipPlain("_", lt, n, name);
    }
    ReplaceAtStart(n, rest, name);
    assert n + "_" + l + "." + e == n + rest;
    assert name + rest == name + "_" + l + "." + e;
  }

  /** Step one of the default pattern: `{name}`. */
  lemma FillName(name: string)
    ensures ReplaceAll(Settings.DefaultSavePattern, NameToken, name) == name + "_" + LangToken + "." + ExtToken
  {
    assert Settings.DefaultSavePattern == NameToken + "_" + LangToken + "." + ExtToken;
    assert (LangToken + ("." + ExtToken))[0..|NameToken|] == LangToken;
    FillFirst(NameToken, LangToken, ExtToken, name);
  }

  /** Step two: `{lang}`. */
  lemma FillLang(name: string, code: string)
    requires '{' !in name
    ensures ReplaceAll(name + "_" + LangToken + "." + ExtToken, LangToken, code) == name + "_" + code + "." + ExtToken
  {
    var rest := "." + ExtToken;
    assert rest[1..6] == ExtToken;
    OnlyAtBraces(rest, LangToken);
    assert name + "_" + LangToken + "." + ExtToken == (name + "_") + LangToken + rest;
    ReplaceOnce(name + "_", LangToken, rest, code);
    assert (name + "_") + code + rest == name + "_" + code + "." + ExtToken;
  }

  /** Step three: `{ext}`. */
  lemma FillExt(w: string, ext: string)
    requires '{' !in w
    ensures ReplaceAll(w + ExtToken, ExtToken, ext) == w + ext
  {
    BraceFree("", ExtToken);
    assert w + ExtToken == w + ExtToken + "";
    ReplaceOnce(w, ExtToken, "", ext);
    assert w + ext + "" == w + ext;
  }

  /** The default pattern fills in `{name}`, `{lang}` and `{ext}` one after the other. */
  lemma DefaultPatternFilled(name: string, code: string, ext: string)
    requires '{' !in name && '{' !in code && '{' !in ext
    ensures ReplaceAll(ReplaceAll(ReplaceAll(Settings.DefaultSavePattern, NameToken, name), LangToken, code), ExtToken, ext) ==
      name + "_" + code + "." + ext
  {
    FillName(name);
    FillLang(name, code);
    var w := name + "_" + code + ".";
    assert '{' !in w;
    assert name + "_" + code + "." + ExtToken == w + ExtToken;
    FillExt(w, ext);
  }

  /** The default pattern names `name.ext` as `name_<code>.ext`. */
  lemma SaveNameDefault(name: string, code: string, ext: string)
    requires '{' !in name && '{' !in code && '{' !in ext && ext != ""
    ensures SaveName(Settings.DefaultSavePattern, name, code, ext) == name + "_" + code + "." + ext
  {
    DefaultPatternFilled(name, code, ext);
  }

  /** Without an extension, the default pattern's trailing dot is trimmed: `name` becomes `name_<code>`. */
  lemma SaveNameDefaultBare(name: string, code: string)
    requires '{' !in name && '{' !in code && name != [] && name[0] != '.' && code != [] && code[|code| - 1] != '.'
    ensures SaveName(Settings.DefaultSavePattern, name, code, "") == name + "_" + code
  {
    DefaultPatternFilled(name, code, "");
    var w := name + "_" + code;
    assert name + "_" + code + "." + "" == w + ".";
    assert w[0] == name[0] && w[|w| - 1] == code[|code| - 1];
    TrimDot(w);
  }

  /** The file name a save is computed from: the name before the last dot and the extension after it. */
  lemma FileNameParts(dir: Url, name: string, ext: string, saved: string)
    requires name != [] && '.' !in name && '/' !in name && '.' !in ext && '/' !in ext
    ensures var url := AppendingPathComponent(dir, if ext == "" then name else name + "." + ext);
      BaseName(url) == name && PathExtension(url) == ext &&
      AppendingPathComponent(DeletingLastPathComponent(url), saved) == AppendingPathComponent(dir, saved)
  {
    var file := if ext == "" then name else name + "." + ext;
    assert '/' !in file by {
      forall k | 0 <= k < |file|
        ensures file[k] != '/'
      {
        if k < |name| {
          assert file[k] == name[k];
        } else if k > |name| {
          assert file[k] == ext[k - |name| - 1];
        }
      }
    }
    AppendingPathComponentSplits(dir, file);
    if ext == "" {
      assert LastIndexOf(name, '.') == -1;
    } else {
      ExtensionSplitsOff(name, ext);
      var parts := SplitExtension(file);
      assert parts.0 + "." + parts.1 == name + "." + ext;
    }
  }

  /**
   * With the default pattern, `dir/name.ext` is saved as `dir/name_<code>.ext`, and `dir/name`
   * as `dir/name_<code>`, for a name and an extension without a dot, a slash or a brace.
   */
  lemma DefaultSaveName(env: Env, dir: Url, name: string, ext: string, language: SupportedLanguage)
    requires SavePattern(env) == Settings.DefaultSavePattern
    requires name != [] && '.' !in name && '/' !in name && '{' !in name
    requires '.' !in ext && '/' !in ext && '{' !in ext
    ensures var code := LanguageCode(language);
      DefaultSaveURL(env, AppendingPathComponent(dir, if ext == "" then name else name + "." + ext), language) ==
      AppendingPathComponent(dir, if ext == "" then name + "_" + code else name + "_" + code + "." + ext)
  {
    var code := LanguageCode(language);
    LanguageCodePlain(language);
    var saved := if ext == "" then name + "_" + code else name + "_" + code + "." + ext;
    FileNameParts(dir, name, ext, saved);
    if ext == "" {
      SaveNameDefaultBare(name, code);
    } else {
      SaveNameDefault(name, code, ext);
    }
  }

  /** Trimming dots from `w + "."` gives `w` back when `w` neither starts nor ends with one. */
  lemma TrimDot(w: string)
    requires w != [] && w[0] != '.' && w[|w| - 1] != '.'
    ensures Trim(w + ".", '.') == w
  {
    var s := w + ".";
    var r := Trim(s, '.');
    assert s[0] == w[0] != '.';
    assert s[|w| - 1] == w[|w| - 1] != '.';
    assert s[|s| - 1] == '.';
    assert |r| == |w|;
    assert r == s[..|w|] == w;
  }
}
