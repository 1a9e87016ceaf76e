/**
 * The current translation view model: a shared FIFO of language-pack downloads. Requests
 * from a translation panel go to the front, bulk requests from the settings go to the back
 * (deduplicated within one request), and `advanceQueue` drives one pair at a time through
 * `translationConfig`, skipping pairs that are installed by the time they come up.
 *
 * Locale pairs are written as language pairs: the locales are built from `languageCode`,
 * which is injective, and the pivot locale "en" is English's code (EnglishIsPivot).
 */
module DownloadQueue {
  import opened Wrappers
  import opened Languages
  import opened Availability
  import opened TranslationServices
  import opened Seqs

  /** Every field the queue logic reads or writes, as one value. */
  datatype QueueState = QueueState(
    status: string,
    preparing: bool,
    config: Option<LanguagePair>,
    taskID: int,
    queue: seq<LanguagePair>,
    currentSource: Option<SupportedLanguage>,
    currentTarget: Option<SupportedLanguage>,
    completions: nat)  // times `onAllDownloadsComplete` has been invoked

  /** The configuration names the pair being downloaded, and there is one exactly when it is set. */
  predicate Consistent(st: QueueState) {
    match st.config
    case None => st.currentSource.None? && st.currentTarget.None?
    case Some(pair) => st.currentSource == Some(pair.source) && st.currentTarget == Some(pair.target)
  }

  // ---------------------------------------------------------------------------
  // Specification of each operation, as a function of the state before it

  /** What `advanceQueue` pops: the installed entries at the front, up to the first that is not. */
  function SkipInstalled(table: StatusTable, queue: seq<LanguagePair>): seq<LanguagePair> {
    if queue == [] then []
    else if table(queue[0].source, queue[0].target) == Installed then SkipInstalled(table, queue[1..])
    else queue
  }

  /** `advanceQueue`: drive the next pair that still needs a download, or finish. */
  function Advance(table: StatusTable, st: QueueState): QueueState {
    var rest := SkipInstalled(table, st.queue);
    if rest == [] then
      st.(queue := [], currentSource := None, currentTarget := None, status := "",
          preparing := false, config := None, completions := st.completions + 1)
    else
      st.(queue := rest[1..], currentSource := Some(rest[0].source), currentTarget := Some(rest[0].target),
          config := Some(rest[0]), taskID := st.taskID + 1)
  }

  /** `prepareTranslation(from: source, to: target)`, apart from the session it may create. */
  function Prepare(table: StatusTable, st: QueueState, source: SupportedLanguage, target: SupportedLanguage): QueueState {
    if source == target || table(source, target) == Installed then st.(preparing := false)
    else Advance(table, st.(preparing := true, queue := MissingLegs(table, source, target) + st.queue))
  }

  /** The key `startBulkDownload` deduplicates by, "src>tgt" over language codes. */
  function BulkKey(pair: LanguagePair): string {
    LanguageCode(pair.source) + ">" + LanguageCode(pair.target)
  }

  function KeysOf(legs: seq<LanguagePair>): set<string> {
    set i | 0 <= i < |legs| :: BulkKey(legs[i])
  }

  /** The legs each requested pair still needs, pair by pair, before deduplication. */
  function Candidates(table: StatusTable, pairs: seq<LanguagePair>): seq<LanguagePair> {
    if pairs == [] then []
    else
      var last := pairs[|pairs| - 1];
      Candidates(table, pairs[..|pairs| - 1]) + MissingLegs(table, last.source, last.target)
  }

  /** Keeps the first occurrence of each leg, in order. */
  function Dedup(legs: seq<LanguagePair>): seq<LanguagePair> {
    if legs == [] then []
    else
      var init := Dedup(legs[..|legs| - 1]);
      var last := legs[|legs| - 1];
      if last in init then init else init + [last]
  }

  /** What one bulk request adds to the back of the queue. */
  function BulkNeeded(table: StatusTable, pairs: seq<LanguagePair>): seq<LanguagePair> {
    Dedup(Candidates(table, pairs))
  }

  /** `startBulkDownload(pairs:)`. */
  function Bulk(table: StatusTable, st: QueueState, pairs: seq<LanguagePair>): QueueState {
    var needed := BulkNeeded(table, pairs);
    if needed == [] then st
    else
      var appended := st.(queue := st.queue + needed);
      if st.config.None? then Advance(table, appended) else appended
  }

  /** `onTranslationDownloadFailed(_:)`, given the error's `localizedDescription`. */
  function Fail(st: QueueState, description: string): QueueState {
    st.(queue := [], currentSource := None, currentTarget := None, config := None,
        status := "Download failed: " + description, preparing := false)
  }

  // ---------------------------------------------------------------------------
  // The view model

  class TranslationViewModel {
    var translationStatus: string
    var isPreparingTranslation: bool
    var translationConfig: Option<LanguagePair>
    /** Incremented each time `translationConfig` is set, so the download task re-triggers. */
    var translationTaskID: int
    var downloadQueue: seq<LanguagePair>
    var currentDownloadSource: Option<SupportedLanguage>
    var currentDownloadTarget: Option<SupportedLanguage>
    /** How often `onAllDownloadsComplete` has been invoked. */
    var allDownloadsCompleteCount: nat
    const translationService: TranslationService
    /** The system's oracle, shared with the service. */
    const availability: LanguageAvailability

    function State(): QueueState
      reads this
    {
      QueueState(translationStatus, isPreparingTranslation, translationConfig, translationTaskID,
                 downloadQueue, currentDownloadSource, currentDownloadTarget, allDownloadsCompleteCount)
    }

    /** The fields hold exactly the given state. */
    predicate Holds(st: QueueState)
      reads this
    {
      translationStatus == st.status && isPreparingTranslation == st.preparing
      && translationConfig == st.config && translationTaskID == st.taskID
      && downloadQueue == st.queue && currentDownloadSource == st.currentSource
      && currentDownloadTarget == st.currentTarget && allDownloadsCompleteCount == st.completions
    }

    ghost predicate Valid()
      reads this, translationService
    {
      translationService.Valid() && translationService.availability == availability
    }

    constructor (availability: LanguageAvailability,
                 engine: (SupportedLanguage, SupportedLanguage, string) -> Result<string, string>,
                 hasMacOS26: bool)
      ensures Valid() && fresh(translationService) && this.availability == availability
      ensures translationService.sessions == map[] && translationService.hasMacOS26 == hasMacOS26
      ensures Holds(QueueState("", false, None, 0, [], None, None, 0))
    {
      translationStatus := "";
      isPreparingTranslation := false;
      translationConfig := None;
      translationTaskID := 0;
      downloadQueue := [];
      currentDownloadSource := None;
      currentDownloadTarget := None;
      allDownloadsCompleteCount := 0;
      this.availability := availability;
      translationService := new TranslationService(availability, engine, hasMacOS26);
    }

    method AdvanceQueue()
      modifies this
      ensures Holds(Advance(availability.status, old(State())))
    {
      var table := availability.status;
      ghost var rest := SkipInstalled(table, downloadQueue);
      while downloadQueue != []
        invariant SkipInstalled(table, downloadQueue) == rest
        invariant translationStatus == old(translationStatus) && isPreparingTranslation == old(isPreparingTranslation)
        invariant translationConfig == old(translationConfig) && translationTaskID == old(translationTaskID)
        invariant currentDownloadSource == old(currentDownloadSource) && currentDownloadTarget == old(currentDownloadTarget)
        invariant allDownloadsCompleteCount == old(allDownloadsCompleteCount)
        decreases |downloadQueue|
      {
        var next := downloadQueue[0];
        downloadQueue := downloadQueue[1..];
        var status := table(next.source, next.target);
        if status != Installed {
          currentDownloadSource := Some(next.source);
          currentDownloadTarget := Some(next.target);
          translationConfig := Some(next);
          translationTaskID := translationTaskID + 1;
          return;
        }
      }
      // queue empty: all done
      currentDownloadSource := None;
      currentDownloadTarget := None;
      translationStatus := "";
      isPreparingTranslation := false;
      translationConfig := None;
      allDownloadsCompleteCount := allDownloadsCompleteCount + 1;
    }

    method PrepareTranslation(source: SupportedLanguage, target: SupportedLanguage)
      requires Valid()
      modifies this, translationService
      ensures Valid()
      ensures Holds(Prepare(availability.status, old(State()), source, target))
      ensures var key := SessionKey(source, target);
        translationService.sessions ==
          if source != target && availability.status(source, target) == Installed
             && translationService.hasMacOS26 && key !in old(translationService.sessions)
          then old(translationService.sessions)[key := Session(source, target)]
          else old(translationService.sessions)
    {
      if source == target {
        isPreparingTranslation := false;
        return;
      }
      isPreparingTranslation := true;
      var table := availability.status;
      var directStatus := table(source, target);
      if directStatus == Installed {
        if translationService.hasMacOS26 {
          translationService.CreateSession(source, target);
        }
        isPreparingTranslation := false;
        return;
      }
      var newLegs := CollectMissingLegs(table, source, target);
      // insert at the front: a panel's request has priority over bulk downloads
      downloadQueue := newLegs + downloadQueue;
      ghost var pre := State();
      assert pre == old(State()).(preparing := true, queue := MissingLegs(table, source, target) + old(downloadQueue));
      AdvanceQueue();
    }

    method StartBulkDownload(pairs: seq<LanguagePair>)
      modifies this
      ensures Holds(Bulk(availability.status, old(State()), pairs))
    {
      var needed := CollectBulkNeeded(availability.status, pairs);
      if needed == [] {
        return;
      }
      downloadQueue := downloadQueue + needed;
      if translationConfig == None {
        ghost var pre := State();
        assert pre == old(State()).(queue := old(downloadQueue) + needed);
        AdvanceQueue();
      }
    }

    /** Called once the system's download sheet finishes without an error. */
    method VerifyAndCompleteDownload()
      modifies this
      ensures Holds(Advance(availability.status, old(State())))
    {
      if currentDownloadSource.None? || currentDownloadTarget.None? {
        AdvanceQueue();
        return;
      }
      var status := availability.status(currentDownloadSource.value, currentDownloadTarget.value);
      if status == Installed {
        AdvanceQueue();
      } else {
        // dismissed without downloading: skip to the next pair
        AdvanceQueue();
      }
    }

    method OnTranslationDownloadFailed(description: string)
      modifies this
      ensures Holds(Fail(old(State()), description))
    {
      downloadQueue := [];
      currentDownloadSource := None;
      currentDownloadTarget := None;
      translationConfig := None;
      translationStatus := "Download failed: " + description;
      isPreparingTranslation := false;
    }
  }

  /**
   * The collection loop of `startBulkDownload`: each pair's downloadable legs, in request order,
   * each "src>tgt" key taken once.
   */
  method CollectBulkNeeded(table: StatusTable, pairs: seq<LanguagePair>) returns (needed: seq<LanguagePair>)
    ensures needed == BulkNeeded(table, pairs)
  {
    var seen: set<string> := {};
    needed := [];
    for i := 0 to |pairs|
      invariant needed == BulkNeeded(table, pairs[..i])
      invariant seen == KeysOf(needed)
    {
      assert pairs[..i + 1][..i] == pairs[..i];
      needed, seen := CollectPairLegs(table, pairs[i], needed, seen, Candidates(table, pairs[..i]));
    }
    assert pairs[..|pairs|] == pairs;
  }

  /** One iteration of that loop: the pair's status, then its legs, each key checked against `seen`. */
  method CollectPairLegs(table: StatusTable, pair: LanguagePair, needed: seq<LanguagePair>, seen: set<string>,
                         ghost before: seq<LanguagePair>)
    returns (needed': seq<LanguagePair>, seen': set<string>)
    requires needed == Dedup(before) && seen == KeysOf(needed)
    ensures needed' == Dedup(before + MissingLegs(table, pair.source, pair.target))
    ensures seen' == KeysOf(needed')
  {
    needed', seen' := needed, seen;
    var status := table(pair.source, pair.target);
    match status {
      case Supported =>
        DedupSnoc(before, pair);
        needed', seen' := InsertUnseen(needed', seen', pair);
      case Unsupported =>
        ghost var legs := before;
        var leg1Status := table(pair.source, English);
        if leg1Status == Supported {
          DedupSnoc(legs, LanguagePair(pair.source, English));
          needed', seen' := InsertUnseen(needed', seen', LanguagePair(pair.source, English));
          legs := legs + [LanguagePair(pair.source, English)];
        }
        var leg2Status := table(English, pair.target);
        if leg2Status == Supported {
          DedupSnoc(legs, LanguagePair(English, pair.target));
          needed', seen' := InsertUnseen(needed', seen', LanguagePair(English, pair.target));
          legs := legs + [LanguagePair(English, pair.target)];
        }
        assert legs == before + MissingLegs(table, pair.source, pair.target);
      case Installed =>
        assert before + MissingLegs(table, pair.source, pair.target) == before;
    }
  }

  /** `seen.insert(key).inserted`, then the append it guards. */
  method InsertUnseen(needed: seq<LanguagePair>, seen: set<string>, leg: LanguagePair)
    returns (needed': seq<LanguagePair>, seen': set<string>)
    requires seen == KeysOf(needed)
    ensures needed' == if leg in needed then needed else needed + [leg]
    ensures seen' == KeysOf(needed')
  {
    var key := BulkKey(leg);
    if key in seen {
      var i :| 0 <= i < |needed| && BulkKey(needed[i]) == key;
      BulkKeyInjective(needed[i], leg);
      return needed, seen;
    }
    assert leg !in needed;
    needed', seen' := needed + [leg], seen + {key};
    assert KeysOf(needed') == KeysOf(needed) + {key} by {
      forall k | k in KeysOf(needed')
        ensures k in KeysOf(needed) + {key}
      {
        var i :| 0 <= i < |needed'| && BulkKey(needed'[i]) == k;
        if i < |needed| {
          assert needed'[i] == needed[i];
        }
      }
      forall k | k in KeysOf(needed)
        ensures k in KeysOf(needed')
      {
        var i :| 0 <= i < |needed| && BulkKey(needed[i]) == k;
        assert needed'[i] == needed[i];
      }
      assert needed'[|needed|] == leg;
    }
  }

  // ---------------------------------------------------------------------------
  // Properties

  lemma BulkKeyInjective(p: LanguagePair, q: LanguagePair)
    requires BulkKey(p) == BulkKey(q)
    ensures p == q
  {
    LanguageCodeShape(p.source);
    LanguageCodeShape(q.source);
    SplitAtChar(LanguageCode(p.source), LanguageCode(p.target), LanguageCode(q.source), LanguageCode(q.target), '>');
    LanguageCodeInjective(p.source, q.source);
    LanguageCodeInjective(p.target, q.target);
  }

  function AppendNew(legs: seq<LanguagePair>, leg: LanguagePair): seq<LanguagePair> {
    if leg in legs then legs else legs + [leg]
  }

  lemma DedupSnoc(legs: seq<LanguagePair>, leg: LanguagePair)
    ensures Dedup(legs + [leg]) == AppendNew(Dedup(legs), leg)
  {
    assert (legs + [leg])[..|legs|] == legs;
  }

  /** `advanceQueue` pops only installed pairs before the one it stops at, and never an uninstalled one. */
  lemma {:induction false} SkipInstalledSkipsOnlyInstalled(table: StatusTable, queue: seq<LanguagePair>)
    ensures var rest := SkipInstalled(table, queue);
      |rest| <= |queue| && rest == queue[|queue| - |rest|..]
      && (forall i :: 0 <= i < |queue| - |rest| ==> table(queue[i].source, queue[i].target) == Installed)
      && (rest != [] ==> table(rest[0].source, rest[0].target) != Installed)
    decreases |queue|
  {
    if queue != [] && table(queue[0].source, queue[0].target) == Installed {
      SkipInstalledSkipsOnlyInstalled(table, queue[1..]);
      var rest := SkipInstalled(table, queue[1..]);
      forall i | 0 <= i < |queue| - |rest|
        ensures table(queue[i].source, queue[i].target) == Installed
      {
        if i > 0 {
          assert queue[i] == queue[1..][i - 1];
        }
      }
    }
  }

  /**
   * After `advanceQueue` either exactly one pair is being driven, popped from the queue, not
   * installed, with the task id bumped by one; or the queue was all installed, everything is
   * cleared and the all-complete callback has fired once more.
   */
  lemma AdvanceDrivesOnePair(table: StatusTable, st: QueueState)
    ensures var r := Advance(table, st);
      Consistent(r) &&
      |r.queue| < |st.queue| + (if st.queue == [] then 1 else 0) &&
      r.queue == st.queue[|st.queue| - |r.queue|..] &&
      match r.config
      case Some(pair) =>
        table(pair.source, pair.target) != Installed && pair in st.queue &&
        r.taskID == st.taskID + 1 && r.completions == st.completions &&
        r.status == st.status && r.preparing == st.preparing
      case None =>
        r.queue == [] && r.status == "" && !r.preparing && r.taskID == st.taskID &&
        r.completions == st.completions + 1 &&
        forall i :: 0 <= i < |st.queue| ==> table(st.queue[i].source, st.queue[i].target) == Installed
  {
    SkipInstalledSkipsOnlyInstalled(table, st.queue);
    var rest := SkipInstalled(table, st.queue);
    if rest != [] {
      assert rest[0] == st.queue[|st.queue| - |rest|];
      assert rest[1..] == st.queue[|st.queue| - |rest| + 1..];
    }
  }

  /** Translating into the same language, or on an installed pair, leaves the queue alone. */
  lemma PrepareLeavesQueue(table: StatusTable, st: QueueState, source: SupportedLanguage, target: SupportedLanguage)
    requires source == target || table(source, target) == Installed
    ensures var r := Prepare(table, st, source, target);
      !r.preparing && r.queue == st.queue && r.config == st.config && r.currentSource == st.currentSource
      && r.currentTarget == st.currentTarget && r.taskID == st.taskID && r.completions == st.completions
  {
  }

  /**
   * A panel's request jumps the queue: its missing legs go in front of every waiting entry, in
   * order, and the queue is advanced at once, even while another pair is being downloaded, so
   * the pair in flight is replaced by the first leg that still needs a download.
   */
  lemma PrepareJumpsTheQueue(table: StatusTable, st: QueueState, source: SupportedLanguage, target: SupportedLanguage)
    requires source != target && table(source, target) != Installed
    ensures var legs := MissingLegs(table, source, target);
      var r := Prepare(table, st, source, target);
      legs != [] ==> r.config == Some(legs[0]) && r.queue == legs[1..] + st.queue && r.taskID == st.taskID + 1
  {
    var legs := MissingLegs(table, source, target);
    MissingLegsExactly(table, source, target);
    if legs != [] {
      assert table(legs[0].source, legs[0].target) == Supported;
      assert (legs + st.queue)[0] == legs[0];
      assert (legs + st.queue)[1..] == legs[1..] + st.queue;
    }
  }

  /**
   * A bulk request only appends at the back: with a download in flight nothing else changes,
   * and a request that needs nothing changes nothing at all.
   */
  lemma BulkAppendsOnly(table: StatusTable, st: QueueState, pairs: seq<LanguagePair>)
    ensures var needed := BulkNeeded(table, pairs);
      var r := Bulk(table, st, pairs);
      (needed == [] ==> r == st) &&
      (st.config.Some? ==> r == st.(queue := st.queue + needed)) &&
      (st.config.None? && needed != [] ==> r == Advance(table, st.(queue := st.queue + needed)))
  {
  }

  /** Within one bulk request no leg, and so no "src>tgt" key, is enqueued twice. */
  lemma BulkNeededDistinct(table: StatusTable, pairs: seq<LanguagePair>)
    ensures var needed := BulkNeeded(table, pairs);
      forall i, j :: 0 <= i < j < |needed| ==> BulkKey(needed[i]) != BulkKey(needed[j])
  {
    var needed := BulkNeeded(table, pairs);
    DedupDistinct(Candidates(table, pairs));
    forall i, j | 0 <= i < j < |needed|
      ensures BulkKey(needed[i]) != BulkKey(needed[j])
    {
      if BulkKey(needed[i]) == BulkKey(needed[j]) {
        BulkKeyInjective(needed[i], needed[j]);
      }
    }
  }

  /**
   * A bulk request enqueues exactly the downloadable legs of its pairs: each one a leg of a
   * requested pair with status downloadable, and every such leg that an installed direct
   * pair does not make unnecessary.
   */
  lemma BulkNeededExactly(table: StatusTable, pairs: seq<LanguagePair>, leg: LanguagePair)
    ensures leg in BulkNeeded(table, pairs) <==>
      exists k :: 0 <= k < |pairs| && leg in MissingLegs(table, pairs[k].source, pairs[k].target)
    ensures leg in BulkNeeded(table, pairs) ==> table(leg.source, leg.target) == Supported
  {
    DedupElements(Candidates(table, pairs), leg);
    CandidatesElements(table, pairs, leg);
    if leg in BulkNeeded(table, pairs) {
      var k :| 0 <= k < |pairs| && leg in MissingLegs(table, pairs[k].source, pairs[k].target);
      MissingLegsExactly(table, pairs[k].source, pairs[k].target);
    }
  }

  lemma CandidatesElements(table: StatusTable, pairs: seq<LanguagePair>, leg: LanguagePair)
    ensures leg in Candidates(table, pairs) <==>
      exists k :: 0 <= k < |pairs| && leg in MissingLegs(table, pairs[k].source, pairs[k].target)
  {
    var f := (p: LanguagePair) => MissingLegs(table, p.source, p.target);
    CandidatesFlatten(table, pairs, f);
    FlattenMembers(pairs, f, leg);
    if leg in Candidates(table, pairs) {
      var k :| 0 <= k < |pairs| && leg in f(pairs[k]);
      assert leg in MissingLegs(table, pairs[k].source, pairs[k].target);
    } else {
      forall k | 0 <= k < |pairs|
        ensures leg !in MissingLegs(table, pairs[k].source, pairs[k].target)
      {
        assert f(pairs[k]) == MissingLegs(table, pairs[k].source, pairs[k].target);
      }
    }
  }

  /** The candidates are the missing legs of each pair, concatenated in request order. */
  lemma {:induction false} CandidatesFlatten(table: StatusTable, pairs: seq<LanguagePair>, f: LanguagePair -> seq<LanguagePair>)
    requires forall p :: f(p) == MissingLegs(table, p.source, p.target)
    ensures Candidates(table, pairs) == Flatten(pairs, f)
    decreases |pairs|
  {
    if pairs != [] {
      CandidatesFlatten(table, pairs[..|pairs| - 1], f);
    }
  }


  lemma {:induction false} DedupElements(legs: seq<LanguagePair>, leg: LanguagePair)
    ensures leg in Dedup(legs) <==> leg in legs
    decreases |legs|
  {
    if legs != [] {
      DedupElements(legs[..|legs| - 1], leg);
      assert legs == legs[..|legs| - 1] + [legs[|legs| - 1]];
    }
  }

  lemma {:induction false} DedupDistinct(legs: seq<LanguagePair>)
    ensures var d := Dedup(legs); forall i, j :: 0 <= i < j < |d| ==> d[i] != d[j]
    ensures |Dedup(legs)| <= |legs|
    decreases |legs|
  {
    if legs != [] {
      DedupDistinct(legs[..|legs| - 1]);
    }
  }

  /** The download failing forgets every pending leg and does not count as all downloads complete. */
  lemma FailClearsQueue(st: QueueState, description: string)
    ensures var r := Fail(st, description);
      Consistent(r) && r.queue == [] && r.config.None? && !r.preparing &&
      r.completions == st.completions && r.taskID == st.taskID
  {
  }

  /** Every operation keeps the configuration and the current pair in step. */
  lemma OperationsKeepConsistent(table: StatusTable, st: QueueState, source: SupportedLanguage,
                                 target: SupportedLanguage, pairs: seq<LanguagePair>)
    requires Consistent(st)
    ensures Consistent(Advance(table, st))
    ensures Consistent(Prepare(table, st, source, target))
    ensures Consistent(Bulk(table, st, pairs))
  {
    AdvanceDrivesOnePair(table, st);
    AdvanceDrivesOnePair(table, st.(preparing := true, queue := MissingLegs(table, source, target) + st.queue));
    AdvanceDrivesOnePair(table, st.(queue := st.queue + BulkNeeded(table, pairs)));
  }
}
