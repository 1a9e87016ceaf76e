/**
 * The older view model kept at the root of the repository. It shares the class name of the
 * current one but not its policy: each request replaces the pending legs instead of queueing
 * behind them, and `triggerNextDownload` starts nothing while a configuration is set, so at
 * most one leg is ever driven at a time.
 */
module LegacyDownloadQueue {
  import opened Wrappers
  import opened Languages
  import opened Availability
  import opened TranslationServices

  /** The value that drives the system's download sheet for one pair. */
  datatype TranslationDownloadConfiguration = TranslationDownloadConfiguration(source: SupportedLanguage, target: SupportedLanguage)
  {
    function DisplayName(): (name: string)
      ensures name == Languages.DisplayName(source) + " → " + Languages.DisplayName(target)
    {
      PairLabel(source, target)
    }
  }

  /** Every field the legacy queue logic reads or writes, as one value. */
  datatype LegacyState = LegacyState(
    status: string,
    preparing: bool,
    config: Option<TranslationDownloadConfiguration>,
    pending: seq<LanguagePair>)

  // ---------------------------------------------------------------------------
  // Specification of each operation, as a function of the state before it

  /** `triggerNextDownload()`. */
  function Trigger(st: LegacyState): LegacyState {
    if st.config.Some? then st
    else if st.pending == [] then
      st.(preparing := false, status := if st.status == "" then "Ready" else st.status)
    else
      var next := TranslationDownloadConfiguration(st.pending[0].source, st.pending[0].target);
      st.(pending := st.pending[1..], status := "Downloading: " + next.DisplayName() + "…",
          config := Some(next))
  }

  /** `prepareTranslation(from: source, to: target)`, apart from the session it may create. */
  function Prepare(table: StatusTable, st: LegacyState, source: SupportedLanguage, target: SupportedLanguage): LegacyState {
    var checking := st.(preparing := true, status := "Checking language packs…");
    var legs := MissingLegs(table, source, target);
    if table(source, target) == Installed then
      checking.(status := "Language packs installed", preparing := false)
    else if legs == [] then
      checking.(status := "Language pair unsupported", preparing := false)
    else
      Trigger(checking.(pending := legs))
  }

  /** `onTranslationDownloadComplete()`. */
  function Complete(st: LegacyState): LegacyState {
    var reported := match st.config
      case Some(finished) => st.(status := "Installed: " + finished.DisplayName())
      case None => st;
    Trigger(reported.(config := None))
  }

  /** `onTranslationDownloadFailed(_:)`, given the error's `localizedDescription`. */
  function Failed(st: LegacyState, description: string): LegacyState {
    Trigger(st.(status := "Download failed: " + description, config := None))
  }

  // ---------------------------------------------------------------------------
  // The view model

  class TranslationViewModel {
    var translationStatus: string
    var isPreparingTranslation: bool
    var translationConfig: Option<TranslationDownloadConfiguration>
    var pendingDownloadLegs: seq<LanguagePair>
    const service: TranslationService

    function State(): LegacyState
      reads this
    {
      LegacyState(translationStatus, isPreparingTranslation, translationConfig, pendingDownloadLegs)
    }

    /** The fields hold exactly the given state. */
    predicate Holds(st: LegacyState)
      reads this
    {
      translationStatus == st.status && isPreparingTranslation == st.preparing
      && translationConfig == st.config && pendingDownloadLegs == st.pending
    }

    constructor (availability: LanguageAvailability,
                 engine: (SupportedLanguage, SupportedLanguage, string) -> Result<string, string>,
                 hasMacOS26: bool)
      ensures service.Valid() && fresh(service) && service.availability == availability
      ensures service.sessions == map[] && service.hasMacOS26 == hasMacOS26
      ensures Holds(LegacyState("", false, None, []))
    {
      translationStatus := "";
      isPreparingTranslation := false;
      translationConfig := None;
      pendingDownloadLegs := [];
      service := new TranslationService(availability, engine, hasMacOS26);
    }

    method PrepareTranslation(source: SupportedLanguage, target: SupportedLanguage)
      requires service.Valid()
      modifies this, service
      ensures service.Valid()
      ensures Holds(Prepare(service.availability.status, old(State()), source, target))
      ensures var key := SessionKey(source, target);
        service.sessions ==
          if service.availability.status(source, target) == Installed
             && service.hasMacOS26 && key !in old(service.sessions)
          then old(service.sessions)[key := Session(source, target)]
          else old(service.sessions)
    {
      isPreparingTranslation := true;
      translationStatus := "Checking language packs…";
      var status := service.PrepareLanguagePair(source, target);
      if status == Installed {
        translationStatus := "Language packs installed";
        isPreparingTranslation := false;
        return;
      }
      ghost var cache := service.sessions;
      assert cache == old(service.sessions);
      var needed := service.RequiredDownloads(source, target);
      if needed == [] {
        translationStatus := "Language pair unsupported";
        isPreparingTranslation := false;
        return;
      }
      EnqueueMissingLegs(source, target);
      assert service.sessions == cache;
      ghost var pre := State();
      assert pre == old(State()).(preparing := true, status := "Checking language packs…",
                                  pending := MissingLegs(service.availability.status, source, target));
      TriggerNextDownload();
    }

    /** Called once the system's download sheet finishes. */
    method OnTranslationDownloadComplete()
      modifies this
      ensures Holds(Complete(old(State())))
    {
      if translationConfig.Some? {
        translationStatus := "Installed: " + translationConfig.value.DisplayName();
      }
      translationConfig := None;
      TriggerNextDownload();
    }

    method OnTranslationDownloadFailed(description: string)
      modifies this
      ensures Holds(Failed(old(State()), description))
    {
      translationStatus := "Download failed: " + description;
      translationConfig := None;
      // the pending legs are kept: the next one starts
      TriggerNextDownload();
    }

    /** Replaces the pending legs by the downloadable legs of the pair, queried one by one. */
    method EnqueueMissingLegs(source: SupportedLanguage, target: SupportedLanguage)
      modifies this, service`calls
      ensures pendingDownloadLegs == MissingLegs(service.availability.status, source, target)
      ensures translationStatus == old(translationStatus) && isPreparingTranslation == old(isPreparingTranslation)
      ensures translationConfig == old(translationConfig)
    {
      ghost var table := service.availability.status;
      pendingDownloadLegs := [];
      var legs: seq<LanguagePair> := [];
      var availability := service.CheckAvailability(source, target);
      assert availability == table(source, target);
      match availability {
        case Installed =>
        case Supported =>
          legs := legs + [LanguagePair(source, target)];
        case Unsupported =>
          var leg1 := service.CheckAvailability(source, English);
          assert leg1 == table(source, English);
          if leg1 == Supported {
            legs := legs + [LanguagePair(source, English)];
          }
          var leg2 := service.CheckAvailability(English, target);
          assert leg2 == table(English, target);
          if leg2 == Supported {
            legs := legs + [LanguagePair(English, target)];
          }
      }
      assert legs == MissingLegs(table, source, target);
      pendingDownloadLegs := legs;
    }

    method TriggerNextDownload()
      modifies this
      ensures Holds(Trigger(old(State())))
    {
      if translationConfig.Some? {
        return;
      }
      if pendingDownloadLegs == [] {
        isPreparingTranslation := false;
        if translationStatus == "" {
          translationStatus := "Ready";
        }
        return;
      }
      var next := pendingDownloadLegs[0];
      pendingDownloadLegs := pendingDownloadLegs[1..];
      var config := TranslationDownloadConfiguration(next.source, next.target);
      translationStatus := "Downloading: " + config.DisplayName() + "…";
      translationConfig := Some(config);
    }
  }

  // ---------------------------------------------------------------------------
  // Properties

  /** Distinct pairs are announced under distinct names. */
  lemma DisplayNameInjective(c: TranslationDownloadConfiguration, d: TranslationDownloadConfiguration)
    requires c.DisplayName() == d.DisplayName()
    ensures c == d
  {
    PairLabelInjective(c.source, c.target, d.source, d.target);
  }

  /**
   * One leg at a time: while a configuration is set nothing starts; with none set, an empty
   * queue settles the status, and otherwise the front leg, and only it, is started.
   */
  lemma TriggerDrivesOneLeg(st: LegacyState)
    ensures var r := Trigger(st);
      (st.config.Some? ==> r == st) &&
      (st.config.None? && st.pending == [] ==>
         r.config.None? && !r.preparing && r.pending == [] &&
         (st.status == "" ==> r.status == "Ready") && (st.status != "" ==> r.status == st.status)) &&
      (st.config.None? && st.pending != [] ==>
         r.config.Some? && LanguagePair(r.config.value.source, r.config.value.target) == st.pending[0] &&
         st.pending == [st.pending[0]] + r.pending && r.preparing == st.preparing &&
         r.status == "Downloading: " + PairLabel(st.pending[0].source, st.pending[0].target) + "…")
  {
    if st.config.None? && st.pending != [] {
      assert st.pending == [st.pending[0]] + st.pending[1..];
    }
  }

  /**
   * A request forgets every leg still pending from an earlier one. An installed pair ends
   * with "Language packs installed", a pair with nothing to download with "Language pair
   * unsupported"; neither starts a download, and otherwise the first missing leg starts
   * unless one is already running.
   */
  lemma PrepareReplacesPending(table: StatusTable, st: LegacyState, source: SupportedLanguage, target: SupportedLanguage)
    ensures var r := Prepare(table, st, source, target);
      var legs := MissingLegs(table, source, target);
      (table(source, target) == Installed ==>
         r == st.(status := "Language packs installed", preparing := false)) &&
      (table(source, target) != Installed && legs == [] ==>
         table(source, target) == Unsupported && r == st.(status := "Language pair unsupported", preparing := false)) &&
      (legs != [] && st.config.Some? ==>
         r.config == st.config && r.pending == legs && r.preparing && r.status == "Checking language packs…") &&
      (legs != [] && st.config.None? ==>
         r.config == Some(TranslationDownloadConfiguration(legs[0].source, legs[0].target)) &&
         r.pending == legs[1..] && r.preparing)
  {
    MissingLegsExactly(table, source, target);
  }

  /**
   * Completion and failure both release the configuration and start the next pending leg;
   * failure keeps the pending legs, so the next one starts after a failed one.
   */
  lemma CompletionAndFailureContinue(st: LegacyState, description: string)
    ensures var done := Complete(st);
      var failed := Failed(st, description);
      done == Trigger(st.(config := None, status := if st.config.Some? then "Installed: " + st.config.value.DisplayName() else st.status)) &&
      (st.pending != [] ==>
         failed.config == Some(TranslationDownloadConfiguration(st.pending[0].source, st.pending[0].target)) &&
         failed.pending == st.pending[1..]) &&
      (st.pending == [] ==>
         failed == st.(status := "Download failed: " + description, config := None, preparing := false))
  {
  }
}
