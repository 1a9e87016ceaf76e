/**
 * The translation service: a cache of translation sessions keyed by "src-tgt", direct
 * translation through a cached or newly created session, and the two-hop fallback through
 * English when the direct pair is unsupported.
 */
module TranslationServices {
  import opened Wrappers
  import opened Languages
  import opened TranslationErrors
  import opened Availability

  /** A `TranslationSession`: a handle bound to exactly one pair. */
  datatype Session = Session(source: SupportedLanguage, target: SupportedLanguage)

  /** What `translate` throws: a `TranslationError`, or whatever the engine threw. */
  datatype Failure = Known(error: TranslationError) | EngineFailure(message: string)

  type Outcome = Result<string, Failure>

  /** The calls the service makes into the system, in order. */
  datatype ExternalCall =
    | StatusQuery(source: SupportedLanguage, target: SupportedLanguage)
    | EngineCall(session: Session, text: string)

  /** What a translation leaves behind: its outcome, the session cache and the calls made. */
  datatype Step = Step(outcome: Outcome, sessions: map<string, Session>, calls: seq<ExternalCall>)

  function SessionKey(source: SupportedLanguage, target: SupportedLanguage): string {
    LanguageCode(source) + "-" + LanguageCode(target)
  }

  /** Reads a key back into its pair (a proof device: the service never parses keys). */
  ghost function DecodeSessionKey(key: string): Option<(SupportedLanguage, SupportedLanguage)> {
    var n := if |key| >= 3 && key[..3] == "zh-" then 7 else 2;
    if |key| > n && key[n] == '-' then
      match (FromLanguageCode(key[..n]), FromLanguageCode(key[n + 1..]))
      case (Some(s), Some(t)) => Some((s, t))
      case _ => None
    else None
  }

  lemma SessionKeyDecodes(source: SupportedLanguage, target: SupportedLanguage)
    ensures DecodeSessionKey(SessionKey(source, target)) == Some((source, target))
  {
    var c1, c2 := LanguageCode(source), LanguageCode(target);
    var key := SessionKey(source, target);
    LanguageCodeShape(source);
    LanguageCodeRoundTrip(source);
    LanguageCodeRoundTrip(target);
    assert key == c1 + ("-" + c2);
    assert key[..|c1|] == c1;
    assert key[|c1| + 1..] == c2;
    assert key[|c1|] == '-';
    if |c1| == 2 {
      assert key[..3][..2] == c1;
    } else {
      assert key[..3] == c1[..3];
    }
  }

  /** Distinct pairs get distinct cache keys, so a cached session is never reused for another pair. */
  lemma SessionKeyInjective(a: SupportedLanguage, b: SupportedLanguage, c: SupportedLanguage, d: SupportedLanguage)
    requires SessionKey(a, b) == SessionKey(c, d)
    ensures a == c && b == d
  {
    SessionKeyDecodes(a, b);
    SessionKeyDecodes(c, d);
  }

  /** The service's own view of a pair: no work, a cached session, or a status that settles it. */
  class TranslationService {
    var sessions: map<string, Session>
    /** The system's availability oracle (`LanguageAvailability()`). */
    const availability: LanguageAvailability
    /** `TranslationSession.translate`: the engine, a function of the pair and the text. */
    const engine: (SupportedLanguage, SupportedLanguage, string) -> Result<string, string>
    /** Whether `#available(macOS 26.0, *)` holds, which session creation needs. */
    const hasMacOS26: bool
    ghost var calls: seq<ExternalCall>

    /** Every cached session is bound to the pair its key names. */
    ghost predicate Valid()
      reads this
    {
      forall key :: key in sessions ==> key == SessionKey(sessions[key].source, sessions[key].target)
    }

    constructor (availability: LanguageAvailability,
                 engine: (SupportedLanguage, SupportedLanguage, string) -> Result<string, string>,
                 hasMacOS26: bool)
      ensures Valid()
      ensures this.availability == availability && this.engine == engine && this.hasMacOS26 == hasMacOS26
      ensures sessions == map[] && calls == []
    {
      this.availability := availability;
      this.engine := engine;
      this.hasMacOS26 := hasMacOS26;
      sessions := map[];
      calls := [];
    }

    /** `session.translate(text)`, with an engine error becoming `EngineFailure`. */
    function Run(session: Session, text: string): Outcome {
      match engine(session.source, session.target, text)
      case Success(translated) => Success(translated)
      case Failure(message) => Failure(EngineFailure(message))
    }

    /** `translate` on this pair does not fall back to the two-hop path. */
    ghost predicate ResolvesDirectly(status: StatusTable, cache: map<string, Session>, source: SupportedLanguage, target: SupportedLanguage)
    {
      source == target || SessionKey(source, target) in cache || status(source, target) != Unsupported
    }

    /**
     * The two-hop path on a pair with neither end English returns: the first leg resolves
     * directly, and either it fails (its failure is the result) or the second leg resolves
     * directly too. The first leg only adds the key of source-English, so the second leg sees
     * the same resolution as in the starting cache.
     */
    ghost predicate TwoHopTerminates(status: StatusTable, cache: map<string, Session>, text: string,
                                     source: SupportedLanguage, target: SupportedLanguage)
    {
      source != English && target != English &&
      ResolvesDirectly(status, cache, source, English) &&
      (DirectStep(status, cache, [], text, source, English).outcome.Failure? ||
       ResolvesDirectly(status, cache, English, target))
    }

    /**
     * `translate` returns: either the pair resolves directly, or it takes a two-hop path that
     * returns. Outside this, the source re-enters `translate` with the same arguments and the
     * same cache, without end: an English end makes one leg the original call, and an
     * unresolved leg that runs repeats itself.
     */
    ghost predicate Terminates(status: StatusTable, cache: map<string, Session>, text: string,
                               source: SupportedLanguage, target: SupportedLanguage)
    {
      ResolvesDirectly(status, cache, source, target) || TwoHopTerminates(status, cache, text, source, target)
    }

    /** One `translate` call on a pair that resolves directly, from the given cache and trace. */
    ghost function DirectStep(status: StatusTable, cache: map<string, Session>, trace: seq<ExternalCall>, text: string,
                              source: SupportedLanguage, target: SupportedLanguage): (st: Step)
      requires ResolvesDirectly(status, cache, source, target)
      ensures forall key :: key in cache ==> key in st.sessions && st.sessions[key] == cache[key]
    {
      var key := SessionKey(source, target);
      if source == target then Step(Success(text), cache, trace)
      else if key in cache then Step(Run(cache[key], text), cache, trace + [EngineCall(cache[key], text)])
      else
        var queried := trace + [StatusQuery(source, target)];
        if status(source, target) == Installed && hasMacOS26 then
          var session := Session(source, target);
          Step(Run(session, text), cache[key := session], queried + [EngineCall(session, text)])
        else
          Step(Failure(Known(DownloadRequired(source, target))), cache, queried)
    }

    /** A direct step's outcome and new cache do not depend on the calls made before it. */
    lemma DirectStepIgnoresTrace(status: StatusTable, cache: map<string, Session>, trace: seq<ExternalCall>, text: string,
                                 source: SupportedLanguage, target: SupportedLanguage)
      requires ResolvesDirectly(status, cache, source, target)
      ensures DirectStep(status, cache, trace, text, source, target).outcome == DirectStep(status, cache, [], text, source, target).outcome
      ensures DirectStep(status, cache, trace, text, source, target).sessions == DirectStep(status, cache, [], text, source, target).sessions
    {
    }

    /** What `translate(text, from: source, to: target)` does from the given cache and trace. */
    ghost function TranslateStep(status: StatusTable, cache: map<string, Session>, trace: seq<ExternalCall>, text: string,
                                 source: SupportedLanguage, target: SupportedLanguage): (st: Step)
      requires Terminates(status, cache, text, source, target)
      decreases if ResolvesDirectly(status, cache, source, target) then 0 else 1, 1
      ensures forall key :: key in cache ==> key in st.sessions && st.sessions[key] == cache[key]
    {
      if ResolvesDirectly(status, cache, source, target) then DirectStep(status, cache, trace, text, source, target)
      else TwoHopStep(status, cache, trace + [StatusQuery(source, target)], text, source, target)
    }

    /** The two legs source → English → target, the second only when the first succeeded. */
    ghost function TwoHopStep(status: StatusTable, cache: map<string, Session>, trace: seq<ExternalCall>, text: string,
                              source: SupportedLanguage, target: SupportedLanguage): (st: Step)
      requires TwoHopTerminates(status, cache, text, source, target)
      decreases 1, 0
      ensures forall key :: key in cache ==> key in st.sessions && st.sessions[key] == cache[key]
    {
      var leg1 := TranslateStep(status, cache, trace, text, source, English);
      if leg1.outcome.Failure? then leg1
      else
        DirectStepIgnoresTrace(status, cache, trace, text, source, English);
        TranslateStep(status, leg1.sessions, leg1.calls, leg1.outcome.value, English, target)
    }

    method Translate(text: string, source: SupportedLanguage, target: SupportedLanguage) returns (r: Outcome)
      requires Valid() && Terminates(availability.status, sessions, text, source, target)
      modifies this
      decreases if ResolvesDirectly(availability.status, sessions, source, target) then 0 else 1, 1
      ensures Valid()
      ensures var st := TranslateStep(availability.status, old(sessions), old(calls), text, source, target);
        r == st.outcome && sessions == st.sessions && calls == st.calls
    {
      if source == target {
        return Success(text);
      }
      var key := SessionKey(source, target);
      if key in sessions {
        var existing := sessions[key];
        calls := calls + [EngineCall(existing, text)];
        return Run(existing, text);
      }
      calls := calls + [StatusQuery(source, target)];
      var status := availability.status(source, target);
      match status {
        case Installed =>
          r := TranslateWithNewSession(text, source, target);
        case Supported =>
          // the pack is not downloaded: the caller must trigger the download first
          r := Failure(Known(DownloadRequired(source, target)));
        case Unsupported =>
          r := TwoHopTranslate(text, source, target);
      }
    }

    /**
     * The installed, uncached case: a new session is created and cached when the system
     * allows sessions, and the text is translated with it; otherwise the pack counts as missing.
     */
    method TranslateWithNewSession(text: string, source: SupportedLanguage, target: SupportedLanguage) returns (r: Outcome)
      requires Valid()
      modifies this
      ensures Valid()
      ensures var session := Session(source, target);
        if hasMacOS26 then
          sessions == old(sessions)[SessionKey(source, target) := session] &&
          calls == old(calls) + [EngineCall(session, text)] && r == Run(session, text)
        else
          sessions == old(sessions) && calls == old(calls) && r == Failure(Known(DownloadRequired(source, target)))
    {
      if hasMacOS26 {
        var newSession := Session(source, target);
        sessions := sessions[SessionKey(source, target) := newSession];
        calls := calls + [EngineCall(newSession, text)];
        r := Run(newSession, text);
      } else {
        r := Failure(Known(DownloadRequired(source, target)));
      }
    }

    /** Translates through English as the intermediate language. */
    method TwoHopTranslate(text: string, source: SupportedLanguage, target: SupportedLanguage) returns (r: Outcome)
      requires Valid() && TwoHopTerminates(availability.status, sessions, text, source, target)
      modifies this
      decreases 1, 0
      ensures Valid()
      ensures var st := TwoHopStep(availability.status, old(sessions), old(calls), text, source, target);
        r == st.outcome && sessions == st.sessions && calls == st.calls
    {
      ghost var cache, trace := sessions, calls;
      var englishText := Translate(text, source, English);
      if englishText.Failure? {
        return englishText;
      }
      DirectStepIgnoresTrace(availability.status, cache, trace, text, source, English);
      r := Translate(englishText.value, English, target);
    }

    /** Translating into the same language returns the text and touches neither cache nor oracle. */
    lemma TranslateIdentity(status: StatusTable, cache: map<string, Session>, trace: seq<ExternalCall>,
                            text: string, l: SupportedLanguage)
      ensures TranslateStep(status, cache, trace, text, l, l) == Step(Success(text), cache, trace)
    {
    }

    /** A cached session is used as is: one engine call, no status query, the cache unchanged. */
    lemma TranslateUsesCache(status: StatusTable, cache: map<string, Session>, trace: seq<ExternalCall>,
                             text: string, source: SupportedLanguage, target: SupportedLanguage)
      requires source != target && SessionKey(source, target) in cache
      ensures var session := cache[SessionKey(source, target)];
        var st := TranslateStep(status, cache, trace, text, source, target);
        st.outcome == Run(session, text) && st.sessions == cache && st.calls == trace + [EngineCall(session, text)]
    {
    }

    /**
     * An installed, uncached pair gets exactly one new cache entry, under its own key, bound to
     * the pair, and the result is that session's output.
     */
    lemma TranslateInstalled(status: StatusTable, cache: map<string, Session>, trace: seq<ExternalCall>,
                             text: string, source: SupportedLanguage, target: SupportedLanguage)
      requires source != target && SessionKey(source, target) !in cache
      requires status(source, target) == Installed && hasMacOS26
      ensures var st := TranslateStep(status, cache, trace, text, source, target);
        st.outcome == Run(Session(source, target), text)
        && st.sessions.Keys == cache.Keys + {SessionKey(source, target)}
        && |st.sessions| == |cache| + 1
        && st.sessions[SessionKey(source, target)] == Session(source, target)
        && st.calls == trace + [StatusQuery(source, target), EngineCall(Session(source, target), text)]
    {
      var key := SessionKey(source, target);
      var session := Session(source, target);
      var st := TranslateStep(status, cache, trace, text, source, target);
      assert st == DirectStep(status, cache, trace, text, source, target);
      assert st == Step(Run(session, text), cache[key := session], trace + [StatusQuery(source, target)] + [EngineCall(session, text)]);
      assert st.sessions.Keys == cache.Keys + {key};
    }

    /** A downloadable pair that is not installed fails with `downloadRequired` and caches nothing. */
    lemma TranslateSupported(status: StatusTable, cache: map<string, Session>, trace: seq<ExternalCall>,
                             text: string, source: SupportedLanguage, target: SupportedLanguage)
      requires source != target && SessionKey(source, target) !in cache
      requires status(source, target) == Supported
      ensures var st := TranslateStep(status, cache, trace, text, source, target);
        st.outcome == Failure(Known(DownloadRequired(source, target)))
        && st.sessions == cache && st.calls == trace + [StatusQuery(source, target)]
    {
    }

    /**
     * An unsupported pair is translated source → English, then English → target on the English
     * text; when the first leg fails, its failure is the result and the second leg never runs.
     */
    lemma TranslateTwoHop(status: StatusTable, cache: map<string, Session>, trace: seq<ExternalCall>,
                          text: string, source: SupportedLanguage, target: SupportedLanguage)
      requires source != target && SessionKey(source, target) !in cache
      requires status(source, target) == Unsupported
      requires TwoHopTerminates(status, cache, text, source, target)
      ensures var leg1 := DirectStep(status, cache, trace + [StatusQuery(source, target)], text, source, English);
        var st := TranslateStep(status, cache, trace, text, source, target);
        (leg1.outcome.Failure? ==> st == leg1) &&
        (leg1.outcome.Success? ==>
           ResolvesDirectly(status, leg1.sessions, English, target) &&
           st == DirectStep(status, leg1.sessions, leg1.calls, leg1.outcome.value, English, target))
    {
      var leg1 := TranslateStep(status, cache, trace + [StatusQuery(source, target)], text, source, English);
      assert leg1 == DirectStep(status, cache, trace + [StatusQuery(source, target)], text, source, English);
      DirectStepIgnoresTrace(status, cache, trace + [StatusQuery(source, target)], text, source, English);
      if leg1.outcome.Success? {
        assert ResolvesDirectly(status, leg1.sessions, English, target);
        assert TranslateStep(status, leg1.sessions, leg1.calls, leg1.outcome.value, English, target)
          == DirectStep(status, leg1.sessions, leg1.calls, leg1.outcome.value, English, target);
      }
    }

    /**
     * An unsupported pair whose first leg still needs its pack returns, whatever the second
     * leg's status: the result is `downloadRequired` for source → English, after the three
     * status queries, with nothing cached.
     */
    lemma TranslateFirstLegMissing(status: StatusTable, cache: map<string, Session>, trace: seq<ExternalCall>,
                                   text: string, source: SupportedLanguage, target: SupportedLanguage)
      requires source != target && source != English && target != English
      requires SessionKey(source, target) !in cache && SessionKey(source, English) !in cache
      requires status(source, target) == Unsupported && status(source, English) == Supported
      ensures Terminates(status, cache, text, source, target)
      ensures var st := TranslateStep(status, cache, trace, text, source, target);
        st.outcome == Failure(Known(DownloadRequired(source, English))) && st.sessions == cache &&
        st.calls == trace + [StatusQuery(source, target), StatusQuery(source, English)]
    {
      assert DirectStep(status, cache, [], text, source, English).outcome.Failure?;
      TranslateTwoHop(status, cache, trace, text, source, target);
    }

    /** Creates and caches a session for an installed pair, unless one is cached already. */
    method CreateSession(source: SupportedLanguage, target: SupportedLanguage)
      requires Valid() && hasMacOS26
      modifies this
      ensures Valid() && calls == old(calls)
      ensures SessionKey(source, target) in old(sessions) ==> sessions == old(sessions)
      ensures SessionKey(source, target) !in old(sessions) ==>
        sessions == old(sessions)[SessionKey(source, target) := Session(source, target)]
    {
      var key := SessionKey(source, target);
      if key in sessions {
        return;
      }
      sessions := sessions[key := Session(source, target)];
    }

    method CheckAvailability(source: SupportedLanguage, target: SupportedLanguage) returns (status: Status)
      modifies this`calls
      ensures status == availability.status(source, target)
      ensures calls == old(calls) + [StatusQuery(source, target)]
    {
      calls := calls + [StatusQuery(source, target)];
      status := availability.status(source, target);
    }

    /** The human-readable list of downloads a pair needs, "A → B" per missing leg. */
    method RequiredDownloads(source: SupportedLanguage, target: SupportedLanguage) returns (downloads: seq<string>)
      modifies this`calls
      ensures var legs := MissingLegs(availability.status, source, target);
        |downloads| == |legs| && forall i :: 0 <= i < |legs| ==> downloads[i] == PairLabel(legs[i].source, legs[i].target)
    {
      downloads := [];
      calls := calls + [StatusQuery(source, target)];
      var directStatus := availability.status(source, target);
      match directStatus {
        case Installed =>
          return [];
        case Supported =>
          downloads := downloads + [PairLabel(source, target)];
        case Unsupported =>
          calls := calls + [StatusQuery(source, English), StatusQuery(English, target)];
          var leg1 := availability.status(source, English);
          var leg2 := availability.status(English, target);
          if leg1 == Supported {
            downloads := downloads + [PairLabel(source, English)];  // "<source> → English"
          }
          if leg2 == Supported {
            downloads := downloads + [PairLabel(English, target)];  // "English → <target>"
          }
      }
    }

    /** Makes sure a session exists when the pair is installed; returns the status for the caller. */
    method PrepareLanguagePair(source: SupportedLanguage, target: SupportedLanguage) returns (status: Status)
      requires Valid()
      modifies this
      ensures Valid()
      ensures status == availability.status(source, target)
      ensures calls == old(calls) + [StatusQuery(source, target)]
      ensures var key := SessionKey(source, target);
        sessions == if status == Installed && hasMacOS26 && key !in old(sessions)
                    then old(sessions)[key := Session(source, target)]
                    else old(sessions)
    {
      calls := calls + [StatusQuery(source, target)];
      status := availability.status(source, target);
      if status == Installed {
        if hasMacOS26 {
          var key := SessionKey(source, target);
          if key !in sessions {
            sessions := sessions[key := Session(source, target)];
          }
        }
      }
    }

    method ClearSessions()
      modifies this`sessions
      ensures sessions == map[]
    {
      sessions := map[];
    }
  }
}
