/**
 * The user's settings: the languages offered in the pickers (never none), the default source
 * and target languages, and the naming pattern for saved translations.
 */
module Settings {
  import opened Wrappers
  import opened Languages

  const DefaultSavePattern: string := "{name}_{lang}.{ext}"

  /** What `UserDefaults` holds for each key, `None` where the key is missing. */
  datatype StoredSettings = StoredSettings(
    activeLanguages: Option<seq<string>>,
    defaultSourceLanguage: Option<string>,
    defaultTargetLanguage: Option<string>,
    translationSavePattern: Option<string>,
    lastSourceLanguage: Option<string>,
    lastTargetLanguage: Option<string>)

  /** `compactMap { SupportedLanguage(rawValue: $0) }`: the known raw values, in order. */
  function KnownLanguages(raws: seq<string>): (r: seq<SupportedLanguage>)
    ensures |r| <= |raws|
    ensures forall l :: l in r <==> exists i :: 0 <= i < |raws| && FromRawValue(raws[i]) == Some(l)
  {
    if raws == [] then []
    else
      var rest := KnownLanguages(raws[1..]);
      assert forall i :: 0 < i < |raws| ==> raws[i] == raws[1..][i - 1];
      match FromRawValue(raws[0])
      case Some(l) => [l] + rest
      case None => rest
  }

  /** The active languages `init` loads: the stored known ones, or the defaults when there are none. */
  function LoadActiveLanguages(stored: Option<seq<string>>): seq<SupportedLanguage> {
    match stored
    case None => DefaultActive
    case Some(raws) =>
      var loaded := KnownLanguages(raws);
      if loaded == [] then DefaultActive else loaded
  }

  function LoadLanguage(stored: Option<string>): Option<SupportedLanguage> {
    match stored
    case None => None
    case Some(raw) => FromRawValue(raw)
  }

  /**
   * Loading never yields an empty list; unknown raw values are dropped, and a missing or
   * all-unknown list yields the defaults.
   */
  lemma LoadedLanguagesNonEmpty(stored: Option<seq<string>>)
    ensures LoadActiveLanguages(stored) != []
    ensures stored.Some? && KnownLanguages(stored.value) != [] ==>
      LoadActiveLanguages(stored) == KnownLanguages(stored.value)
    ensures stored.None? || KnownLanguages(stored.value) == [] ==> LoadActiveLanguages(stored) == DefaultActive
    ensures forall l :: l in LoadActiveLanguages(stored) && l !in DefaultActive ==>
      exists i :: 0 <= i < |stored.value| && FromRawValue(stored.value[i]) == Some(l)
  {
  }

  /** `removeAll { $0 == language }`. */
  function RemoveAll(list: seq<SupportedLanguage>, language: SupportedLanguage): (r: seq<SupportedLanguage>)
    ensures language !in r && |r| <= |list|
    ensures forall l :: l != language ==> (l in r <==> l in list)
  {
    if list == [] then []
    else if list[0] == language then RemoveAll(list[1..], language)
    else [list[0]] + RemoveAll(list[1..], language)
  }

  /**
   * `toggleLanguage(_:)` as written: an active language is removed, with all its
   * occurrences, when the list has more than one ENTRY; an inactive one is appended.
   */
  function ToggleAsWritten(active: seq<SupportedLanguage>, language: SupportedLanguage): seq<SupportedLanguage> {
    if language in active then
      if |active| > 1 then RemoveAll(active, language) else active
    else active + [language]
  }

  /** The guard the comment describes: never deactivate the last language. */
  predicate IsOnlyLanguage(active: seq<SupportedLanguage>, language: SupportedLanguage) {
    forall i :: 0 <= i < |active| ==> active[i] == language
  }

  /** `toggleLanguage(_:)` with the guard counting languages rather than entries. */
  function Toggle(active: seq<SupportedLanguage>, language: SupportedLanguage): seq<SupportedLanguage> {
    if language in active then
      if IsOnlyLanguage(active, language) then active else RemoveAll(active, language)
    else active + [language]
  }

  /** A list stored with the same language twice is emptied by the written guard. */
  lemma ToggleAsWrittenCanEmpty()
    ensures ToggleAsWritten([French, French], French) == []
  {
    assert French in [French, French];
  }

  /**
   * Toggling appends an inactive language at the end, removes every occurrence of an active
   * one, and leaves the sole active language in place; so the list is never emptied.
   */
  lemma ToggleFlips(active: seq<SupportedLanguage>, language: SupportedLanguage)
    ensures var r := Toggle(active, language);
      (language !in active ==> r == active + [language]) &&
      (language in active && !IsOnlyLanguage(active, language) ==> r == RemoveAll(active, language) && r != []) &&
      (language in active && IsOnlyLanguage(active, language) ==> r == active) &&
      (active != [] ==> r != []) &&
      (language in r <==> language !in active || IsOnlyLanguage(active, language))
  {
    if language in active && !IsOnlyLanguage(active, language) {
      var i :| 0 <= i < |active| && active[i] != language;
      assert active[i] in RemoveAll(active, language);
    }
  }

  /** The written guard behaves as intended on any list without repeated languages. */
  lemma {:induction false} ToggleAgreesWithoutDuplicates(active: seq<SupportedLanguage>, language: SupportedLanguage)
    requires Distinct(active)
    ensures ToggleAsWritten(active, language) == Toggle(active, language)
  {
    if language in active && |active| > 1 {
      assert active[0] != active[1];
      assert active[0] != language || active[1] != language;
    } else if language in active {
      assert active == [active[0]];
    }
  }

  predicate Distinct(list: seq<SupportedLanguage>) {
    forall i, j :: 0 <= i < j < |list| ==> list[i] != list[j]
  }

  /** Toggling keeps the list free of repeated languages. */
  lemma {:induction false} ToggleKeepsDistinct(active: seq<SupportedLanguage>, language: SupportedLanguage)
    requires Distinct(active)
    ensures Distinct(Toggle(active, language))
  {
    if language in active && !IsOnlyLanguage(active, language) {
      RemoveAllKeepsDistinct(active, language);
      assert Toggle(active, language) == RemoveAll(active, language);
    } else if language !in active {
      var r := active + [language];
      forall i, j | 0 <= i < j < |r|
        ensures r[i] != r[j]
      {
        if j == |active| {
          assert r[i] == active[i];
        }
      }
    }
  }

  lemma {:induction false} RemoveAllKeepsDistinct(list: seq<SupportedLanguage>, language: SupportedLanguage)
    requires Distinct(list)
    ensures Distinct(RemoveAll(list, language))
    decreases |list|
  {
    if list != [] {
      assert Distinct(list[1..]) by {
        forall i, j | 0 <= i < j < |list[1..]|
          ensures list[1..][i] != list[1..][j]
        {
          assert list[1..][i] == list[i + 1] && list[1..][j] == list[j + 1];
        }
      }
      RemoveAllKeepsDistinct(list[1..], language);
      assert list[0] !in list[1..];
      var rest := RemoveAll(list[1..], language);
      if list[0] != language {
        assert list[0] !in rest;
        var r := [list[0]] + rest;
        assert RemoveAll(list, language) == r;
        forall i, j | 0 <= i < j < |r|
          ensures r[i] != r[j]
        {
          assert r[j] == rest[j - 1] && rest[j - 1] in rest;
          if i > 0 {
            assert r[i] == rest[i - 1];
            assert rest[i - 1] != rest[j - 1];
          } else {
            assert r[i] == list[0];
          }
        }
      }
    }
  }

  class SettingsState {
    var activeLanguages: seq<SupportedLanguage>
    var defaultSourceLanguage: Option<SupportedLanguage>
    var defaultTargetLanguage: Option<SupportedLanguage>
    var translationSavePattern: string
    var lastSourceLanguage: Option<SupportedLanguage>
    var lastTargetLanguage: Option<SupportedLanguage>

    /** `init()`, reading what `UserDefaults` holds. */
    constructor (stored: StoredSettings)
      ensures activeLanguages == LoadActiveLanguages(stored.activeLanguages)
      ensures defaultSourceLanguage == LoadLanguage(stored.defaultSourceLanguage)
      ensures defaultTargetLanguage == LoadLanguage(stored.defaultTargetLanguage)
      ensures translationSavePattern == stored.translationSavePattern.GetOr(DefaultSavePattern)
      ensures lastSourceLanguage == LoadLanguage(stored.lastSourceLanguage)
      ensures lastTargetLanguage == LoadLanguage(stored.lastTargetLanguage)
    {
      match stored.activeLanguages {
        case Some(raws) =>
          var loaded := KnownLanguages(raws);
          activeLanguages := if loaded == [] then DefaultActive else loaded;
        case None =>
          activeLanguages := DefaultActive;
      }
      defaultSourceLanguage := LoadLanguage(stored.defaultSourceLanguage);
      defaultTargetLanguage := LoadLanguage(stored.defaultTargetLanguage);
      translationSavePattern := stored.translationSavePattern.GetOr(DefaultSavePattern);
      lastSourceLanguage := LoadLanguage(stored.lastSourceLanguage);
      lastTargetLanguage := LoadLanguage(stored.lastTargetLanguage);
    }

    /**
     * `toggleLanguage(_:)` as the source writes it, guarding on the number of entries; on a
     * list without repeats this is the intended `Toggle` (`ToggleAgreesWithoutDuplicates`).
     */
    method ToggleLanguage(language: SupportedLanguage)
      modifies this`activeLanguages
      ensures activeLanguages == ToggleAsWritten(old(activeLanguages), language)
    {
      if language in activeLanguages {
        if |activeLanguages| <= 1 {
          return;
        }
        activeLanguages := RemoveAll(activeLanguages, language);
      } else {
        activeLanguages := activeLanguages + [language];
      }
    }

    method IsLanguageActive(language: SupportedLanguage) returns (active: bool)
      ensures active <==> language in activeLanguages
    {
      active := language in activeLanguages;
    }
  }
}
