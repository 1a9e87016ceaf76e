/**
 * The system's language-pack availability (`LanguageAvailability.status`), and the
 * decision, shared by the service and both view models, of which packs a pair still needs.
 */
module Availability {
  import opened Languages

  /** `installed`, `supported` (downloadable) or `unsupported`. */
  datatype Status = Installed | Supported | Unsupported

  datatype LanguagePair = LanguagePair(source: SupportedLanguage, target: SupportedLanguage)

  /** What the oracle answers for every ordered pair at one moment. */
  type StatusTable = (SupportedLanguage, SupportedLanguage) -> Status

  /**
   * The availability oracle. Its answers belong to the system and may change between
   * calls (a download completes, say), so they are a mutable field.
   */
  class LanguageAvailability {
    var status: StatusTable

    constructor (initial: StatusTable)
      ensures status == initial
    {
      status := initial;
    }

    /** The system changes its answer for one pair. */
    method SetStatus(source: SupportedLanguage, target: SupportedLanguage, s: Status)
      modifies this
      ensures status(source, target) == s
      ensures forall a, b :: (a != source || b != target) ==> status(a, b) == old(status)(a, b)
    {
      var previous := status;
      status := (a, b) => if a == source && b == target then s else previous(a, b);
    }
  }

  /**
   * The legs that still need downloading before `source` can be translated into `target`:
   * nothing when the pair is installed, the pair itself when it is downloadable, and, when
   * it is unsupported, each pivot leg through English that is downloadable, source leg first.
   */
  function MissingLegs(status: StatusTable,
                       source: SupportedLanguage, target: SupportedLanguage): (legs: seq<LanguagePair>)
  {
    match status(source, target)
    case Installed => []
    case Supported => [LanguagePair(source, target)]
    case Unsupported =>
      (if status(source, English) == Supported then [LanguagePair(source, English)] else []) +
      (if status(English, target) == Supported then [LanguagePair(English, target)] else [])
  }

  /** The status queries a view model makes for a pair, leg by leg, collecting what is downloadable. */
  method CollectMissingLegs(table: StatusTable, source: SupportedLanguage, target: SupportedLanguage)
    returns (legs: seq<LanguagePair>)
    ensures legs == MissingLegs(table, source, target)
  {
    legs := [];
    match table(source, target) {
      case Installed =>
      case Supported =>
        legs := legs + [LanguagePair(source, target)];
      case Unsupported =>
        var leg1Status := table(source, English);
        var leg2Status := table(English, target);
        if leg1Status == Supported {
          legs := legs + [LanguagePair(source, English)];
        }
        if leg2Status == Supported {
          legs := legs + [LanguagePair(English, target)];
        }
    }
  }

  /** The direct pair, or one of the two pivot legs. */
  predicate IsLegOf(leg: LanguagePair, source: SupportedLanguage, target: SupportedLanguage) {
    leg == LanguagePair(source, target) || leg == LanguagePair(source, English) || leg == LanguagePair(English, target)
  }

  /**
   * Download necessity is minimal and complete: a leg is reported exactly when it is
   * downloadable and is either the direct pair (when that is downloadable) or a pivot leg of
   * an unsupported pair. No installed leg is ever reported; at most two legs, the source leg first.
   */
  lemma {:induction false} MissingLegsExactly(status: StatusTable,
                                             source: SupportedLanguage, target: SupportedLanguage)
    ensures var legs := MissingLegs(status, source, target);
      && |legs| <= 2
      && (forall i :: 0 <= i < |legs| ==> status(legs[i].source, legs[i].target) == Supported && IsLegOf(legs[i], source, target))
      && (status(source, target) == Supported ==> legs == [LanguagePair(source, target)])
      && (status(source, target) == Unsupported ==>
            (LanguagePair(source, English) in legs <==> status(source, English) == Supported) &&
            (LanguagePair(English, target) in legs <==> status(English, target) == Supported) &&
            (|legs| == 2 ==> legs[0] == LanguagePair(source, English) && legs[1] == LanguagePair(English, target)))
      && (status(source, target) == Installed ==> legs == [])
  {
    var legs := MissingLegs(status, source, target);
    if status(source, target) == Unsupported {
      var first := if status(source, English) == Supported then [LanguagePair(source, English)] else [];
      var second := if status(English, target) == Supported then [LanguagePair(English, target)] else [];
      assert legs == first + second;
      if source == English && target == English {
        // both legs are the pair (English, English), which is then itself unsupported
        assert first == [] && second == [];
      }
    }
  }
}
