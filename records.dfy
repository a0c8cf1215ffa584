/**
 * The records of AirportData.java: the ingest record `AirportData` with its
 * completeness test `isMalformed`, the search result `Airport` and `Point`.
 * A Java reference that may be null is an `Option`.
 */
module Records {
  import opened Wrappers

  /** The closed enumeration com.github.maxpesh.Language. */
  datatype Language = EN | RU

  /** The constants of `Language.values()`, as a set and as its length. */
  const AllLanguages: set<Language> := {EN, RU}
  const LanguageCount: nat := 2

  /** A Java `double`; the model only ever compares coordinates for equality. */
  type Double = real

  /** The text of a `java.time.ZoneId` (an IANA zone identifier). */
  type ZoneId = string

  datatype Point = Point(x: Double, y: Double)

  /** A translation map as deserialised into a `HashMap<Language, String>`: keys are unique, values may be null. */
  type Translations = map<Language, Option<string>>

  datatype AirportData = AirportData(
    code: Option<string>,
    langToName: Option<Translations>,
    langToCity: Option<Translations>,
    coordinates: Option<Point>,
    timezone: Option<ZoneId>)

  /** The view of an airport returned to the user; name and city are SQL NULL when the row has no entry for the language. */
  datatype Airport = Airport(
    code: string,
    name: Option<string>,
    city: Option<string>,
    coordinates: Point,
    timezone: ZoneId)

  /** `AirportData.isMalformed()`: the `||` chain short-circuits, so a map's size is read only when the map is not null. */
  predicate IsMalformed(d: AirportData)
  {
    || d.langToName.None?
    || d.langToCity.None?
    || d.coordinates.None?
    || d.timezone.None?
    || |d.langToName.value| < LanguageCount
    || |d.langToCity.value| < LanguageCount
  }

  /** What a complete record is meant to be: every field but the code present, both maps keyed by every language. */
  predicate Complete(d: AirportData)
  {
    && d.langToName.Some? && d.langToName.value.Keys == AllLanguages
    && d.langToCity.Some? && d.langToCity.value.Keys == AllLanguages
    && d.coordinates.Some?
    && d.timezone.Some?
  }

  /** `Language.values().length` counts exactly the constants of the enumeration. */
  lemma LanguageCountIsAllLanguages()
    ensures |AllLanguages| == LanguageCount
    ensures forall l: Language :: l in AllLanguages
  {
    forall l: Language ensures l in AllLanguages {
      match l
      case EN =>
      case RU =>
    }
  }

  /** Keys drawn from the closed enumeration: a map with as many entries as there are languages has all of them. */
  lemma {:induction false} FullMapHasEveryLanguage<V>(m: map<Language, V>)
    requires |m| >= LanguageCount
    ensures m.Keys == AllLanguages
  {
    LanguageCountIsAllLanguages();
    if EN !in m.Keys {
      forall k | k in m.Keys ensures k == RU {
        assert k in AllLanguages;
      }
      SubsetOfSingleton(m.Keys, RU);
    } else if RU !in m.Keys {
      forall k | k in m.Keys ensures k == EN {
        assert k in AllLanguages;
      }
      SubsetOfSingleton(m.Keys, EN);
    }
  }

  lemma SubsetOfSingleton<T>(s: set<T>, x: T)
    requires s <= {x}
    ensures |s| <= 1
  {
    if s != {} {
      assert s == {x};
    }
  }

  /** A map keyed by every language has exactly `Language.values().length` entries. */
  lemma {:induction false} EveryLanguageMapIsFull<V>(m: map<Language, V>)
    requires m.Keys == AllLanguages
    ensures |m| == LanguageCount
  {
    assert |m| == |m.Keys|;
    LanguageCountIsAllLanguages();
  }

  /** `isMalformed` is false exactly for complete records: the size test of the source is the key-coverage test. */
  lemma {:induction false} NotMalformedIffComplete(d: AirportData)
    ensures !IsMalformed(d) <==> Complete(d)
  {
    if !IsMalformed(d) {
      FullMapHasEveryLanguage(d.langToName.value);
      FullMapHasEveryLanguage(d.langToCity.value);
    }
    if Complete(d) {
      EveryLanguageMapIsFull(d.langToName.value);
      EveryLanguageMapIsFull(d.langToCity.value);
    }
  }

  /** A record that is not malformed has a name and a city entry for every language, though an entry may be null. */
  lemma NotMalformedCoversEveryLanguage(d: AirportData, l: Language)
    requires !IsMalformed(d)
    ensures l in d.langToName.value && l in d.langToCity.value
  {
    NotMalformedIffComplete(d);
  }

  /** Each null among the two maps, the coordinates and the timezone alone makes a record malformed. */
  lemma NullFieldIsMalformed(d: AirportData)
    requires d.langToName.None? || d.langToCity.None? || d.coordinates.None? || d.timezone.None?
    ensures IsMalformed(d)
  {
  }

  /** A map short of one language makes a record malformed even when every other field is present. */
  lemma ShortMapIsMalformed(d: AirportData)
    requires d.langToName.Some? && d.langToCity.Some?
    requires |d.langToName.value| < LanguageCount || |d.langToCity.value| < LanguageCount
    ensures IsMalformed(d)
  {
  }

  /** `isMalformed` never looks at the code: a null or empty code alone does not make a record malformed. */
  lemma MalformedIgnoresCode(d: AirportData, code: Option<string>)
    ensures IsMalformed(d.(code := code)) == IsMalformed(d)
  {
  }

  /** A record whose maps hold a null translation for every language is still not malformed. */
  lemma NullTranslationsAreNotMalformed(p: Point, z: ZoneId)
    ensures !IsMalformed(AirportData(None, Some(map[EN := None, RU := None]), Some(map[EN := None, RU := None]), Some(p), Some(z)))
  {
    var m: Translations := map[EN := None, RU := None];
    assert m.Keys == AllLanguages;
    EveryLanguageMapIsFull(m);
  }
}
