/**
 * WebConfig.java: the lookup route and its handler with its conditional
 * request check, the create handler and the validator in front of it.
 *
 * A handler answers one request. What it reads from the request (the
 * language path segment, the conditional headers, the query parameters, the
 * decoded body) is a request datatype; the two library parsers it calls,
 * `NumberUtils.isCreatable` and `Instant.parse`, are the fields of a
 * `Library` value. Any exception that escapes a handler is answered with 500
 * by the router's `onError` handler, so it appears here as `ServerError`.
 */
module Web {
  import opened Wrappers
  import opened Records
  import opened Storage
  import Decimal

  // ---------------------------------------------------------------------------
  // The route and the language

  /** `supportLanguage`: the lookup route is taken only for these two path segments. */
  predicate SupportLanguage(segment: string)
  {
    segment == "en" || segment == "ru"
  }

  /**
   * `String.toUpperCase` as far as it decides the outcome of
   * `Language.valueOf`: ASCII letters are raised, everything else is kept.
   */
  function UpperAscii(c: char): char
  {
    if 'a' <= c <= 'z' then (c as int - 32) as char else c
  }

  function ToUpperCase(s: string): string
  {
    seq(|s|, i requires 0 <= i < |s| => UpperAscii(s[i]))
  }

  /** `Language.valueOf(segment.toUpperCase())`; `None` is the `IllegalArgumentException`. */
  function LanguageOf(segment: string): Option<Language>
  {
    var u := ToUpperCase(segment);
    if u == "EN" then Some(EN) else if u == "RU" then Some(RU) else None
  }

  /** `Language.valueOf` after upper-casing accepts exactly the two letters of a constant, in either case. */
  lemma LanguageOfCharacterised(segment: string)
    ensures LanguageOf(segment) == Some(EN) <==>
      |segment| == 2 && (segment[0] == 'e' || segment[0] == 'E') && (segment[1] == 'n' || segment[1] == 'N')
    ensures LanguageOf(segment) == Some(RU) <==>
      |segment| == 2 && (segment[0] == 'r' || segment[0] == 'R') && (segment[1] == 'u' || segment[1] == 'U')
  {
    var u := ToUpperCase(segment);
    if |segment| == 2 {
      assert u == "EN" <==> u[0] == 'E' && u[1] == 'N';
      assert u == "RU" <==> u[0] == 'R' && u[1] == 'U';
    } else {
      assert |u| != 2;
    }
  }

  /** Every segment the route admits names a language, so `Language.valueOf` never throws behind the route. */
  lemma RoutedSegmentHasLanguage(segment: string)
    requires SupportLanguage(segment)
    ensures LanguageOf(segment) == Some(if segment == "en" then EN else RU)
  {
    LanguageOfCharacterised(segment);
  }

  /** The route is the stricter check: `Language.valueOf` alone would also take "En", which the route refuses. */
  lemma RouteIsStricterThanValueOf()
    ensures LanguageOf("En") == Some(EN) && !SupportLanguage("En")
  {
    LanguageOfCharacterised("En");
  }

  // ---------------------------------------------------------------------------
  // Cache headers

  /** An `Instant`, counted in the finest unit the clock offers; only equality matters here. */
  type Instant = int

  /** `Duration.ofHours(1)`, in seconds. */
  const MaxAgeSeconds: nat := 3600

  /** The tag every lookup handler starts with and keeps. */
  const ETagSentinel: string := "deadbeef"

  /** The headers `cacheControl` sets: Last-Modified, ETag and `Cache-Control: max-age`. */
  datatype CacheHeaders = CacheHeaders(lastModified: Instant, eTag: string, maxAge: nat)

  /** `cacheControl`: the handler's modification instant and tag, valid for one hour. */
  function CacheControl(lastModified: Instant, eTag: string): CacheHeaders
  {
    CacheHeaders(lastModified, eTag, MaxAgeSeconds)
  }

  // ---------------------------------------------------------------------------
  // Requests and responses

  /** The library parsers the lookup handler calls; `None` is the exception `Instant.parse` throws. */
  datatype Library = Library(isCreatable: string -> bool, parseInstant: string -> Option<Instant>)

  /** What the lookup handler reads of a request: header values in order, query parameters if present. */
  datatype LookupRequest = LookupRequest(
    lang: string,
    ifNoneMatch: seq<string>,
    ifModifiedSince: seq<string>,
    airport: Option<string>,
    limit: Option<string>)

  /** A rejection recorded by `rejectIfEmpty`: the field, the error code and the default message. */
  datatype FieldError = FieldError(field: string, code: string, message: string)

  datatype ErrorBody =
      /** A JSON object with one key whose value is a list of messages. */
    | Messages(key: string, messages: seq<string>)
      /** `errors.getAllErrors()` */
    | FieldErrors(errors: seq<FieldError>)

  datatype Response =
      /** 304, with the cache headers and no body */
    | NotModified(cache: CacheHeaders)
      /** 400 */
    | BadRequest(body: ErrorBody)
      /** 204, with no cache headers */
    | NoContent
      /** 200, a JSON array of airports with the cache headers */
    | Fresh(airports: seq<Airport>, cache: CacheHeaders)
      /** 201, with the Location header and the saved record as body */
    | Created(location: string, saved: AirportData)
      /** 500, from the `onError` handler */
    | ServerError

  const MissingAirportMessage: string := "Query parameter filter cannot be null or empty."

  // ---------------------------------------------------------------------------
  // The lookup handler's decision

  /**
   * The `limit` query parameter: kept when it is creatable, parses as an
   * `int` and lies in [1, 20]; 20 otherwise. `None` is the
   * `NumberFormatException` of a creatable text that is not an `int`.
   */
  function LimitOf(param: Option<string>, isCreatable: string -> bool): (r: Option<int>)
    ensures r.Some? ==> 1 <= r.value <= 20
    ensures r.None? <==> param.Some? && isCreatable(param.value) && Decimal.ParseInt(param.value).None?
    ensures (&& param.Some? && isCreatable(param.value) && Decimal.ParseInt(param.value).Some?
             && 1 <= Decimal.ParseInt(param.value).value <= 20)
      ==> r == Decimal.ParseInt(param.value)
  {
    if param.None? || !isCreatable(param.value) then Some(20)
    else match Decimal.ParseInt(param.value)
      case None => None
      case Some(v) => if 1 <= v <= 20 then Some(v) else Some(20)
  }

  /** What the lookup handler does before it calls the repository. */
  datatype Decision =
    | Respond(response: Response)
    | Query(airport: string, limit: int, lang: Language)

  /** The first value of an `If-None-Match` header is exactly the tag. */
  predicate TagMatches(eTag: string, req: LookupRequest)
  {
    |req.ifNoneMatch| > 0 && req.ifNoneMatch[0] == eTag
  }

  /** The first value of an `If-Modified-Since` header parses to exactly the modification instant. */
  predicate DateMatches(lastModified: Instant, req: LookupRequest, lib: Library)
  {
    |req.ifModifiedSince| > 0 && lib.parseInstant(req.ifModifiedSince[0]) == Some(lastModified)
  }

  /** The chain of checks of `handle` up to the repository call, in the order the code makes them. */
  function Decide(eTag: string, lastModified: Instant, req: LookupRequest, lib: Library): Decision
  {
    if TagMatches(eTag, req) then Respond(NotModified(CacheControl(lastModified, eTag)))
    else if |req.ifModifiedSince| > 0 && lib.parseInstant(req.ifModifiedSince[0]).None? then Respond(ServerError)
    else if DateMatches(lastModified, req, lib) then Respond(NotModified(CacheControl(lastModified, eTag)))
    else if req.airport.None? then Respond(BadRequest(Messages("Errors", [MissingAirportMessage])))
    else match LanguageOf(req.lang)
      case None => Respond(ServerError)
      case Some(lang) =>
        match LimitOf(req.limit, lib.isCreatable)
        case None => Respond(ServerError)
        case Some(limit) => Query(req.airport.value, limit, lang)
  }

  /** The answer to the repository's list: 204 when it is empty, else 200 with the cache headers. */
  function Answer(cache: CacheHeaders, airports: seq<Airport>): Response
  {
    if |airports| == 0 then NoContent else Fresh(airports, cache)
  }

  /** The whole of `handle` over a table of rows and a fault of the backend. */
  function LookupResponse(eTag: string, lastModified: Instant, table: seq<AirportRow>, req: LookupRequest, lib: Library, fault: Fault): Response
  {
    match Decide(eTag, lastModified, req, lib)
    case Respond(response) => response
    case Query(airport, limit, lang) =>
      match LookupResult(table, airport, limit, lang, fault)
      case Err(_) => ServerError
      case Ok(airports) => Answer(CacheControl(lastModified, eTag), airports)
  }

  /** `LookupAirportHandler`: the tag and the instant are fixed when the handler is made. */
  class LookupAirportHandler {
    const repo: Repository
    const lastModified: Instant
    const eTag: string

    /** `now` is `Instant.now()` at construction. */
    constructor (repo: Repository, now: Instant)
      ensures this.repo == repo && lastModified == now && eTag == ETagSentinel
    {
      this.repo := repo;
      lastModified := now;
      eTag := ETagSentinel;
    }

    /**
     * `handle`: answer 304 to a matching conditional request, 400 to a
     * request without `airport`, and otherwise search with the clamped limit.
     */
    method Handle(req: LookupRequest, lib: Library, fault: Fault) returns (resp: Response)
      requires repo.db.Valid() && repo.db.Idle()
      modifies repo.db
      ensures resp == LookupResponse(eTag, lastModified, old(repo.db.table), req, lib, fault)
      ensures repo.db.Valid() && repo.db.Idle() && repo.db.table == old(repo.db.table)
      ensures Decide(eTag, lastModified, req, lib).Respond? ==> repo.db.journal == old(repo.db.journal)
      ensures var d := Decide(eTag, lastModified, req, lib);
        d.Query? ==> repo.db.journal == old(repo.db.journal) + LookupJournal(old(repo.db.table), d.airport, d.limit, d.lang, fault)
    {
      if |req.ifNoneMatch| > 0 {
        var reqETag := req.ifNoneMatch[0];
        if reqETag == eTag {
          return NotModified(CacheControl(lastModified, eTag));
        }
      }
      if |req.ifModifiedSince| > 0 {
        var reqLastModified := lib.parseInstant(req.ifModifiedSince[0]);
        if reqLastModified.None? {
          return ServerError;
        }
        if reqLastModified.value == lastModified {
          return NotModified(CacheControl(lastModified, eTag));
        }
      }
      if req.airport.None? {
        return BadRequest(Messages("Errors", [MissingAirportMessage]));
      }
      var lang := LanguageOf(req.lang);
      if lang.None? {
        return ServerError;
      }
      var airport := req.airport.value;
      var limit := LimitOf(req.limit, lib.isCreatable);
      if limit.None? {
        return ServerError;
      }
      var airports := repo.GetAirportsLike(airport, limit.value, lang.value, fault);
      JournalledLookupKeepsTable(repo.db.origin, old(repo.db.journal), airport, limit.value, lang.value, fault);
      if airports.Err? {
        return ServerError;
      }
      if |airports.value| == 0 {
        return NoContent;
      }
      resp := Fresh(airports.value, CacheControl(lastModified, eTag));
    }
  }

  // ---------------------------------------------------------------------------
  // Properties of the lookup decision

  /**
   * The handler answers 304 exactly when the first `If-None-Match` value is
   * the tag, or the first `If-Modified-Since` value parses to the very
   * instant of the last modification.
   */
  lemma NotModifiedIff(eTag: string, lastModified: Instant, req: LookupRequest, lib: Library)
    ensures (Decide(eTag, lastModified, req, lib).Respond? && Decide(eTag, lastModified, req, lib).response.NotModified?)
      <==> TagMatches(eTag, req) || DateMatches(lastModified, req, lib)
    ensures Decide(eTag, lastModified, req, lib) == Respond(NotModified(CacheControl(lastModified, eTag)))
      <==> TagMatches(eTag, req) || DateMatches(lastModified, req, lib)
  {
  }

  /** A matching tag is answered 304 whatever the query parameters and whatever the table holds. */
  lemma TagMatchIgnoresQuery(eTag: string, lastModified: Instant, table: seq<AirportRow>, req: LookupRequest, lib: Library, fault: Fault)
    requires TagMatches(eTag, req)
    ensures LookupResponse(eTag, lastModified, table, req, lib, fault) == NotModified(CacheHeaders(lastModified, eTag, 3600))
    ensures LookupResponse(eTag, lastModified, table, req.(airport := None), lib, fault).NotModified?
  {
  }

  /** An `If-Modified-Since` instant earlier or later than the last modification does not give 304. */
  lemma OtherInstantFallsThrough(eTag: string, lastModified: Instant, req: LookupRequest, lib: Library, t: Instant)
    requires !TagMatches(eTag, req)
    requires |req.ifModifiedSince| > 0 && lib.parseInstant(req.ifModifiedSince[0]) == Some(t)
    requires t < lastModified || t > lastModified
    ensures !(Decide(eTag, lastModified, req, lib).Respond? && Decide(eTag, lastModified, req, lib).response.NotModified?)
  {
  }

  /**
   * Unlike section 13.2.2 of RFC 9110, an `If-None-Match` that does not
   * match does not stop `If-Modified-Since` from giving 304.
   */
  lemma DateCheckedDespiteTag(eTag: string, lastModified: Instant, req: LookupRequest, lib: Library)
    requires !TagMatches(eTag, req) && DateMatches(lastModified, req, lib)
    ensures Decide(eTag, lastModified, req, lib) == Respond(NotModified(CacheControl(lastModified, eTag)))
  {
  }

  /** A request that no conditional header answers and that has no `airport` gets 400 with the one message, before the repository. */
  lemma MissingAirportIsBadRequest(eTag: string, lastModified: Instant, req: LookupRequest, lib: Library)
    requires !TagMatches(eTag, req)
    requires |req.ifModifiedSince| > 0 ==> lib.parseInstant(req.ifModifiedSince[0]).Some? && !DateMatches(lastModified, req, lib)
    requires req.airport.None?
    ensures Decide(eTag, lastModified, req, lib) == Respond(BadRequest(Messages("Errors", ["Query parameter filter cannot be null or empty."])))
  {
  }

  /**
   * `Optional.isEmpty` does not look inside the text: an empty `airport` is
   * never answered 400, although the message speaks of "null or empty".
   */
  lemma EmptyAirportIsNotRejected(eTag: string, lastModified: Instant, req: LookupRequest, lib: Library)
    requires req.airport == Some("")
    ensures !(Decide(eTag, lastModified, req, lib).Respond? && Decide(eTag, lastModified, req, lib).response.BadRequest?)
  {
  }

  /**
   * An empty `airport` is present, so it passes the check; a search for it
   * that succeeds answers with the first rows of the table, up to the limit.
   */
  lemma EmptyAirportSearchesAll(eTag: string, lastModified: Instant, table: seq<AirportRow>, req: LookupRequest, lib: Library, fault: Fault)
    requires req.airport == Some("")
    requires Decide(eTag, lastModified, req, lib).Query?
    ensures var d := Decide(eTag, lastModified, req, lib);
      && d.airport == ""
      && 1 <= d.limit <= 20
      && (LookupResult(table, "", d.limit, d.lang, fault).Ok? ==>
            LookupResponse(eTag, lastModified, table, req, lib, fault)
            == Answer(CacheControl(lastModified, eTag), ToAirports(if |table| <= d.limit then table else table[..d.limit], d.lang)))
  {
    var d := Decide(eTag, lastModified, req, lib);
    EmptyTextReturnsLeadingRows(table, d.limit, d.lang);
  }

  /**
   * A limit in [1, 20] that the library deems creatable is used as given,
   * whether written plainly, with a leading `+` or with a leading zero.
   */
  lemma LimitInRangeKept(n: int, isCreatable: string -> bool)
    requires 1 <= n <= 20
    ensures isCreatable(Decimal.IntToString(n)) ==> LimitOf(Some(Decimal.IntToString(n)), isCreatable) == Some(n)
    ensures isCreatable("+" + Decimal.IntToString(n)) ==> LimitOf(Some("+" + Decimal.IntToString(n)), isCreatable) == Some(n)
    ensures isCreatable("0" + Decimal.IntToString(n)) ==> LimitOf(Some("0" + Decimal.IntToString(n)), isCreatable) == Some(n)
  {
    Decimal.ParseIntRoundTrip(n);
    Decimal.ParseIntLenientForms(n);
  }

  /** An absent, non-creatable or out-of-range limit becomes 20. */
  lemma LimitDefaults(param: Option<string>, isCreatable: string -> bool)
    ensures param.None? ==> LimitOf(param, isCreatable) == Some(20)
    ensures param.Some? && !isCreatable(param.value) ==> LimitOf(param, isCreatable) == Some(20)
    ensures (&& param.Some? && isCreatable(param.value) && Decimal.ParseInt(param.value).Some?
             && !(1 <= Decimal.ParseInt(param.value).value <= 20))
      ==> LimitOf(param, isCreatable) == Some(20)
  {
  }

  /** "2.5" is creatable for the library but not an `int`: `parseInt` throws and the request ends in 500. */
  lemma CreatableFractionIsServerError(eTag: string, lastModified: Instant, lib: Library)
    requires lib.isCreatable("2.5")
    ensures Decide(eTag, lastModified, LookupRequest("en", [], [], Some("x"), Some("2.5")), lib) == Respond(ServerError)
  {
    assert "2.5"[0] != '-' && "2.5"[0] != '+';
    assert !Decimal.IsDigit("2.5"[1]);
    assert !Decimal.AllDigits("2.5"[0..]);
  }

  /** A search that reaches the repository uses a limit in [1, 20]. */
  lemma QueriedLimitIsClamped(eTag: string, lastModified: Instant, req: LookupRequest, lib: Library)
    requires Decide(eTag, lastModified, req, lib).Query?
    ensures 1 <= Decide(eTag, lastModified, req, lib).limit <= 20
  {
  }

  /**
   * Without a backend fault, a search that reaches the repository answers
   * 204 exactly when no row's code, name or city matches, and otherwise 200
   * with between 1 and 20 airports and the cache headers.
   */
  lemma SearchAnswer(eTag: string, lastModified: Instant, table: seq<AirportRow>, req: LookupRequest, lib: Library)
    requires Decide(eTag, lastModified, req, lib).Query?
    ensures var d := Decide(eTag, lastModified, req, lib);
      var p := SearchPattern(d.airport);
      (LookupResponse(eTag, lastModified, table, req, lib, NoFault) == NoContent
       <==> forall row :: row in table ==> !RowMatches(row, p, p, p, d.lang))
    ensures var r := LookupResponse(eTag, lastModified, table, req, lib, NoFault);
      r.Fresh? ==> 1 <= |r.airports| <= 20 && r.cache == CacheHeaders(lastModified, eTag, MaxAgeSeconds)
    ensures var r := LookupResponse(eTag, lastModified, table, req, lib, NoFault);
      r.NoContent? || r.Fresh?
  {
    var d := Decide(eTag, lastModified, req, lib);
    SearchEmptyIffNoMatch(table, d.airport, d.limit, d.lang);
    SearchIsBounded(table, d.airport, d.limit, d.lang);
  }

  // ---------------------------------------------------------------------------
  // Validation

  /** The properties `validate` checks. */
  datatype Field = Code | LangToName | LangToCity | Coordinates | Timezone

  /** The bean property name passed to `rejectIfEmpty`. */
  function FieldName(f: Field): string
  {
    match f
    case Code => "code"
    case LangToName => "langToName"
    case LangToCity => "langToCity"
    case Coordinates => "coordinates"
    case Timezone => "timezone"
  }

  /** The rejection `validate` records for an empty field. */
  function Rejection(f: Field): (e: FieldError)
    ensures e.field == FieldName(f)
  {
    match f
    case Code => FieldError("code", "airport_code.required", "airport_code cannot be empty")
    case LangToName => FieldError("langToName", "airport_name.required", "airport_name cannot be empty")
    case LangToCity => FieldError("langToCity", "city.required", "city cannot be empty")
    case Coordinates => FieldError("coordinates", "coordinates.required", "coordinates cannot be empty")
    case Timezone => FieldError("timezone", "timezone.required", "timezone cannot be empty")
  }

  /**
   * `rejectIfEmpty`'s test: the value is null or prints as "". A map or a
   * point always prints with brackets, so only null makes it empty.
   */
  predicate IsEmptyField(d: AirportData, f: Field)
  {
    match f
    case Code => d.code.None? || d.code.value == ""
    case LangToName => d.langToName.None?
    case LangToCity => d.langToCity.None?
    case Coordinates => d.coordinates.None?
    case Timezone => d.timezone.None? || d.timezone.value == ""
  }

  /** The rejection of one field if it is empty. */
  function RejectionIfEmpty(d: AirportData, f: Field): seq<FieldError>
  {
    if IsEmptyField(d, f) then [Rejection(f)] else []
  }

  /** Every rejection `validate` records for a record, in the order of its checks. */
  function Violations(d: AirportData): seq<FieldError>
  {
    RejectionIfEmpty(d, Code) + RejectionIfEmpty(d, LangToName) + RejectionIfEmpty(d, LangToCity)
      + RejectionIfEmpty(d, Coordinates) + RejectionIfEmpty(d, Timezone)
  }

  /** Five runs appended one after another are appended as one. */
  lemma AppendFive<T>(s: seq<T>, a: seq<T>, b: seq<T>, c: seq<T>, d: seq<T>, e: seq<T>)
    ensures s + a + b + c + d + e == s + (a + b + c + d + e)
  {
  }

  /** `BeanPropertyBindingResult`: the rejections recorded against one target record. */
  class Errors {
    const target: AirportData
    var all: seq<FieldError>

    constructor (target: AirportData)
      ensures this.target == target && all == []
    {
      this.target := target;
      all := [];
    }

    predicate HasErrors()
      reads this
    {
      |all| > 0
    }

    /** `ValidationUtils.rejectIfEmpty` on the target's `field`. */
    method RejectIfEmpty(field: Field, errorCode: string, defaultMessage: string)
      modifies this
      ensures all == old(all) + if IsEmptyField(target, field) then [FieldError(FieldName(field), errorCode, defaultMessage)] else []
    {
      if IsEmptyField(target, field) {
        all := all + [FieldError(FieldName(field), errorCode, defaultMessage)];
      }
    }
  }

  class AirportValidator {
    constructor ()
    {
    }

    /** `validate`: the rejections go against the target of `e`; `obj` is not read. */
    method Validate(obj: AirportData, e: Errors)
      modifies e
      ensures e.all == old(e.all) + Violations(e.target)
    {
      e.RejectIfEmpty(Code, "airport_code.required", "airport_code cannot be empty");
      e.RejectIfEmpty(LangToName, "airport_name.required", "airport_name cannot be empty");
      e.RejectIfEmpty(LangToCity, "city.required", "city cannot be empty");
      e.RejectIfEmpty(Coordinates, "coordinates.required", "coordinates cannot be empty");
      e.RejectIfEmpty(Timezone, "timezone.required", "timezone cannot be empty");
      AppendFive(old(e.all), RejectionIfEmpty(e.target, Code), RejectionIfEmpty(e.target, LangToName),
        RejectionIfEmpty(e.target, LangToCity), RejectionIfEmpty(e.target, Coordinates), RejectionIfEmpty(e.target, Timezone));
    }
  }

  /** The validator records at most five rejections. */
  lemma ViolationsAreFew(d: AirportData)
    ensures |Violations(d)| <= 5
  {
  }

  /** An empty field is rejected. */
  lemma EmptyFieldIsRejected(d: AirportData, f: Field)
    requires IsEmptyField(d, f)
    ensures Rejection(f) in Violations(d)
  {
    assert Rejection(f) in RejectionIfEmpty(d, f);
    match f
    case Code =>
    case LangToName =>
    case LangToCity =>
    case Coordinates =>
    case Timezone =>
  }

  /** Every rejection belongs to an empty field: the validator rejects nothing else. */
  lemma RejectionIsOfEmptyField(d: AirportData, e: FieldError)
    requires e in Violations(d)
    ensures exists f: Field :: IsEmptyField(d, f) && e == Rejection(f)
  {
    if e in RejectionIfEmpty(d, Code) {
      assert IsEmptyField(d, Code) && e == Rejection(Code);
    } else if e in RejectionIfEmpty(d, LangToName) {
      assert IsEmptyField(d, LangToName) && e == Rejection(LangToName);
    } else if e in RejectionIfEmpty(d, LangToCity) {
      assert IsEmptyField(d, LangToCity) && e == Rejection(LangToCity);
    } else if e in RejectionIfEmpty(d, Coordinates) {
      assert IsEmptyField(d, Coordinates) && e == Rejection(Coordinates);
    } else {
      assert IsEmptyField(d, Timezone) && e == Rejection(Timezone);
    }
  }

  /** A record passes the validator exactly when its five fields are present and the code and zone are not "". */
  lemma NoViolationsIff(d: AirportData)
    ensures Violations(d) == [] <==>
      && d.code.Some? && d.code.value != ""
      && d.langToName.Some? && d.langToCity.Some?
      && d.coordinates.Some?
      && d.timezone.Some? && d.timezone.value != ""
  {
    if Violations(d) != [] {
      RejectionIsOfEmptyField(d, Violations(d)[0]);
    }
    if IsEmptyField(d, Code) { EmptyFieldIsRejected(d, Code); }
    if IsEmptyField(d, LangToName) { EmptyFieldIsRejected(d, LangToName); }
    if IsEmptyField(d, LangToCity) { EmptyFieldIsRejected(d, LangToCity); }
    if IsEmptyField(d, Coordinates) { EmptyFieldIsRejected(d, Coordinates); }
    if IsEmptyField(d, Timezone) { EmptyFieldIsRejected(d, Timezone); }
  }

  /** A record that passes the validator can be bound by the insert without a null. */
  lemma ValidatedIsBindable(d: AirportData)
    requires Violations(d) == []
    ensures Bindable(d)
  {
    NoViolationsIff(d);
  }

  /** The validator never calls `isMalformed`: a record with one translation passes it and is still malformed. */
  lemma ValidatorAdmitsMalformed(p: Point)
    ensures var d := AirportData(Some("LHR"), Some(map[EN := Some("Heathrow")]), Some(map[EN := Some("London")]), Some(p), Some("Europe/London"));
      Violations(d) == [] && IsMalformed(d)
  {
    var d := AirportData(Some("LHR"), Some(map[EN := Some("Heathrow")]), Some(map[EN := Some("London")]), Some(p), Some("Europe/London"));
    NoViolationsIff(d);
    assert |map[EN := Some("Heathrow")]| == 1;
    assert |map[EN := Some("London")]| == 1;
  }

  // ---------------------------------------------------------------------------
  // The create handler

  /** What the create handler reads of a request: its URI and the decoded body, `None` for null or unreadable JSON. */
  datatype CreateRequest = CreateRequest(uri: string, body: Option<AirportData>)

  /** The whole of the create handler's `handle` over the insert's outcome. */
  function CreateResponse(req: CreateRequest, affected: int, fault: Fault): Response
  {
    if req.body.None? then ServerError
    else if Violations(req.body.value) != [] then BadRequest(FieldErrors(Violations(req.body.value)))
    else match SaveResult(req.body.value, affected, fault)
      case Err(_) => ServerError
      case Ok(saved) => Created(req.uri + "/" + saved.code.value, saved)
  }

  class CreateAirportHandler {
    const repo: Repository
    const validator: AirportValidator

    constructor (repo: Repository, validator: AirportValidator)
      ensures this.repo == repo && this.validator == validator
    {
      this.repo := repo;
      this.validator := validator;
    }

    /**
     * `handle`: validate the body; with any rejection answer 400 without
     * touching the database, otherwise insert it and answer 201.
     */
    method Handle(req: CreateRequest, affected: int, fault: Fault) returns (resp: Response)
      requires repo.db.Valid() && repo.db.Idle()
      modifies repo.db
      ensures resp == CreateResponse(req, affected, fault)
      ensures repo.db.Valid() && repo.db.Idle() && repo.db.table == old(repo.db.table)
      ensures req.body.None? || Violations(req.body.value) != [] ==> repo.db.journal == old(repo.db.journal)
      ensures req.body.Some? && Violations(req.body.value) == [] ==>
        repo.db.journal == old(repo.db.journal) + SaveJournal(req.body.value, affected, fault)
    {
      if req.body.None? {
        // binding errors to a null target throws
        return ServerError;
      }
      var airport := req.body.value;
      var errors := new Errors(airport);
      validator.Validate(airport, errors);
      assert errors.all == Violations(airport);
      if errors.HasErrors() {
        return BadRequest(FieldErrors(errors.all));
      }
      resp := Store(req.uri, airport, affected, fault);
    }

    /** The rest of `handle` once the record has passed the validator: insert it and answer 201 with its location. */
    method Store(uri: string, airport: AirportData, affected: int, fault: Fault) returns (resp: Response)
      requires repo.db.Valid() && repo.db.Idle()
      requires Violations(airport) == []
      modifies repo.db
      ensures resp == CreateResponse(CreateRequest(uri, Some(airport)), affected, fault)
      ensures repo.db.Valid() && repo.db.Idle() && repo.db.table == old(repo.db.table)
      ensures repo.db.journal == old(repo.db.journal) + SaveJournal(airport, affected, fault)
    {
      var saved := repo.SaveAirport(airport, affected, fault);
      JournalledSaveKeepsTable(repo.db.origin, old(repo.db.journal), airport, affected, fault);
      if saved.Err? {
        return ServerError;
      }
      NoViolationsIff(airport);
      resp := Created(uri + "/" + saved.value.code.value, saved.value);
    }
  }

  /**
   * A create answers 201 exactly when the body passes the validator and the
   * insert succeeds; the Location ends in `/` and the code, and the body is
   * the record as sent. Otherwise a present, rejected body gets 400 with
   * its rejections.
   */
  lemma CreateOutcomes(req: CreateRequest, affected: int, fault: Fault)
    ensures CreateResponse(req, affected, fault).Created? <==>
      req.body.Some? && Violations(req.body.value) == [] && SaveResult(req.body.value, affected, fault).Ok?
    ensures CreateResponse(req, affected, fault).Created? ==>
      var d := req.body.value;
      && CreateResponse(req, affected, fault).saved == d
      && CreateResponse(req, affected, fault).location == req.uri + "/" + d.code.value
      && d.code.value != ""
    ensures req.body.Some? && Violations(req.body.value) != [] ==>
      CreateResponse(req, affected, fault) == BadRequest(FieldErrors(Violations(req.body.value)))
  {
    if req.body.Some? && Violations(req.body.value) == [] {
      NoViolationsIff(req.body.value);
      SaveOutcomes(req.body.value, affected, fault);
    }
  }
}
