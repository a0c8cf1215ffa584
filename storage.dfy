/**
 * Repository.java: the search `getAirportsLike`, the insert `saveAirport` and
 * the warning walk `logWarnings`, over a model of the PostgreSQL database
 * reached through the connection pool.
 *
 * The database is a table of `airports_data` rows, the rows inserted by the
 * open transaction, the session settings of the connection and a journal of
 * the statements it has carried out. Failures of the driver or the server are
 * a `Fault` parameter: the step at which an `SQLException` is raised.
 */
module Storage {
  import opened Wrappers
  import opened Records
  import Ilike
  import Decimal

  /** A row of `airports_data`; the JSON name and city maps keep only their non-null entries. */
  datatype AirportRow = AirportRow(
    code: string,
    names: map<Language, string>,
    cities: map<Language, string>,
    coordinates: Point,
    timezone: ZoneId)

  /** A statement the database has carried out, in the order the repository sent it. */
  datatype Statement =
      /** `set plan_cache_mode = 'force_generic_plan'; set bookings.lang = '<lang>'` */
    | SetSession(lang: Language)
      /** The search, with the text bound to each `ilike ?` and to `limit ?`. */
    | Select(codePattern: string, namePattern: string, cityPattern: string, limit: int)
    | Insert(row: AirportRow)
    | Commit
    | Rollback
      /** The connection goes back to the pool, which rolls back work left uncommitted. */
    | Release

  /** The settings of a session: `bookings.lang`, and whether `plan_cache_mode` forces generic plans. */
  datatype Session = Session(language: Option<Language>, genericPlans: bool)

  /**
   * The committed table, the rows inserted by the open transaction, the
   * session settings in force, and the settings as the last commit or
   * rollback left them. Auto-commit is off, so a `SET` belongs to the open
   * transaction and a rollback undoes it.
   */
  datatype DbState = DbState(
    table: seq<AirportRow>,
    pending: seq<AirportRow>,
    session: Session,
    committedSession: Session)

  /** No transaction is open: nothing is pending and no setting differs from the committed ones. */
  predicate AtRest(st: DbState)
  {
    st.pending == [] && st.session == st.committedSession
  }

  /** What one statement does to the database. */
  function Apply(st: DbState, s: Statement): DbState
  {
    match s
    case SetSession(lang) => st.(session := Session(Some(lang), true))
    case Select(_, _, _, _) => st
    case Insert(row) => st.(pending := st.pending + [row])
    case Commit => st.(table := st.table + st.pending, pending := [], committedSession := st.session)
    case Rollback => st.(pending := [], session := st.committedSession)
    case Release => st.(pending := [], session := st.committedSession)
  }

  function Run(st: DbState, ss: seq<Statement>): DbState
    decreases |ss|
  {
    if ss == [] then st else Run(Apply(st, ss[0]), ss[1..])
  }

  lemma {:induction false} RunSnoc(st: DbState, ss: seq<Statement>, s: Statement)
    ensures Run(st, ss + [s]) == Apply(Run(st, ss), s)
    decreases |ss|
  {
    if ss != [] {
      assert (ss + [s])[1..] == ss[1..] + [s];
      RunSnoc(Apply(st, ss[0]), ss[1..], s);
    }
  }

  /** Running two batches of statements is running the second from where the first left off. */
  lemma {:induction false} RunAppend(st: DbState, a: seq<Statement>, b: seq<Statement>)
    ensures Run(st, a + b) == Run(Run(st, a), b)
    decreases |a|
  {
    if a != [] {
      assert (a + b)[1..] == a[1..] + b;
      RunAppend(Apply(st, a[0]), a[1..], b);
    } else {
      assert a + b == b;
    }
  }

  /** Statements without a `Commit` never change the stored table or the committed settings, whatever they insert or set. */
  lemma {:induction false} UncommittedWorkIsLost(st: DbState, ss: seq<Statement>)
    requires Commit !in ss
    ensures Run(st, ss).table == st.table
    ensures Run(st, ss).committedSession == st.committedSession
    decreases |ss|
  {
    if ss != [] {
      assert ss[0] != Commit;
      assert Commit !in ss[1..];
      UncommittedWorkIsLost(Apply(st, ss[0]), ss[1..]);
    }
  }

  /** The contrast: had the insert been committed, the row would be stored. */
  lemma CommittedInsertIsStored(st: DbState, row: AirportRow)
    requires st.pending == []
    ensures Run(st, [Insert(row), Commit, Release]).table == st.table + [row]
  {
    var s1 := Apply(st, Insert(row));
    var s2 := Apply(s1, Commit);
    var s3 := Apply(s2, Release);
    assert Run(s2, [Release]) == s3 by {
      assert [Release][1..] == [];
    }
    assert Run(s1, [Commit, Release]) == s3 by {
      assert [Commit, Release][1..] == [Release];
    }
    assert [Insert(row), Commit, Release][1..] == [Commit, Release];
  }

  // ---------------------------------------------------------------------------
  // The search statement

  /** `airport_name` / `city` of the `airports` view: the entry for the session language, NULL when there is none. */
  function Localized(m: map<Language, string>, lang: Language): Option<string>
  {
    if lang in m then Some(m[lang]) else None
  }

  /** The text bound to each of the three `ilike ?` parameters. */
  function SearchPattern(airportName: string): string
  {
    "%" + airportName + "%"
  }

  /** The `where` clause; a NULL column matches nothing. */
  predicate RowMatches(row: AirportRow, codePattern: string, namePattern: string, cityPattern: string, lang: Language)
  {
    || Ilike.ILike(row.code, codePattern)
    || (lang in row.names && Ilike.ILike(row.names[lang], namePattern))
    || (lang in row.cities && Ilike.ILike(row.cities[lang], cityPattern))
  }

  /** The rows satisfying the `where` clause, in table order. */
  function Matching(rows: seq<AirportRow>, codePattern: string, namePattern: string, cityPattern: string, lang: Language): seq<AirportRow>
    decreases |rows|
  {
    if rows == [] then []
    else
      (if RowMatches(rows[0], codePattern, namePattern, cityPattern, lang) then [rows[0]] else [])
      + Matching(rows[1..], codePattern, namePattern, cityPattern, lang)
  }

  /** The result set of the search: the matching rows cut at `limit`. */
  function ResultSet(rows: seq<AirportRow>, codePattern: string, namePattern: string, cityPattern: string, lang: Language, limit: nat): seq<AirportRow>
  {
    var m := Matching(rows, codePattern, namePattern, cityPattern, lang);
    if |m| <= limit then m else m[..limit]
  }

  /** One result row read field by field into an `Airport`. */
  function ToAirport(row: AirportRow, lang: Language): Airport
  {
    Airport(row.code, Localized(row.names, lang), Localized(row.cities, lang), row.coordinates, row.timezone)
  }

  function ToAirports(rows: seq<AirportRow>, lang: Language): seq<Airport>
  {
    seq(|rows|, i requires 0 <= i < |rows| => ToAirport(rows[i], lang))
  }

  /** What a successful `getAirportsLike(airportName, limit, lang)` returns for a given table. */
  function Search(table: seq<AirportRow>, airportName: string, limit: nat, lang: Language): seq<Airport>
  {
    var p := SearchPattern(airportName);
    ToAirports(ResultSet(table, p, p, p, lang, limit), lang)
  }

  /** A row is kept exactly when it is in the table and satisfies the `where` clause. */
  lemma {:induction false} MatchingMembers(rows: seq<AirportRow>, cp: string, np: string, tp: string, lang: Language, row: AirportRow)
    ensures row in Matching(rows, cp, np, tp, lang) <==> row in rows && RowMatches(row, cp, np, tp, lang)
  {
    if rows != [] {
      MatchingMembers(rows[1..], cp, np, tp, lang, row);
      assert rows == [rows[0]] + rows[1..];
    }
  }

  /** Filtering splits over a concatenated table: the result keeps the order of the table. */
  lemma {:induction false} MatchingKeepsOrder(a: seq<AirportRow>, b: seq<AirportRow>, cp: string, np: string, tp: string, lang: Language)
    ensures Matching(a + b, cp, np, tp, lang) == Matching(a, cp, np, tp, lang) + Matching(b, cp, np, tp, lang)
  {
    if a == [] {
      assert a + b == b;
    } else {
      var head := if RowMatches(a[0], cp, np, tp, lang) then [a[0]] else [];
      assert (a + b)[0] == a[0];
      assert (a + b)[1..] == a[1..] + b;
      assert Matching(a + b, cp, np, tp, lang) == head + Matching(a[1..] + b, cp, np, tp, lang);
      MatchingKeepsOrder(a[1..], b, cp, np, tp, lang);
      assert head + (Matching(a[1..], cp, np, tp, lang) + Matching(b, cp, np, tp, lang))
          == (head + Matching(a[1..], cp, np, tp, lang)) + Matching(b, cp, np, tp, lang);
    }
  }

  /** A row matching the pattern `%%` of an empty search text is every row. */
  lemma {:induction false} EverythingMatchesEmptyText(rows: seq<AirportRow>, lang: Language)
    ensures Matching(rows, SearchPattern(""), SearchPattern(""), SearchPattern(""), lang) == rows
  {
    if rows != [] {
      Ilike.EmptySearchMatchesAll(rows[0].code);
      EverythingMatchesEmptyText(rows[1..], lang);
      assert rows == [rows[0]] + rows[1..];
    }
  }

  /** The search returns at most `limit` airports, fewer only when fewer rows match. */
  lemma SearchIsBounded(table: seq<AirportRow>, airportName: string, limit: nat, lang: Language)
    ensures var p := SearchPattern(airportName);
      |Search(table, airportName, limit, lang)| == if |Matching(table, p, p, p, lang)| <= limit then |Matching(table, p, p, p, lang)| else limit
  {
  }

  /**
   * Each returned airport comes from a table row, and its code, name or city
   * contains the search text without regard to case (for a text free of the
   * LIKE wildcards `%`, `_` and `\`).
   */
  lemma SearchOnlyReturnsMatches(table: seq<AirportRow>, airportName: string, limit: nat, lang: Language, k: nat)
    requires Ilike.Literal(airportName)
    requires k < |Search(table, airportName, limit, lang)|
    ensures var a := Search(table, airportName, limit, lang)[k];
      && (exists row :: row in table && a == ToAirport(row, lang))
      && (|| Ilike.ContainsIgnoringCase(a.code, airportName)
          || (a.name.Some? && Ilike.ContainsIgnoringCase(a.name.value, airportName))
          || (a.city.Some? && Ilike.ContainsIgnoringCase(a.city.value, airportName)))
  {
    var p := SearchPattern(airportName);
    var rows := ResultSet(table, p, p, p, lang, limit);
    var row := rows[k];
    assert row in Matching(table, p, p, p, lang);
    MatchingMembers(table, p, p, p, lang, row);
    Ilike.SearchPatternIsContainment(row.code, airportName);
    if lang in row.names {
      Ilike.SearchPatternIsContainment(row.names[lang], airportName);
    }
    if lang in row.cities {
      Ilike.SearchPatternIsContainment(row.cities[lang], airportName);
    }
  }

  /** When the limit is not reached, every matching row of the table is returned. */
  lemma SearchFindsEveryMatch(table: seq<AirportRow>, airportName: string, limit: nat, lang: Language, row: AirportRow)
    requires Ilike.Literal(airportName)
    requires |Search(table, airportName, limit, lang)| < limit
    requires row in table
    requires || Ilike.ContainsIgnoringCase(row.code, airportName)
             || (lang in row.names && Ilike.ContainsIgnoringCase(row.names[lang], airportName))
             || (lang in row.cities && Ilike.ContainsIgnoringCase(row.cities[lang], airportName))
    ensures ToAirport(row, lang) in Search(table, airportName, limit, lang)
  {
    var p := SearchPattern(airportName);
    Ilike.SearchPatternIsContainment(row.code, airportName);
    if lang in row.names {
      Ilike.SearchPatternIsContainment(row.names[lang], airportName);
    }
    if lang in row.cities {
      Ilike.SearchPatternIsContainment(row.cities[lang], airportName);
    }
    MatchingMembers(table, p, p, p, lang, row);
    var m := Matching(table, p, p, p, lang);
    var i :| 0 <= i < |m| && m[i] == row;
    assert Search(table, airportName, limit, lang)[i] == ToAirport(row, lang);
  }

  /** With a positive limit the search is empty exactly when no row matches: no match is an empty list, not an error. */
  lemma SearchEmptyIffNoMatch(table: seq<AirportRow>, airportName: string, limit: nat, lang: Language)
    requires limit > 0
    ensures var p := SearchPattern(airportName);
      Search(table, airportName, limit, lang) == [] <==> forall row :: row in table ==> !RowMatches(row, p, p, p, lang)
  {
    var p := SearchPattern(airportName);
    forall row | row in table
      ensures RowMatches(row, p, p, p, lang) ==> row in Matching(table, p, p, p, lang)
    {
      MatchingMembers(table, p, p, p, lang, row);
    }
    if Matching(table, p, p, p, lang) != [] {
      var row := Matching(table, p, p, p, lang)[0];
      MatchingMembers(table, p, p, p, lang, row);
    }
  }

  /** An empty search text returns the first `limit` rows of the table. */
  lemma EmptyTextReturnsLeadingRows(table: seq<AirportRow>, limit: nat, lang: Language)
    ensures Search(table, "", limit, lang) == ToAirports(if |table| <= limit then table else table[..limit], lang)
  {
    EverythingMatchesEmptyText(table, lang);
  }

  // ---------------------------------------------------------------------------
  // The database and the repository

  /** The exceptions the repository lets out. */
  datatype Failure =
      /** `RuntimeException` wrapping an `SQLException` */
    | SqlFailure
      /** `RuntimeException("Insert failed")` */
    | InsertFailed
      /** `NullPointerException` from a null field of the record to insert */
    | NullPointer

  /** Where the driver or the server raises an `SQLException`, if anywhere. */
  datatype Fault =
    | NoFault
    | AtConnect
    | AtSetup
    | AtQuery
      /** the given call of `rs.next()`, counting from 0 */
    | AtFetch(call: nat)
    | AtCommit
    | AtInsert
    | AtRollback

  class Database {
    var table: seq<AirportRow>
    var pending: seq<AirportRow>
    var session: Session
    var committedSession: Session
    var journal: seq<Statement>

    function State(): DbState
      reads this
    {
      DbState(table, pending, session, committedSession)
    }

    /** No transaction is left open between requests. */
    predicate Idle()
      reads this
    {
      pending == [] && session == committedSession
    }

    /** The state the database was created in. */
    ghost const origin: DbState

    /** The state is the effect of every statement journalled since the database was created. */
    ghost predicate Valid()
      reads this
    {
      State() == Run(origin, journal)
    }

    constructor (rows: seq<AirportRow>)
      ensures Valid() && State() == DbState(rows, [], Session(None, false), Session(None, false)) && journal == []
    {
      table, pending, journal := rows, [], [];
      session, committedSession := Session(None, false), Session(None, false);
      origin := DbState(rows, [], Session(None, false), Session(None, false));
    }

    /** Carry out one statement and journal it. */
    method Execute(s: Statement)
      requires Valid()
      modifies this
      ensures Valid()
      ensures State() == Apply(old(State()), s)
      ensures journal == old(journal) + [s]
    {
      match s {
        case SetSession(lang) =>
          session := Session(Some(lang), true);
        case Select(_, _, _, _) =>
        case Insert(row) =>
          pending := pending + [row];
        case Commit =>
          table, pending, committedSession := table + pending, [], session;
        case Rollback =>
          pending, session := [], committedSession;
        case Release =>
          pending, session := [], committedSession;
      }
      RunSnoc(origin, journal, s);
      journal := journal + [s];
    }

    /** The rows a search yields on this connection: those visible to the transaction, in table order. */
    function Rows(codePattern: string, namePattern: string, cityPattern: string, limit: nat): seq<AirportRow>
      requires session.language.Some?
      reads this
    {
      ResultSet(table + pending, codePattern, namePattern, cityPattern, session.language.value, limit)
    }
  }

  /** A record `saveAirport` can bind without dereferencing null and that satisfies the NOT NULL key. */
  predicate Bindable(d: AirportData)
  {
    d.code.Some? && d.coordinates.Some? && d.timezone.Some?
  }

  /** A translation map as written to the JSON column; a null map is JSON `null`, which has no entries. */
  function JsonColumn(m: Option<Translations>): map<Language, string>
  {
    if m.None? then map[] else map l | l in m.value && m.value[l].Some? :: m.value[l].value
  }

  function ToRow(d: AirportData): AirportRow
    requires Bindable(d)
  {
    AirportRow(d.code.value, JsonColumn(d.langToName), JsonColumn(d.langToCity), d.coordinates.value, d.timezone.value)
  }

  // ---------------------------------------------------------------------------
  // What one call of getAirportsLike does, as functions of its inputs

  /** The search fails: a fault on the way, a negative limit, or a failed fetch before the last row. */
  predicate LookupFails(table: seq<AirportRow>, airportName: string, limit: int, lang: Language, fault: Fault)
  {
    || fault in {AtConnect, AtSetup, AtQuery, AtCommit}
    || limit < 0
    || (fault.AtFetch? && fault.call <= |Search(table, airportName, limit, lang)|)
  }

  /** The statements one search sends, up to the connection going back to the pool. */
  function LookupJournal(table: seq<AirportRow>, airportName: string, limit: int, lang: Language, fault: Fault): seq<Statement>
  {
    var p := SearchPattern(airportName);
    if fault == AtConnect then []
    else if fault == AtSetup then [Release]
    else if fault == AtQuery || limit < 0 then [SetSession(lang), Release]
    else if LookupFails(table, airportName, limit, lang, fault) then [SetSession(lang), Select(p, p, p, limit), Release]
    else [SetSession(lang), Select(p, p, p, limit), Commit, Release]
  }

  /** The value of one search: every airport the query yields, or the `SQLException`. */
  function LookupResult(table: seq<AirportRow>, airportName: string, limit: int, lang: Language, fault: Fault): Result<seq<Airport>, Failure>
  {
    if LookupFails(table, airportName, limit, lang, fault) then Err(SqlFailure) else Ok(Search(table, airportName, limit, lang))
  }

  /**
   * A search succeeds exactly when it commits, and either way leaves the
   * stored table as it was and no transaction open. Its session settings
   * stay on the connection only when it commits; a failed search rolls them
   * back.
   */
  lemma LookupKeepsTable(st: DbState, airportName: string, limit: int, lang: Language, fault: Fault)
    requires AtRest(st)
    ensures LookupResult(st.table, airportName, limit, lang, fault).Ok? <==> Commit in LookupJournal(st.table, airportName, limit, lang, fault)
    ensures Run(st, LookupJournal(st.table, airportName, limit, lang, fault)).table == st.table
    ensures AtRest(Run(st, LookupJournal(st.table, airportName, limit, lang, fault)))
    ensures Run(st, LookupJournal(st.table, airportName, limit, lang, fault)).session
         == if LookupResult(st.table, airportName, limit, lang, fault).Ok? then Session(Some(lang), true) else st.session
  {
    var j := LookupJournal(st.table, airportName, limit, lang, fault);
    if Commit in j {
      var p := SearchPattern(airportName);
      var s1 := Apply(st, SetSession(lang));
      var s2 := Apply(s1, Select(p, p, p, limit));
      var s3 := Apply(s2, Commit);
      var s4 := Apply(s3, Release);
      assert Run(s3, [Release]) == s4 by {
        assert [Release][1..] == [];
      }
      assert Run(s2, [Commit, Release]) == s4 by {
        assert [Commit, Release][1..] == [Release];
      }
      assert Run(s1, [Select(p, p, p, limit), Commit, Release]) == s4 by {
        assert [Select(p, p, p, limit), Commit, Release][1..] == [Commit, Release];
      }
      assert j[1..] == [Select(p, p, p, limit), Commit, Release];
    } else {
      UncommittedWorkIsLost(st, j);
      if j != [] {
        ReleasedRunIsIdle(st, j);
      }
    }
  }

  /**
   * On a database whose state is the run of its journal, a search appended to
   * that journal leaves the stored table as it was and no transaction open.
   */
  lemma JournalledLookupKeepsTable(origin: DbState, before: seq<Statement>, airportName: string, limit: int, lang: Language, fault: Fault)
    requires AtRest(Run(origin, before))
    ensures var st := Run(origin, before);
      var after := Run(origin, before + LookupJournal(st.table, airportName, limit, lang, fault));
      after.table == st.table && AtRest(after)
  {
    var st := Run(origin, before);
    RunAppend(origin, before, LookupJournal(st.table, airportName, limit, lang, fault));
    LookupKeepsTable(st, airportName, limit, lang, fault);
  }

  /** Only a fault or a negative limit fails a search, and a fault in fetching only before the last row. */
  lemma LookupFailures(table: seq<AirportRow>, airportName: string, limit: int, lang: Language, fault: Fault)
    ensures fault == NoFault ==> (LookupResult(table, airportName, limit, lang, fault).Ok? <==> limit >= 0)
    ensures fault in {AtConnect, AtSetup, AtQuery, AtCommit} ==> LookupResult(table, airportName, limit, lang, fault).Err?
    ensures fault.AtFetch? && limit >= 0 ==>
      (LookupResult(table, airportName, limit, lang, fault).Err? <==> fault.call <= |Search(table, airportName, limit, lang)|)
  {
  }

  // ---------------------------------------------------------------------------
  // What one call of saveAirport does, as functions of its inputs

  /** The statements one insert sends, up to the connection going back to the pool. */
  function SaveJournal(airport: AirportData, affected: int, fault: Fault): seq<Statement>
  {
    if fault == AtConnect then []
    else if airport.coordinates.None? || airport.timezone.None? || airport.code.None? || fault == AtInsert then [Release]
    else if affected != 1 || fault == AtRollback then [Insert(ToRow(airport)), Release]
    else [Insert(ToRow(airport)), Rollback, Release]
  }

  /** The value of one insert: the record it was given, or the exception that ends it. */
  function SaveResult(airport: AirportData, affected: int, fault: Fault): Result<AirportData, Failure>
  {
    if fault == AtConnect then Err(SqlFailure)
    else if airport.coordinates.None? || airport.timezone.None? then Err(NullPointer)
    else if airport.code.None? || fault == AtInsert then Err(SqlFailure)
    else if affected != 1 then Err(InsertFailed)
    else if fault == AtRollback then Err(SqlFailure)
    else Ok(airport)
  }

  /** A run of statements that ends by releasing the connection leaves no transaction open. */
  lemma ReleasedRunIsIdle(st: DbState, ss: seq<Statement>)
    requires ss != [] && ss[|ss| - 1] == Release
    ensures AtRest(Run(st, ss))
  {
    assert ss == ss[..|ss| - 1] + [Release];
    RunSnoc(st, ss[..|ss| - 1], Release);
  }

  /**
   * An insert never commits: the stored table and the session settings are
   * as they were, whatever the record, the driver's count or the fault, and
   * no transaction is left open.
   */
  lemma SaveNeverStores(st: DbState, airport: AirportData, affected: int, fault: Fault)
    requires AtRest(st)
    ensures Commit !in SaveJournal(airport, affected, fault)
    ensures Run(st, SaveJournal(airport, affected, fault)).table == st.table
    ensures Run(st, SaveJournal(airport, affected, fault)).session == st.session
    ensures AtRest(Run(st, SaveJournal(airport, affected, fault)))
  {
    var j := SaveJournal(airport, affected, fault);
    UncommittedWorkIsLost(st, j);
    if j != [] {
      ReleasedRunIsIdle(st, j);
    }
  }

  /** On a database whose state is the run of its journal, an insert appended to that journal stores nothing. */
  lemma JournalledSaveKeepsTable(origin: DbState, before: seq<Statement>, airport: AirportData, affected: int, fault: Fault)
    requires AtRest(Run(origin, before))
    ensures var st := Run(origin, before);
      var after := Run(origin, before + SaveJournal(airport, affected, fault));
      after.table == st.table && AtRest(after)
  {
    RunAppend(origin, before, SaveJournal(airport, affected, fault));
    SaveNeverStores(Run(origin, before), airport, affected, fault);
  }

  /**
   * An insert returns the record exactly when it is bindable, no fault
   * strikes and the driver reports one row; a record without coordinates or
   * zone ends in a `NullPointerException`, another count in "Insert failed".
   */
  lemma SaveOutcomes(airport: AirportData, affected: int, fault: Fault)
    ensures SaveResult(airport, affected, fault).Ok? <==> fault !in {AtConnect, AtInsert, AtRollback} && Bindable(airport) && affected == 1
    ensures SaveResult(airport, affected, fault).Ok? ==> SaveResult(airport, affected, fault).value == airport
    ensures fault !in {AtConnect, AtInsert} && Bindable(airport) && affected != 1 ==> SaveResult(airport, affected, fault) == Err(InsertFailed)
    ensures fault != AtConnect && (airport.coordinates.None? || airport.timezone.None?) ==> SaveResult(airport, affected, fault) == Err(NullPointer)
  {
  }

  /** Statements journalled one after another form one batch. */
  lemma JournalAppend2(j: seq<Statement>, a: Statement, b: Statement)
    ensures j + [a] + [b] == j + [a, b]
  {
  }

  lemma JournalAppend3(j: seq<Statement>, a: Statement, b: Statement, c: Statement)
    ensures j + [a] + [b] + [c] == j + [a, b, c]
  {
  }

  lemma JournalAppend4(j: seq<Statement>, a: Statement, b: Statement, c: Statement, d: Statement)
    ensures j + [a] + [b] + [c] + [d] == j + [a, b, c, d]
  {
  }

  class Repository {
    const db: Database

    constructor (db: Database)
      ensures this.db == db
    {
      this.db := db;
    }

    /**
     * The `while (rs.next())` loop of `getAirportsLike`: map each row of the
     * result set to an `Airport`, in order. `next()` call number `i` (from 0)
     * is the one that fails under `AtFetch(i)`; there are `|rows| + 1` calls.
     */
    static method Fetch(rows: seq<AirportRow>, lang: Language, fault: Fault) returns (airports: seq<Airport>, failed: bool)
      ensures failed <==> fault.AtFetch? && fault.call <= |rows|
      ensures !failed ==> airports == ToAirports(rows, lang)
    {
      airports := [];
      var i := 0;
      while i < |rows| && fault != AtFetch(i)
        invariant 0 <= i <= |rows|
        invariant forall j :: 0 <= j < i ==> fault != AtFetch(j)
        invariant airports == ToAirports(rows[..i], lang)
      {
        airports := airports + [ToAirport(rows[i], lang)];
        i := i + 1;
      }
      failed := fault == AtFetch(i);
      assert !failed ==> rows[..i] == rows;
    }

    /**
     * `getAirportsLike`: set up the session on the connection, run the search,
     * read every row, then commit. Any `SQLException` ends the call with no
     * partial result.
     */
    method GetAirportsLike(airportName: string, limit: int, lang: Language, fault: Fault) returns (r: Result<seq<Airport>, Failure>)
      requires db.Valid() && db.Idle()
      modifies db
      ensures db.Valid() && db.journal == old(db.journal) + LookupJournal(old(db.table), airportName, limit, lang, fault)
      ensures r == LookupResult(old(db.table), airportName, limit, lang, fault)
    {
      if fault == AtConnect {
        assert db.journal == old(db.journal) + [];
        return Err(SqlFailure);
      }
      if fault == AtSetup {
        db.Execute(Release);
        return Err(SqlFailure);
      }
      db.Execute(SetSession(lang));
      var pattern := SearchPattern(airportName);
      if fault == AtQuery || limit < 0 {
        // PostgreSQL refuses a negative LIMIT
        db.Execute(Release);
        JournalAppend2(old(db.journal), SetSession(lang), Release);
        return Err(SqlFailure);
      }
      db.Execute(Select(pattern, pattern, pattern, limit));
      var rows := db.Rows(pattern, pattern, pattern, limit);
      assert db.table + db.pending == old(db.table);
      var airports, failed := Fetch(rows, lang, fault);
      if failed || fault == AtCommit {
        db.Execute(Release);
        JournalAppend3(old(db.journal), SetSession(lang), Select(pattern, pattern, pattern, limit), Release);
        return Err(SqlFailure);
      }
      db.Execute(Commit);
      db.Execute(Release);
      JournalAppend4(old(db.journal), SetSession(lang), Select(pattern, pattern, pattern, limit), Commit, Release);
      r := Ok(airports);
    }

    /**
     * `saveAirport`: insert the record, check that exactly one row was
     * affected, then roll the insert back and return the argument.
     */
    method SaveAirport(airport: AirportData, affected: int, fault: Fault) returns (r: Result<AirportData, Failure>)
      requires db.Valid() && db.Idle()
      modifies db
      ensures db.Valid() && db.journal == old(db.journal) + SaveJournal(airport, affected, fault)
      ensures r == SaveResult(airport, affected, fault)
    {
      if fault == AtConnect {
        assert db.journal == old(db.journal) + [];
        return Err(SqlFailure);
      }
      // binding parameters 4 and 5 dereferences the coordinates and the timezone
      if airport.coordinates.None? || airport.timezone.None? {
        db.Execute(Release);
        return Err(NullPointer);
      }
      // a null code violates the key of airports_data
      if airport.code.None? || fault == AtInsert {
        db.Execute(Release);
        return Err(SqlFailure);
      }
      var row := ToRow(airport);
      db.Execute(Insert(row));
      if affected != 1 {
        db.Execute(Release);
        JournalAppend2(old(db.journal), Insert(row), Release);
        return Err(InsertFailed);
      }
      if fault == AtRollback {
        db.Execute(Release);
        JournalAppend2(old(db.journal), Insert(row), Release);
        return Err(SqlFailure);
      }
      db.Execute(Rollback);
      db.Execute(Release);
      JournalAppend3(old(db.journal), Insert(row), Rollback, Release);
      r := Ok(airport);
    }
  }

  // ---------------------------------------------------------------------------
  // Warning chains

  datatype WarningInfo = WarningInfo(message: string, sqlState: string, vendorCode: int)

  /** A `java.sql.SQLWarning`: one warning and the next one of its chain. */
  class SqlWarning {
    const message: string
    const sqlState: string
    const vendorCode: int
    const next: SqlWarning?
    ghost const length: nat

    /** The chain is finite: its length counts down to the last warning. */
    ghost predicate Valid()
      decreases length
    {
      && length >= 1
      && (next == null ==> length == 1)
      && (next != null ==> next.length == length - 1 && next.Valid())
    }

    function Info(): WarningInfo
    {
      WarningInfo(message, sqlState, vendorCode)
    }

    /** The warnings from this one to the end of the chain. */
    ghost function Chain(): (c: seq<WarningInfo>)
      requires Valid()
      ensures |c| == length
      decreases length
    {
      [Info()] + if next == null then [] else next.Chain()
    }

    constructor (message: string, sqlState: string, vendorCode: int, next: SqlWarning?)
      requires next != null ==> next.Valid()
      ensures Valid()
      ensures Chain() == [WarningInfo(message, sqlState, vendorCode)] + ChainOf(next)
    {
      this.message := message;
      this.sqlState := sqlState;
      this.vendorCode := vendorCode;
      this.next := next;
      this.length := if next == null then 1 else next.length + 1;
    }
  }

  ghost function ChainOf(w: SqlWarning?): seq<WarningInfo>
    requires w != null ==> w.Valid()
  {
    if w == null then [] else w.Chain()
  }

  ghost predicate AllValid(ws: seq<SqlWarning?>)
  {
    forall i :: 0 <= i < |ws| && ws[i] != null ==> ws[i].Valid()
  }

  /** Every warning of the first `n` chains, chain by chain. */
  ghost function Flatten(ws: seq<SqlWarning?>, n: nat): seq<WarningInfo>
    requires AllValid(ws) && n <= |ws|
  {
    if n == 0 then [] else Flatten(ws, n - 1) + ChainOf(ws[n - 1])
  }

  /** The warnings handed to `logWarnings`; a null array holds none. */
  ghost function AllWarnings(warnings: Option<seq<SqlWarning?>>): seq<WarningInfo>
    requires warnings.Some? ==> AllValid(warnings.value)
  {
    if warnings.None? then [] else Flatten(warnings.value, |warnings.value|)
  }

  /** The text `logWarnings` passes to the logger, a format string whose placeholders are never filled in. */
  const Template: string := "Message: %s, SQLState: %s, Vendor error code: %d"

  /** The line the template evidently stands for: the warning's message, SQL state and vendor code. */
  function Describe(w: WarningInfo): string
  {
    "Message: " + w.message + ", SQLState: " + w.sqlState + ", Vendor error code: " + Decimal.IntToString(w.vendorCode)
  }

  /** No filled-in line equals the template: the logged text carries nothing of the warning. */
  lemma TemplateDescribesNoWarning(w: WarningInfo)
    ensures Describe(w) != Template
  {
    var d := Decimal.IntToString(w.vendorCode);
    Decimal.IntToStringEndsInDigit(w.vendorCode);
    assert Describe(w)[|Describe(w)| - 1] == d[|d| - 1];
    assert Template[|Template| - 1] == 'd';
  }

  /**
   * The inner loop of `logWarnings` as written: follow one chain through
   * `getNextWarning()` until null, logging one line per warning.
   */
  method LogChain(head: SqlWarning?) returns (lines: seq<string>)
    requires head != null ==> head.Valid()
    ensures |lines| == |ChainOf(head)|
    ensures forall k :: 0 <= k < |lines| ==> lines[k] == Template
  {
    lines := [];
    var warning := head;
    while warning != null
      invariant warning != null ==> warning.Valid()
      invariant |lines| + |ChainOf(warning)| == |ChainOf(head)|
      invariant forall k :: 0 <= k < |lines| ==> lines[k] == Template
      decreases if warning == null then 0 else warning.length
    {
      lines := lines + [Template];
      warning := warning.next;
    }
  }

  /**
   * `logWarnings` as written: one log line per warning of every chain, a null
   * array and null chain heads skipped, and every line the bare template.
   */
  method LogWarnings(warnings: Option<seq<SqlWarning?>>) returns (lines: seq<string>)
    requires warnings.Some? ==> AllValid(warnings.value)
    ensures |lines| == |AllWarnings(warnings)|
    ensures forall k :: 0 <= k < |lines| ==> lines[k] == Template
  {
    lines := [];
    if warnings.Some? {
      var ws := warnings.value;
      for i := 0 to |ws|
        invariant |lines| == |Flatten(ws, i)|
        invariant forall k :: 0 <= k < |lines| ==> lines[k] == Template
      {
        var chainLines := LogChain(ws[i]);
        lines := lines + chainLines;
      }
    }
  }

  /** The filled-in lines for a run of warnings: one per warning, in order. */
  function Describes(ws: seq<WarningInfo>): (lines: seq<string>)
    ensures |lines| == |ws|
  {
    if ws == [] then [] else [Describe(ws[0])] + Describes(ws[1..])
  }

  /** The `k`-th line describes the `k`-th warning. */
  lemma {:induction false} DescribesEach(ws: seq<WarningInfo>, k: int)
    requires 0 <= k < |ws|
    ensures Describes(ws)[k] == Describe(ws[k])
    decreases k
  {
    if k > 0 {
      DescribesEach(ws[1..], k - 1);
      assert ws[1..][k - 1] == ws[k];
    }
  }

  /** The lines for two runs of warnings are the lines of the first, then those of the second. */
  lemma {:induction false} DescribesAppend(a: seq<WarningInfo>, b: seq<WarningInfo>)
    ensures Describes(a + b) == Describes(a) + Describes(b)
    decreases |a|
  {
    if a == [] {
      assert a + b == b;
    } else {
      assert (a + b)[0] == a[0];
      assert (a + b)[1..] == a[1..] + b;
      DescribesAppend(a[1..], b);
    }
  }

  /** Describing one more warning moves it from the rest of the chain to the lines logged so far. */
  lemma DescribesStep(lines: seq<string>, info: WarningInfo, rest: seq<WarningInfo>, total: seq<string>)
    requires lines + Describes([info] + rest) == total
    ensures (lines + [Describe(info)]) + Describes(rest) == total
  {
    DescribesAppend([info], rest);
    assert Describes([info]) == [Describe(info)];
  }

  /** The inner loop with the template filled in: the lines describing the warnings of the chain, in order. */
  method LogChainFormatted(head: SqlWarning?) returns (lines: seq<string>)
    requires head != null ==> head.Valid()
    ensures lines == Describes(ChainOf(head))
  {
    lines := [];
    var warning := head;
    while warning != null
      invariant warning != null ==> warning.Valid()
      invariant lines + Describes(ChainOf(warning)) == Describes(ChainOf(head))
      decreases if warning == null then 0 else warning.length
    {
      ChainStep(warning);
      DescribesStep(lines, warning.Info(), ChainOf(warning.next), Describes(ChainOf(head)));
      lines := lines + [Describe(warning.Info())];
      warning := warning.next;
    }
    assert lines + [] == lines;
  }

  /** One step along a chain: a warning, then the rest of the chain after it. */
  lemma ChainStep(w: SqlWarning)
    requires w.Valid()
    ensures w.next != null ==> w.next.Valid()
    ensures ChainOf(w) == [w.Info()] + ChainOf(w.next)
  {
  }

  /** `logWarnings` with its template filled in: the lines describing every warning of every chain, in order. */
  method LogWarningsFormatted(warnings: Option<seq<SqlWarning?>>) returns (lines: seq<string>)
    requires warnings.Some? ==> AllValid(warnings.value)
    ensures lines == Describes(AllWarnings(warnings))
  {
    lines := [];
    if warnings.Some? {
      var ws := warnings.value;
      for i := 0 to |ws|
        invariant lines == Describes(Flatten(ws, i))
      {
        var chainLines := LogChainFormatted(ws[i]);
        DescribesAppend(Flatten(ws, i), ChainOf(ws[i]));
        lines := lines + chainLines;
      }
    }
  }
}
