/**
 * The database connection of limdberator/database.py as an object whose
 * tables are updated in place.  Each method performs the statements of
 * the Python function of the same name, in the same order, and is proved
 * to leave the tables in the state `DatabaseModel` and `Ingest` describe.
 */
module Database {
  import opened Wrappers
  import opened Types
  import opened DatabaseModel
  import opened Ingest

  /** The change id of the row the SELECT finds, if any. */
  function MatchedChange(rows: seq<FactRow>, args: seq<Value>): Option<int>
  {
    match FirstMatch(rows, args)
    case Some(i) => Some(rows[i].changeId)
    case None => None
  }

  lemma InsertAllSnoc(s: Store, scrapeId: int, cs: seq<Candidate>, c: Candidate)
    ensures InsertAll(s, scrapeId, cs + [c]) == Insert(InsertAll(s, scrapeId, cs), scrapeId, c.table, c.row)
  {
    assert (cs + [c])[..|cs|] == cs;
  }

  lemma InsertAllPrefixStep(s: Store, scrapeId: int, cs: seq<Candidate>, i: nat)
    requires i < |cs|
    ensures InsertAll(s, scrapeId, cs[..i + 1]) == Insert(InsertAll(s, scrapeId, cs[..i]), scrapeId, cs[i].table, cs[i].row)
  {
    assert cs[..i + 1] == cs[..i] + [cs[i]];
    InsertAllSnoc(s, scrapeId, cs[..i], cs[i]);
  }

  lemma CastStep(titleId: string, cast: seq<CastMember>, i: nat)
    requires i < |cast|
    ensures CastCandidates(titleId, cast[..i + 1])
         == CastCandidates(titleId, cast[..i]) + [NameCandidate(cast[i])] + [ActorCandidate(titleId, cast[i])]
  {
    assert cast[..i + 1][..i] == cast[..i];
  }


  /** An entry without `tags` makes the whole `store_scraped_person` call raise. */
  lemma StorePersonFailsAt(s: Store, doc: ScrapedPerson, i: nat)
    requires Inv(s)
    requires i < |doc.filmography.GetOr([])| && doc.filmography.GetOr([])[i].credit.titleInfo.tags.None?
    ensures StorePerson(s, doc).None?
  {
    assert SomeEntryLacksTags(doc.filmography.GetOr([]));
    StorePersonEffect(s, doc);
  }

  /** A committed `store_scraped_person` is the person's info rows followed by the filmography's candidates. */
  lemma StorePersonSucceeds(s: Store, doc: ScrapedPerson)
    requires Inv(s)
    requires FilmographyCandidates(doc.id, doc.filmography.GetOr([])).Some?
    ensures StorePerson(s, doc).Some? && Inv(StorePerson(s, doc).value)
    ensures StorePerson(s, doc).value
         == InsertAll(InsertAll(AddScrape(s, doc.timestamp), |s.scrapes| + 1, Wrap(PeopleInfo, PersonInfoRows(doc))),
                      |s.scrapes| + 1, FilmographyCandidates(doc.id, doc.filmography.GetOr([])).value)
  {
    StorePersonEffect(s, doc);
    InsertAllAppend(AddScrape(s, doc.timestamp), |s.scrapes| + 1, Wrap(PeopleInfo, PersonInfoRows(doc)),
                    FilmographyCandidates(doc.id, doc.filmography.GetOr([])).value);
  }

  /** One more entry whose title info has tags extends the candidates by that entry's candidates. */
  lemma FilmographyStep(personId: string, entries: seq<FilmographyEntry>, i: nat)
    requires i < |entries| && FilmographyCandidates(personId, entries[..i]).Some?
    requires entries[i].credit.titleInfo.tags.Some?
    ensures EntryCandidates(personId, entries[i]).Some?
    ensures FilmographyCandidates(personId, entries[..i + 1]) == Some(
      FilmographyCandidates(personId, entries[..i]).value + EntryCandidates(personId, entries[i]).value)
  {
    var xs := entries[..i + 1];
    assert xs[..|xs| - 1] == entries[..i] && xs[|xs| - 1] == entries[i];
  }

  /** One turn of the cast loop: the name row, then the actor credit, of the `i`-th member. */
  lemma CastInsertStep(s: Store, scrapeId: int, titleId: string, cast: seq<CastMember>, i: nat)
    requires i < |cast|
    ensures Fits(PeopleInfo, PeopleInfoRow(cast[i].personId, "name", Str(cast[i].name)))
    ensures Fits(Credits, CreditRow(titleId, Str("actor"), cast[i].personId))
    ensures InsertAll(s, scrapeId, CastCandidates(titleId, cast[..i + 1]))
         == Insert(Insert(InsertAll(s, scrapeId, CastCandidates(titleId, cast[..i])),
                          scrapeId, PeopleInfo, PeopleInfoRow(cast[i].personId, "name", Str(cast[i].name))),
                   scrapeId, Credits, CreditRow(titleId, Str("actor"), cast[i].personId))
  {
    var m := cast[i];
    var done := CastCandidates(titleId, cast[..i]);
    CastStep(titleId, cast, i);
    InsertAllSnoc(s, scrapeId, done, NameCandidate(m));
    InsertAllSnoc(s, scrapeId, done + [NameCandidate(m)], ActorCandidate(titleId, m));
    PeopleInfoRowFits(m.personId, "name", Str(m.name));
    CreditRowFits(titleId, Str("actor"), m.personId);
  }

  /** The loop of `gen_title_info_data` over the scalar keys, in their fixed order. */
  method GenKeyRows(titleId: string, fs: seq<Option<Value>>) returns (rows: seq<Row>)
    requires |fs| == KeyCount
    ensures rows == KeyLoopRows(titleId, fs, 0)
  {
    rows := [];
    var k := 0;
    while k < KeyCount
      invariant 0 <= k <= KeyCount
      invariant rows + KeyLoopRows(titleId, fs, k) == KeyLoopRows(titleId, fs, 0)
    {
      KeyLoopStep(titleId, fs, k, rows);
      if fs[k].Some? {
        rows := rows + [TitleInfoRow(titleId, TitleInfoKeys[k], fs[k].value)];
      }
      k := k + 1;
    }
    assert KeyLoopRows(titleId, fs, KeyCount) == [];
  }

  /** One turn of the key loop keeps `rows + KeyLoopRows(.., k)` equal to all the key rows. */
  lemma KeyLoopStep(titleId: string, fs: seq<Option<Value>>, k: nat, rows: seq<Row>)
    requires |fs| == KeyCount && k < KeyCount
    requires rows + KeyLoopRows(titleId, fs, k) == KeyLoopRows(titleId, fs, 0)
    ensures fs[k].Some? ==>
      rows + [TitleInfoRow(titleId, TitleInfoKeys[k], fs[k].value)] + KeyLoopRows(titleId, fs, k + 1)
        == KeyLoopRows(titleId, fs, 0)
    ensures fs[k].None? ==> rows + KeyLoopRows(titleId, fs, k + 1) == KeyLoopRows(titleId, fs, 0)
  {
    if fs[k].Some? {
      assert KeyLoopRows(titleId, fs, k)
        == [TitleInfoRow(titleId, TitleInfoKeys[k], fs[k].value)] + KeyLoopRows(titleId, fs, k + 1);
    } else {
      assert KeyLoopRows(titleId, fs, k) == KeyLoopRows(titleId, fs, k + 1);
    }
  }

  /** `gen_title_info_data` as the loops that generate its rows. */
  method GenTitleInfoData(doc: ScrapedTitle) returns (rows: seq<Row>)
    ensures rows == TitleInfoRows(doc)
  {
    var keyRows := GenKeyRows(doc.id, TitleFields(doc));
    rows := keyRows;
    var langs := doc.languages.GetOr([]);
    var i := 0;
    while i < |langs|
      invariant 0 <= i <= |langs|
      invariant rows == keyRows + LanguageRows(doc.id, langs[..i])
    {
      assert LanguageRows(doc.id, langs[..i + 1]) == LanguageRows(doc.id, langs[..i]) + [TitleInfoRow(doc.id, "language", Str(langs[i]))];
      rows := rows + [TitleInfoRow(doc.id, "language", Str(langs[i]))];
      i := i + 1;
    }
    assert langs[..i] == langs;
  }

  class Database {
    var scrapes: seq<int>
    var changeCount: nat
    var links: seq<Link>
    var facts: Tables

    function State(): Store
      reads this
    {
      Store(scrapes, changeCount, links, facts)
    }

    predicate Valid()
      reads this
    {
      Inv(State())
    }

    /** A database file after `init_database`: every table empty. */
    constructor ()
      ensures State() == EmptyStore
      ensures Valid()
    {
      scrapes := [];
      changeCount := 0;
      links := [];
      facts := Tables([], [], [], [], []);
    }

    /** `insert_new_scrape`: the returned id is the new scrape's position plus one. */
    method InsertNewScrape(timestamp: int) returns (scrapeId: int)
      modifies this
      ensures State() == AddScrape(old(State()), timestamp)
      ensures scrapeId == |scrapes| && scrapes[scrapeId - 1] == timestamp
    {
      scrapes := scrapes + [timestamp];
      scrapeId := |scrapes|;
    }

    /** `insert_new_change`: a new identity in `_changes`, linked to the scrape. */
    method InsertNewChange(scrapeId: int) returns (changeId: int)
      modifies this
      ensures State() == NewChange(old(State()), scrapeId)
      ensures changeId == changeCount == old(changeCount) + 1
    {
      changeCount := changeCount + 1;
      changeId := changeCount;
      links := links + [Link(changeId, scrapeId)];
    }

    /** `SELECT change_id FROM t WHERE c1=? AND ... LIMIT 1`, scanning in insertion order. */
    method SelectChangeId(t: Table, args: seq<Value>) returns (found: Option<int>)
      ensures found == MatchedChange(facts.Get(t), args)
      ensures found.None? <==> forall k :: 0 <= k < |facts.Get(t)| ==> !RowMatches(facts.Get(t)[k], args)
    {
      var rows := facts.Get(t);
      var i := 0;
      while i < |rows|
        invariant 0 <= i <= |rows|
        invariant forall k :: 0 <= k < i ==> !RowMatches(rows[k], args)
      {
        if RowMatches(rows[i], args) {
          return Some(rows[i].changeId);
        }
        i := i + 1;
      }
      return None;
    }

    /**
     * `insert_with_change`: link the scrape to the change of an equal row,
     * or allocate a change and insert the row with it.  The row names the
     * table's columns and leaves no NOT NULL column NULL: the INSERT would
     * raise otherwise, and every caller builds its rows so.
     */
    method InsertWithChange(scrapeId: int, t: Table, row: Row)
      requires Fits(t, row)
      modifies this
      ensures State() == Insert(old(State()), scrapeId, t, row)
    {
      var cols: seq<string> := [];
      var args: seq<Value> := [];
      var i := 0;
      while i < |row|
        invariant 0 <= i <= |row|
        invariant cols == ColumnNames(row)[..i] && args == Values(row)[..i]
      {
        cols := cols + [row[i].column];
        args := args + [row[i].value];
        i := i + 1;
      }
      assert args == Values(row);
      assert cols == ColumnNames(row) && |Columns(t)| > 0;
      assert cols != [];
      var found := SelectChangeId(t, args);
      match found
      case Some(changeId) =>
        links := links + [Link(changeId, scrapeId)];
      case None =>
        var changeId := InsertNewChange(scrapeId);
        facts := facts.Put(t, facts.Get(t) + [FactRow(changeId, args)]);
    }

    /** One `insert_with_change` per candidate, in order. */
    method InsertEach(scrapeId: int, cs: seq<Candidate>)
      requires AllFit(cs)
      modifies this
      ensures State() == InsertAll(old(State()), scrapeId, cs)
    {
      var i := 0;
      while i < |cs|
        invariant 0 <= i <= |cs|
        invariant State() == InsertAll(old(State()), scrapeId, cs[..i])
      {
        InsertAllPrefixStep(old(State()), scrapeId, cs, i);
        InsertWithChange(scrapeId, cs[i].table, cs[i].row);
        i := i + 1;
      }
      assert cs[..i] == cs;
    }

    /** `store_scraped_title`, one transaction. */
    method StoreScrapedTitle(doc: ScrapedTitle)
      requires Valid()
      modifies this
      ensures State() == StoreTitle(old(State()), doc)
      ensures Valid()
    {
      var scrapeId := InsertNewScrape(doc.timestamp);
      var start := State();
      var rows := GenTitleInfoData(doc);
      TitleInfoRowsFit(doc);
      InsertEach(scrapeId, Wrap(TitleInfo, rows));
      var cast := doc.cast.GetOr([]);
      InsertCast(scrapeId, doc.id, cast);
      InsertAllAppend(start, scrapeId, Wrap(TitleInfo, rows), CastCandidates(doc.id, cast));
      StoreTitleEffect(old(State()), doc);
    }

    /** The cast loop of `store_scraped_title`: per member, its name row and then its actor credit. */
    method InsertCast(scrapeId: int, titleId: string, cast: seq<CastMember>)
      modifies this
      ensures State() == InsertAll(old(State()), scrapeId, CastCandidates(titleId, cast))
    {
      var i := 0;
      while i < |cast|
        invariant 0 <= i <= |cast|
        invariant State() == InsertAll(old(State()), scrapeId, CastCandidates(titleId, cast[..i]))
      {
        var m := cast[i];
        CastInsertStep(old(State()), scrapeId, titleId, cast, i);
        InsertWithChange(scrapeId, PeopleInfo, PeopleInfoRow(m.personId, "name", Str(m.name)));
        InsertWithChange(scrapeId, Credits, CreditRow(titleId, Str("actor"), m.personId));
        i := i + 1;
      }
      assert cast[..i] == cast;
    }

    /**
     * The body of `store_scraped_person`'s loop for one filmography entry:
     * its credits, credit tags, title info rows and title tags, in that order.
     * Without `tags` the entry stops, with `ok` false, after the title info rows.
     */
    method StoreEntry(scrapeId: int, personId: string, e: FilmographyEntry) returns (ok: bool)
      modifies this
      ensures ok <==> EntryCandidates(personId, e).Some?
      ensures ok ==> State() == InsertAll(old(State()), scrapeId, EntryCandidates(personId, e).value)
      ensures !ok ==> State() == InsertAll(old(State()), scrapeId,
        CreditCandidates(personId, e) + CreditTagCandidates(personId, e) + Wrap(TitleInfo, TitleInfoRows(EmbeddedTitle(e))))
    {
      var credits := CreditCandidates(personId, e);
      var creditTags := CreditTagCandidates(personId, e);
      CreditCandidatesFit(personId, e);
      CreditTagCandidatesFit(personId, e);
      InsertEach(scrapeId, credits);
      InsertEach(scrapeId, creditTags);
      var rows := GenTitleInfoData(EmbeddedTitle(e));
      var titleInfo := Wrap(TitleInfo, rows);
      TitleInfoRowsFit(EmbeddedTitle(e));
      InsertEach(scrapeId, titleInfo);
      InsertAllAppend(old(State()), scrapeId, credits, creditTags);
      InsertAllAppend(old(State()), scrapeId, credits + creditTags, titleInfo);
      if e.credit.titleInfo.tags.None? {
        return false;
      }
      var titleTags := TitleTagCandidates(e.titleId, e.credit.titleInfo.tags.value);
      TitleTagCandidatesFit(e.titleId, e.credit.titleInfo.tags.value);
      InsertEach(scrapeId, titleTags);
      InsertAllAppend(old(State()), scrapeId, credits + creditTags + titleInfo, titleTags);
      return true;
    }

    /**
     * `store_scraped_person`, one transaction.  When an entry's title info
     * has no `tags`, the KeyError aborts the transaction: the rows already
     * inserted are rolled back and `ok` is false.
     */
    method StoreScrapedPerson(doc: ScrapedPerson) returns (ok: bool)
      requires Valid()
      modifies this
      ensures ok <==> StorePerson(old(State()), doc).Some?
      ensures ok ==> State() == StorePerson(old(State()), doc).value
      ensures !ok ==> State() == old(State())
      ensures Valid()
    {
      var saved := State();
      var entries := doc.filmography.GetOr([]);
      var scrapeId := InsertNewScrape(doc.timestamp);
      var info := Wrap(PeopleInfo, PersonInfoRows(doc));
      PersonInfoRowsFit(doc);
      InsertEach(scrapeId, info);
      var afterInfo := State();
      var i := 0;
      assert entries[..0] == [];
      while i < |entries|
        invariant 0 <= i <= |entries|
        invariant FilmographyCandidates(doc.id, entries[..i]).Some?
        invariant State() == InsertAll(afterInfo, scrapeId, FilmographyCandidates(doc.id, entries[..i]).value)
      {
        var e := entries[i];
        var done := FilmographyCandidates(doc.id, entries[..i]).value;
        var entryOk := StoreEntry(scrapeId, doc.id, e);
        if !entryOk {
          // `credit["title_info"]["tags"]` raised KeyError: the transaction is rolled back
          scrapes, changeCount, links, facts := saved.scrapes, saved.changeCount, saved.links, saved.facts;
          StorePersonFailsAt(saved, doc, i);
          return false;
        }
        FilmographyStep(doc.id, entries, i);
        InsertAllAppend(afterInfo, scrapeId, done, EntryCandidates(doc.id, e).value);
        i := i + 1;
      }
      assert entries[..i] == entries;
      StorePersonSucceeds(saved, doc);
      return true;
    }
  }
}
