/**
 * How `store_scraped_title` and `store_scraped_person` (limdberator/database.py)
 * turn a scrape document into the ordered candidate rows they feed to
 * `insert_with_change`, and the state each call leaves behind.
 */
module Ingest {
  import opened Wrappers
  import opened Types
  import opened DatabaseModel

  // ---------------------------------------------------------------------
  // The row shapes of each fact table
  // ---------------------------------------------------------------------

  function TitleInfoRow(titleId: string, key: string, value: Value): Row
  {
    [Cell("title_id", Str(titleId)), Cell("key", Str(key)), Cell("value", value)]
  }

  function TitleTagRow(titleId: string, tag: string): Row
  {
    [Cell("title_id", Str(titleId)), Cell("tag", Str(tag))]
  }

  function PeopleInfoRow(personId: string, key: string, value: Value): Row
  {
    [Cell("person_id", Str(personId)), Cell("key", Str(key)), Cell("value", value)]
  }

  function CreditRow(titleId: string, creditType: Value, personId: string): Row
  {
    [Cell("title_id", Str(titleId)), Cell("credit_type", creditType), Cell("person_id", Str(personId))]
  }

  function CreditTagRow(titleId: string, personId: string, tag: string): Row
  {
    [Cell("title_id", Str(titleId)), Cell("person_id", Str(personId)), Cell("tag", Str(tag))]
  }

  /** The same rows, all destined for table `t`. */
  function Wrap(t: Table, rows: seq<Row>): (cs: seq<Candidate>)
    ensures |cs| == |rows|
  {
    seq(|rows|, i requires 0 <= i < |rows| => Candidate(t, rows[i]))
  }

  // ---------------------------------------------------------------------
  // gen_title_info_data (database.py:180-200)
  // ---------------------------------------------------------------------

  /** The scalar keys copied into title_info, in the order they are tried. */
  const TitleInfoKeys: seq<string> := ["title", "original_title", "rating", "rating_count", "year", "duration"]

  const KeyCount: nat := 6

  function StrField(o: Option<string>): Option<Value>
  {
    match o
    case Some(v) => Some(Str(v))
    case None => None
  }

  function IntField(o: Option<int>): Option<Value>
  {
    match o
    case Some(v) => Some(Int(v))
    case None => None
  }

  /** `scrape[key]` for each key of `TitleInfoKeys`, in order; `None` where the key is absent. */
  function TitleFields(doc: ScrapedTitle): (fs: seq<Option<Value>>)
    ensures |fs| == KeyCount
  {
    [StrField(doc.title), StrField(doc.originalTitle), StrField(doc.rating),
     IntField(doc.ratingCount), StrField(doc.year), IntField(doc.duration)]
  }

  /** The key loop from the `k`-th key on: a row for each present key, with its value. */
  function KeyLoopRows(titleId: string, fs: seq<Option<Value>>, k: nat): seq<Row>
    requires |fs| == KeyCount && k <= KeyCount
    decreases KeyCount - k
  {
    if k == KeyCount then []
    else
      (match fs[k]
       case Some(v) => [TitleInfoRow(titleId, TitleInfoKeys[k], v)]
       case None => [])
      + KeyLoopRows(titleId, fs, k + 1)
  }

  function LanguageRows(titleId: string, languages: seq<string>): (rows: seq<Row>)
    ensures |rows| == |languages|
  {
    seq(|languages|, i requires 0 <= i < |languages| => TitleInfoRow(titleId, "language", Str(languages[i])))
  }

  /** `gen_title_info_data(scrape)`; `scrape.get("languages") or []` treats an absent list as empty. */
  function TitleInfoRows(doc: ScrapedTitle): seq<Row>
  {
    KeyLoopRows(doc.id, TitleFields(doc), 0) + LanguageRows(doc.id, doc.languages.GetOr([]))
  }

  /** The positions, from the `k`-th on, of the keys present, in increasing order. */
  function PresentKeys(fs: seq<Option<Value>>, k: nat): seq<nat>
    requires k <= |fs|
    decreases |fs| - k
  {
    if k == |fs| then []
    else (if fs[k].Some? then [k] else []) + PresentKeys(fs, k + 1)
  }

  lemma {:induction false} PresentKeysElem(fs: seq<Option<Value>>, k: nat, i: nat)
    requires k <= |fs| && i < |PresentKeys(fs, k)|
    ensures k <= PresentKeys(fs, k)[i] < |fs| && fs[PresentKeys(fs, k)[i]].Some?
    decreases |fs| - k
  {
    var rest := PresentKeys(fs, k + 1);
    if fs[k].Some? {
      assert PresentKeys(fs, k) == [k] + rest;
      if i > 0 {
        PresentKeysElem(fs, k + 1, i - 1);
      }
    } else {
      assert PresentKeys(fs, k) == rest;
      PresentKeysElem(fs, k + 1, i);
    }
  }

  lemma {:induction false} PresentKeysOrder(fs: seq<Option<Value>>, k: nat, i: nat, j: nat)
    requires k <= |fs| && i < j < |PresentKeys(fs, k)|
    ensures PresentKeys(fs, k)[i] < PresentKeys(fs, k)[j]
    decreases |fs| - k
  {
    var rest := PresentKeys(fs, k + 1);
    if fs[k].Some? {
      assert PresentKeys(fs, k) == [k] + rest;
      PresentKeysElem(fs, k + 1, j - 1);
      if i > 0 {
        PresentKeysOrder(fs, k + 1, i - 1, j - 1);
      }
    } else {
      assert PresentKeys(fs, k) == rest;
      PresentKeysOrder(fs, k + 1, i, j);
    }
  }

  lemma {:induction false} PresentKeysComplete(fs: seq<Option<Value>>, k: nat, m: nat)
    requires k <= m < |fs| && fs[m].Some?
    ensures m in PresentKeys(fs, k)
    decreases |fs| - k
  {
    var rest := PresentKeys(fs, k + 1);
    if fs[k].Some? {
      assert PresentKeys(fs, k) == [k] + rest;
      if m > k {
        PresentKeysComplete(fs, k + 1, m);
      }
    } else {
      assert PresentKeys(fs, k) == rest;
      PresentKeysComplete(fs, k + 1, m);
    }
  }

  /** The key loop emits one row per present key, in the order of `PresentKeys`. */
  lemma {:induction false} KeyLoopRowsLength(titleId: string, fs: seq<Option<Value>>, k: nat)
    requires |fs| == KeyCount && k <= KeyCount
    ensures |KeyLoopRows(titleId, fs, k)| == |PresentKeys(fs, k)|
    decreases KeyCount - k
  {
    if k < KeyCount {
      KeyLoopRowsLength(titleId, fs, k + 1);
    }
  }

  lemma {:induction false} KeyLoopRowsElem(titleId: string, fs: seq<Option<Value>>, k: nat, i: nat)
    requires |fs| == KeyCount && k <= KeyCount && i < |PresentKeys(fs, k)|
    ensures |KeyLoopRows(titleId, fs, k)| == |PresentKeys(fs, k)|
    ensures var key := PresentKeys(fs, k)[i];
      key < KeyCount && fs[key].Some?
      && KeyLoopRows(titleId, fs, k)[i] == TitleInfoRow(titleId, TitleInfoKeys[key], fs[key].value)
    decreases KeyCount - k
  {
    KeyLoopRowsLength(titleId, fs, k);
    PresentKeysElem(fs, k, i);
    assert k <= PresentKeys(fs, k)[i] < KeyCount;
    var rows := KeyLoopRows(titleId, fs, k);
    var restRows := KeyLoopRows(titleId, fs, k + 1);
    var rest := PresentKeys(fs, k + 1);
    match fs[k]
    case Some(v) =>
      assert rows == [TitleInfoRow(titleId, TitleInfoKeys[k], v)] + restRows;
      assert PresentKeys(fs, k) == [k] + rest;
      if i > 0 {
        KeyLoopRowsElem(titleId, fs, k + 1, i - 1);
        assert rows[i] == restRows[i - 1] && PresentKeys(fs, k)[i] == rest[i - 1];
      } else {
        assert rows[0] == TitleInfoRow(titleId, TitleInfoKeys[k], v) && PresentKeys(fs, k)[0] == k;
      }
    case None =>
      assert rows == restRows;
      assert PresentKeys(fs, k) == rest;
      KeyLoopRowsElem(titleId, fs, k + 1, i);
  }

  /**
   * `gen_title_info_data` yields one row per present scalar key, each once
   * and in the fixed key order, with the document's value; then one
   * `language` row per language, in list order (database.py:185-200).
   */
  lemma TitleInfoRowsSpec(doc: ScrapedTitle)
    ensures |TitleInfoRows(doc)| == |PresentKeys(TitleFields(doc), 0)| + |doc.languages.GetOr([])|
    ensures var rows := TitleInfoRows(doc);
      var fs := TitleFields(doc);
      var ks := PresentKeys(fs, 0);
      var langs := doc.languages.GetOr([]);
      && (forall i, j :: 0 <= i < j < |ks| ==> ks[i] < ks[j])
      && (forall m :: 0 <= m < KeyCount ==> (fs[m].Some? <==> m in ks))
      && (forall i :: 0 <= i < |ks| ==>
            ks[i] < KeyCount && fs[ks[i]].Some?
            && rows[i] == TitleInfoRow(doc.id, TitleInfoKeys[ks[i]], fs[ks[i]].value))
      && (forall i :: 0 <= i < |langs| ==>
            rows[|ks| + i] == TitleInfoRow(doc.id, "language", Str(langs[i])))
  {
    KeyRowsSpec(doc.id, TitleFields(doc));
  }

  /** The key loop alone: the present keys, in increasing order, each with its row. */
  lemma KeyRowsSpec(titleId: string, fs: seq<Option<Value>>)
    requires |fs| == KeyCount
    ensures |KeyLoopRows(titleId, fs, 0)| == |PresentKeys(fs, 0)|
    ensures var ks := PresentKeys(fs, 0);
      && (forall i, j :: 0 <= i < j < |ks| ==> ks[i] < ks[j])
      && (forall m :: 0 <= m < KeyCount ==> (fs[m].Some? <==> m in ks))
      && (forall i :: 0 <= i < |ks| ==>
            ks[i] < KeyCount && fs[ks[i]].Some?
            && KeyLoopRows(titleId, fs, 0)[i] == TitleInfoRow(titleId, TitleInfoKeys[ks[i]], fs[ks[i]].value))
  {
    var ks := PresentKeys(fs, 0);
    KeyLoopRowsLength(titleId, fs, 0);
    forall i, j | 0 <= i < j < |ks| ensures ks[i] < ks[j] {
      PresentKeysOrder(fs, 0, i, j);
    }
    forall m | 0 <= m < KeyCount ensures fs[m].Some? <==> m in ks {
      if fs[m].Some? {
        PresentKeysComplete(fs, 0, m);
      } else if m in ks {
        var i :| 0 <= i < |ks| && ks[i] == m;
        PresentKeysElem(fs, 0, i);
      }
    }
    forall i | 0 <= i < |ks|
      ensures ks[i] < KeyCount && fs[ks[i]].Some?
      ensures KeyLoopRows(titleId, fs, 0)[i] == TitleInfoRow(titleId, TitleInfoKeys[ks[i]], fs[ks[i]].value)
    {
      KeyLoopRowsElem(titleId, fs, 0, i);
    }
  }

  // ---------------------------------------------------------------------
  // store_scraped_title (database.py:203-230)
  // ---------------------------------------------------------------------

  /** The `people_info` name row of a cast member. */
  function NameCandidate(m: CastMember): Candidate
  {
    Candidate(PeopleInfo, PeopleInfoRow(m.personId, "name", Str(m.name)))
  }

  /** The `credits` row crediting a cast member as actor of the title. */
  function ActorCandidate(titleId: string, m: CastMember): Candidate
  {
    Candidate(Credits, CreditRow(titleId, Str("actor"), m.personId))
  }

  /** Two candidates per cast member, in cast order. */
  function CastCandidates(titleId: string, cast: seq<CastMember>): seq<Candidate>
    decreases |cast|
  {
    if cast == [] then []
    else
      var n := |cast| - 1;
      CastCandidates(titleId, cast[..n]) + [NameCandidate(cast[n]), ActorCandidate(titleId, cast[n])]
  }

  /**
   * Each cast member contributes a name row and then an actor credit, and
   * nothing else is emitted for the cast (database.py:210-230).
   */
  lemma {:induction false} CastCandidatesSpec(titleId: string, cast: seq<CastMember>)
    ensures |CastCandidates(titleId, cast)| == 2 * |cast|
    ensures forall i :: 0 <= i < |cast| ==>
      && CastCandidates(titleId, cast)[2 * i] == NameCandidate(cast[i])
      && CastCandidates(titleId, cast)[2 * i + 1] == ActorCandidate(titleId, cast[i])
    decreases |cast|
  {
    if cast != [] {
      var n := |cast| - 1;
      var pre := cast[..n];
      CastCandidatesSpec(titleId, pre);
      var cs := CastCandidates(titleId, cast);
      var ps := CastCandidates(titleId, pre);
      assert cs == ps + [NameCandidate(cast[n]), ActorCandidate(titleId, cast[n])];
      forall i | 0 <= i < |cast|
        ensures cs[2 * i] == NameCandidate(cast[i]) && cs[2 * i + 1] == ActorCandidate(titleId, cast[i])
      {
        if i < n {
          assert pre[i] == cast[i];
          assert cs[2 * i] == ps[2 * i] && cs[2 * i + 1] == ps[2 * i + 1];
        }
      }
    }
  }

  /** Everything `store_scraped_title` feeds to `insert_with_change`, in order. */
  function TitleCandidates(doc: ScrapedTitle): seq<Candidate>
  {
    Wrap(TitleInfo, TitleInfoRows(doc)) + CastCandidates(doc.id, doc.cast.GetOr([]))
  }

  /** The state after `store_scraped_title(doc)` commits. */
  function StoreTitle(s: Store, doc: ScrapedTitle): Store
  {
    InsertAll(AddScrape(s, doc.timestamp), |s.scrapes| + 1, TitleCandidates(doc))
  }

  // ---------------------------------------------------------------------
  // store_scraped_person (database.py:233-301)
  // ---------------------------------------------------------------------

  /** The `people_info` rows for `name` and `birthday`, when present. */
  function PersonInfoRows(doc: ScrapedPerson): seq<Row>
  {
    (match doc.name
     case Some(v) => [PeopleInfoRow(doc.id, "name", Str(v))]
     case None => [])
    + (match doc.birthday
       case Some(v) => [PeopleInfoRow(doc.id, "birthday", Str(v))]
       case None => [])
  }

  /** `credit_types or [None]`: an empty list of credit types stands for one unknown type. */
  function CreditTypeValues(types: seq<string>): (vs: seq<Value>)
    ensures |vs| == if types == [] then 1 else |types|
  {
    if types == [] then [Null]
    else seq(|types|, i requires 0 <= i < |types| => Str(types[i]))
  }

  function CreditCandidates(personId: string, e: FilmographyEntry): (cs: seq<Candidate>)
    ensures |cs| == |CreditTypeValues(e.credit.creditType)|
  {
    var vs := CreditTypeValues(e.credit.creditType);
    seq(|vs|, i requires 0 <= i < |vs| => Candidate(Credits, CreditRow(e.titleId, vs[i], personId)))
  }

  function CreditTagCandidates(personId: string, e: FilmographyEntry): (cs: seq<Candidate>)
    ensures |cs| == |e.credit.tags|
  {
    var tags := e.credit.tags;
    seq(|tags|, i requires 0 <= i < |tags| => Candidate(CreditTags, CreditTagRow(e.titleId, personId, tags[i])))
  }

  function TitleTagCandidates(titleId: string, tags: seq<string>): (cs: seq<Candidate>)
    ensures |cs| == |tags|
  {
    seq(|tags|, i requires 0 <= i < |tags| => Candidate(TitleTags, TitleTagRow(titleId, tags[i])))
  }

  /**
   * The title document built from a credit: the title id, the placeholder
   * timestamp -1 and the credit's title and year (database.py:281-287).
   */
  function EmbeddedTitle(e: FilmographyEntry): ScrapedTitle
  {
    ScrapedTitle(e.titleId, -1, e.credit.titleInfo.title, None, None, None, e.credit.titleInfo.year,
                 None, None, None, None, None)
  }

  /**
   * The candidates of one filmography entry: its credits, its credit tags,
   * the title's info rows and the title's tags; `None` when the title info
   * has no `tags`, where `credit["title_info"]["tags"]` raises KeyError.
   */
  function EntryCandidates(personId: string, e: FilmographyEntry): Option<seq<Candidate>>
  {
    match e.credit.titleInfo.tags
    case None => None
    case Some(tags) =>
      Some(CreditCandidates(personId, e) + CreditTagCandidates(personId, e)
           + Wrap(TitleInfo, TitleInfoRows(EmbeddedTitle(e))) + TitleTagCandidates(e.titleId, tags))
  }

  function FilmographyCandidates(personId: string, entries: seq<FilmographyEntry>): Option<seq<Candidate>>
    decreases |entries|
  {
    if entries == [] then Some([])
    else
      var n := |entries| - 1;
      match FilmographyCandidates(personId, entries[..n])
      case None => None
      case Some(cs) =>
        match EntryCandidates(personId, entries[n])
        case None => None
        case Some(es) => Some(cs + es)
  }

  /** Everything `store_scraped_person` feeds to `insert_with_change`, or `None` if it raises. */
  function PersonCandidates(doc: ScrapedPerson): Option<seq<Candidate>>
  {
    match FilmographyCandidates(doc.id, doc.filmography.GetOr([]))
    case None => None
    case Some(cs) => Some(Wrap(PeopleInfo, PersonInfoRows(doc)) + cs)
  }

  /**
   * The state after `store_scraped_person(doc)` commits, or `None` when it
   * raises and the transaction is rolled back, leaving the store as it was.
   */
  function StorePerson(s: Store, doc: ScrapedPerson): Option<Store>
  {
    match PersonCandidates(doc)
    case None => None
    case Some(cs) => Some(InsertAll(AddScrape(s, doc.timestamp), |s.scrapes| + 1, cs))
  }

  // ---------------------------------------------------------------------
  // Every emitted row fits its table
  // ---------------------------------------------------------------------

  lemma TitleInfoRowFits(titleId: string, key: string, value: Value)
    requires value != Null
    ensures Fits(TitleInfo, TitleInfoRow(titleId, key, value))
    ensures NullFree(Values(TitleInfoRow(titleId, key, value)))
  {
    assert ColumnNames(TitleInfoRow(titleId, key, value)) == Columns(TitleInfo);
  }

  lemma TitleTagRowFits(titleId: string, tag: string)
    ensures Fits(TitleTags, TitleTagRow(titleId, tag))
    ensures NullFree(Values(TitleTagRow(titleId, tag)))
  {
    assert ColumnNames(TitleTagRow(titleId, tag)) == Columns(TitleTags);
  }

  lemma PeopleInfoRowFits(personId: string, key: string, value: Value)
    requires value != Null
    ensures Fits(PeopleInfo, PeopleInfoRow(personId, key, value))
    ensures NullFree(Values(PeopleInfoRow(personId, key, value)))
  {
    assert ColumnNames(PeopleInfoRow(personId, key, value)) == Columns(PeopleInfo);
  }

  /** `credit_type` is the one nullable column a candidate can leave NULL. */
  lemma CreditRowFits(titleId: string, creditType: Value, personId: string)
    ensures Fits(Credits, CreditRow(titleId, creditType, personId))
    ensures NullFree(Values(CreditRow(titleId, creditType, personId))) <==> creditType != Null
  {
    assert ColumnNames(CreditRow(titleId, creditType, personId)) == Columns(Credits);
    assert Values(CreditRow(titleId, creditType, personId))[1] == creditType;
  }

  lemma CreditTagRowFits(titleId: string, personId: string, tag: string)
    ensures Fits(CreditTags, CreditTagRow(titleId, personId, tag))
    ensures NullFree(Values(CreditTagRow(titleId, personId, tag)))
  {
    assert ColumnNames(CreditTagRow(titleId, personId, tag)) == Columns(CreditTags);
  }

  lemma AllFitConcat(a: seq<Candidate>, b: seq<Candidate>)
    requires AllFit(a) && AllFit(b) && AllNullFree(a) && AllNullFree(b)
    ensures AllFit(a + b) && AllNullFree(a + b)
  {
    assert forall i :: 0 <= i < |a + b| ==> (a + b)[i] == if i < |a| then a[i] else b[i - |a|];
  }

  lemma AllFitConcatWithNulls(a: seq<Candidate>, b: seq<Candidate>)
    requires AllFit(a) && AllFit(b)
    ensures AllFit(a + b)
  {
    assert forall i :: 0 <= i < |a + b| ==> (a + b)[i] == if i < |a| then a[i] else b[i - |a|];
  }

  /** A present title_info field is never `None`: the NOT NULL `value` column is respected. */
  lemma TitleFieldsNotNull(doc: ScrapedTitle)
    ensures forall m :: 0 <= m < KeyCount && TitleFields(doc)[m].Some? ==> TitleFields(doc)[m].value != Null
  {
  }

  lemma TitleInfoRowsFit(doc: ScrapedTitle)
    ensures AllFit(Wrap(TitleInfo, TitleInfoRows(doc))) && AllNullFree(Wrap(TitleInfo, TitleInfoRows(doc)))
  {
    TitleInfoRowsSpec(doc);
    TitleFieldsNotNull(doc);
    var rows := TitleInfoRows(doc);
    var fs := TitleFields(doc);
    var ks := PresentKeys(fs, 0);
    var langs := doc.languages.GetOr([]);
    var cs := Wrap(TitleInfo, rows);
    forall i | 0 <= i < |cs| ensures Fits(cs[i].table, cs[i].row) && NullFree(Values(cs[i].row)) {
      if i < |ks| {
        TitleInfoRowFits(doc.id, TitleInfoKeys[ks[i]], fs[ks[i]].value);
      } else {
        assert rows[|ks| + (i - |ks|)] == TitleInfoRow(doc.id, "language", Str(langs[i - |ks|]));
        TitleInfoRowFits(doc.id, "language", Str(langs[i - |ks|]));
      }
    }
  }

  lemma {:induction false} CastCandidatesFit(titleId: string, cast: seq<CastMember>)
    ensures AllFit(CastCandidates(titleId, cast)) && AllNullFree(CastCandidates(titleId, cast))
    decreases |cast|
  {
    if cast != [] {
      var n := |cast| - 1;
      CastCandidatesFit(titleId, cast[..n]);
      var m := cast[n];
      PeopleInfoRowFits(m.personId, "name", Str(m.name));
      CreditRowFits(titleId, Str("actor"), m.personId);
      AllFitConcat(CastCandidates(titleId, cast[..n]), [NameCandidate(m), ActorCandidate(titleId, m)]);
    }
  }

  /** Every candidate of a title document fits its table and holds no NULL. */
  lemma TitleCandidatesFit(doc: ScrapedTitle)
    ensures AllFit(TitleCandidates(doc)) && AllNullFree(TitleCandidates(doc))
    ensures |TitleCandidates(doc)| == |TitleInfoRows(doc)| + 2 * |doc.cast.GetOr([])|
  {
    TitleInfoRowsFit(doc);
    CastCandidatesFit(doc.id, doc.cast.GetOr([]));
    CastCandidatesSpec(doc.id, doc.cast.GetOr([]));
    AllFitConcat(Wrap(TitleInfo, TitleInfoRows(doc)), CastCandidates(doc.id, doc.cast.GetOr([])));
  }

  // ---------------------------------------------------------------------
  // The effect of store_scraped_title
  // ---------------------------------------------------------------------

  /**
   * `store_scraped_title` adds exactly one scrape, carrying the document's
   * timestamp, then one link per candidate (title_info rows, then a name
   * and an actor credit per cast member), each from that scrape to a
   * change whose row holds the candidate; it keeps the invariant
   * (database.py:203-230).
   */
  lemma StoreTitleEffect(s: Store, doc: ScrapedTitle)
    requires Inv(s)
    ensures var s' := StoreTitle(s, doc);
      && Inv(s')
      && s'.scrapes == s.scrapes + [doc.timestamp]
      && |s'.links| == |s.links| + |TitleInfoRows(doc)| + 2 * |doc.cast.GetOr([])|
      && ObservedAll(AddScrape(s, doc.timestamp), s', |s.scrapes| + 1, TitleCandidates(doc))
  {
    var s0 := AddScrape(s, doc.timestamp);
    AddScrapeKeepsInv(s, doc.timestamp);
    TitleCandidatesFit(doc);
    InsertAllPreservesInv(s0, |s.scrapes| + 1, TitleCandidates(doc));
    InsertAllObserves(s0, |s.scrapes| + 1, TitleCandidates(doc));
  }

  /**
   * Storing the same title document again adds a scrape and links, but no
   * fact and no change: the new scrape is linked, in order, to the very
   * changes the first store linked.
   */
  lemma StoreTitleTwice(s: Store, doc: ScrapedTitle)
    requires Inv(s)
    ensures |StoreTitle(s, doc).links| == |s.links| + |TitleCandidates(doc)|
    ensures var s1 := StoreTitle(s, doc); var s2 := StoreTitle(s1, doc);
      && s2.facts == s1.facts && s2.changeCount == s1.changeCount
      && s2.scrapes == s1.scrapes + [doc.timestamp]
      && |s2.links| == |s1.links| + |TitleCandidates(doc)|
      && var new1 := s1.links[|s.links|..]; var new2 := s2.links[|s1.links|..];
         forall i :: 0 <= i < |TitleCandidates(doc)| ==> new2[i] == Link(new1[i].changeId, |s1.scrapes| + 1)
  {
    TitleCandidatesFit(doc);
    ScrapeTwice(s, doc.timestamp, doc.timestamp, TitleCandidates(doc));
  }

  // ---------------------------------------------------------------------
  // The candidates of store_scraped_person
  // ---------------------------------------------------------------------

  function OptionalRow(titleId: string, key: string, o: Option<string>): seq<Row>
  {
    match o
    case Some(v) => [TitleInfoRow(titleId, key, Str(v))]
    case None => []
  }

  /**
   * The title built from a credit yields at most its `title` row and then
   * its `year` row: the placeholder timestamp and the other keys produce
   * nothing (database.py:281-289).
   */
  lemma EmbeddedTitleRows(e: FilmographyEntry)
    ensures TitleInfoRows(EmbeddedTitle(e))
         == OptionalRow(e.titleId, "title", e.credit.titleInfo.title)
          + OptionalRow(e.titleId, "year", e.credit.titleInfo.year)
  {
    var doc := EmbeddedTitle(e);
    var fs := TitleFields(doc);
    var id := e.titleId;
    var yearRows := OptionalRow(id, "year", e.credit.titleInfo.year);
    assert KeyLoopRows(id, fs, 5) == [];
    assert KeyLoopRows(id, fs, 4) == yearRows;
    assert KeyLoopRows(id, fs, 3) == yearRows;
    assert KeyLoopRows(id, fs, 2) == yearRows;
    assert KeyLoopRows(id, fs, 1) == yearRows;
    assert KeyLoopRows(id, fs, 0) == OptionalRow(id, "title", e.credit.titleInfo.title) + yearRows;
  }

  function Count<T>(o: Option<T>): nat
  {
    if o.Some? then 1 else 0
  }

  /** The number of candidates of one filmography entry whose title info has tags. */
  function EntryCount(e: FilmographyEntry): nat
  {
    (if e.credit.creditType == [] then 1 else |e.credit.creditType|)
    + |e.credit.tags|
    + Count(e.credit.titleInfo.title) + Count(e.credit.titleInfo.year)
    + |e.credit.titleInfo.tags.GetOr([])|
  }

  /**
   * An entry's candidates exist exactly when its title info has `tags`
   * (otherwise `credit["title_info"]["tags"]` raises), and then there are
   * `EntryCount(e)` of them (database.py:252-301).
   */
  lemma EntryCandidatesDefined(personId: string, e: FilmographyEntry)
    ensures EntryCandidates(personId, e).Some? <==> e.credit.titleInfo.tags.Some?
    ensures EntryCandidates(personId, e).Some? ==> |EntryCandidates(personId, e).value| == EntryCount(e)
  {
    if e.credit.titleInfo.tags.Some? {
      EmbeddedTitleRows(e);
      assert |EntryCandidates(personId, e).value|
          == |CreditCandidates(personId, e)| + |CreditTagCandidates(personId, e)|
           + |Wrap(TitleInfo, TitleInfoRows(EmbeddedTitle(e)))|
           + |TitleTagCandidates(e.titleId, e.credit.titleInfo.tags.value)|;
    }
  }

  /**
   * One entry's candidates, part by part: a credit per credit type, or one
   * with a NULL credit type when the list is empty; a credit tag per tag;
   * the title's `title` and `year` rows; a title tag per tag
   * (database.py:252-301).
   */
  lemma EntryCandidatesSpec(personId: string, e: FilmographyEntry)
    requires e.credit.titleInfo.tags.Some?
    ensures EntryCandidates(personId, e).Some?
    ensures
      var cs := EntryCandidates(personId, e).value;
      var ct := e.credit.creditType;
      var nc := if ct == [] then 1 else |ct|;
      var nt := |e.credit.tags|;
      var info := TitleInfoRows(EmbeddedTitle(e));
      var tags := e.credit.titleInfo.tags.value;
      && |info| == Count(e.credit.titleInfo.title) + Count(e.credit.titleInfo.year)
      && (ct == [] ==> cs[0] == Candidate(Credits, CreditRow(e.titleId, Null, personId)))
      && (forall i :: 0 <= i < |ct| ==> cs[i] == Candidate(Credits, CreditRow(e.titleId, Str(ct[i]), personId)))
      && (forall i :: 0 <= i < nt ==> cs[nc + i] == Candidate(CreditTags, CreditTagRow(e.titleId, personId, e.credit.tags[i])))
      && (forall i :: 0 <= i < |info| ==> cs[nc + nt + i] == Candidate(TitleInfo, info[i]))
      && (forall i :: 0 <= i < |tags| ==> cs[nc + nt + |info| + i] == Candidate(TitleTags, TitleTagRow(e.titleId, tags[i])))
  {
    EmbeddedTitleRows(e);
    EntryCreditPart(personId, e);
    EntryCreditTagPart(personId, e);
    EntryInfoPart(personId, e);
    EntryTitleTagPart(personId, e);
  }

  /** The credits at the head of an entry's candidates. */
  lemma EntryCreditPart(personId: string, e: FilmographyEntry)
    requires e.credit.titleInfo.tags.Some?
    ensures EntryCandidates(personId, e).Some?
    ensures
      var cs := EntryCandidates(personId, e).value;
      var ct := e.credit.creditType;
      && (ct == [] ==> cs[0] == Candidate(Credits, CreditRow(e.titleId, Null, personId)))
      && (forall i :: 0 <= i < |ct| ==> cs[i] == Candidate(Credits, CreditRow(e.titleId, Str(ct[i]), personId)))
  {
    var ct := e.credit.creditType;
    if ct == [] {
      EntryCreditAt(personId, e, 0);
    }
    forall i | 0 <= i < |ct|
      ensures EntryCandidates(personId, e).value[i] == Candidate(Credits, CreditRow(e.titleId, Str(ct[i]), personId))
    {
      EntryCreditAt(personId, e, i);
    }
  }

  /** The credit tags, right after the credits. */
  lemma EntryCreditTagPart(personId: string, e: FilmographyEntry)
    requires e.credit.titleInfo.tags.Some?
    ensures EntryCandidates(personId, e).Some?
    ensures
      var cs := EntryCandidates(personId, e).value;
      var nc := if e.credit.creditType == [] then 1 else |e.credit.creditType|;
      forall i :: 0 <= i < |e.credit.tags| ==>
        cs[nc + i] == Candidate(CreditTags, CreditTagRow(e.titleId, personId, e.credit.tags[i]))
  {
    var nc := if e.credit.creditType == [] then 1 else |e.credit.creditType|;
    forall i | 0 <= i < |e.credit.tags|
      ensures EntryCandidates(personId, e).value[nc + i]
        == Candidate(CreditTags, CreditTagRow(e.titleId, personId, e.credit.tags[i]))
    {
      EntryCreditTagAt(personId, e, i);
    }
  }

  /** The `i`-th credit candidate of an entry. */
  lemma EntryCreditAt(personId: string, e: FilmographyEntry, i: int)
    requires e.credit.titleInfo.tags.Some?
    requires 0 <= i < |CreditCandidates(personId, e)|
    ensures EntryCandidates(personId, e).Some?
    ensures EntryCandidates(personId, e).value[i]
      == Candidate(Credits, CreditRow(e.titleId, CreditTypeValues(e.credit.creditType)[i], personId))
  {
    ConcatFirstAt(CreditCandidates(personId, e), CreditTagCandidates(personId, e),
      Wrap(TitleInfo, TitleInfoRows(EmbeddedTitle(e))), TitleTagCandidates(e.titleId, e.credit.titleInfo.tags.value), i);
  }

  /** The `i`-th credit tag candidate of an entry, after the credits. */
  lemma EntryCreditTagAt(personId: string, e: FilmographyEntry, i: int)
    requires e.credit.titleInfo.tags.Some?
    requires 0 <= i < |e.credit.tags|
    ensures EntryCandidates(personId, e).Some?
    ensures EntryCandidates(personId, e).value[(if e.credit.creditType == [] then 1 else |e.credit.creditType|) + i]
      == Candidate(CreditTags, CreditTagRow(e.titleId, personId, e.credit.tags[i]))
  {
    ConcatSecondAt(CreditCandidates(personId, e), CreditTagCandidates(personId, e),
      Wrap(TitleInfo, TitleInfoRows(EmbeddedTitle(e))), TitleTagCandidates(e.titleId, e.credit.titleInfo.tags.value), i);
  }

  /** The embedded title's info rows, after the credit tags. */
  lemma EntryInfoPart(personId: string, e: FilmographyEntry)
    requires e.credit.titleInfo.tags.Some?
    ensures EntryCandidates(personId, e).Some?
    ensures forall i :: 0 <= i < |TitleInfoRows(EmbeddedTitle(e))| ==>
      EntryCandidates(personId, e).value[
        (if e.credit.creditType == [] then 1 else |e.credit.creditType|) + |e.credit.tags| + i]
      == Candidate(TitleInfo, TitleInfoRows(EmbeddedTitle(e))[i])
  {
    forall i | 0 <= i < |TitleInfoRows(EmbeddedTitle(e))|
      ensures EntryCandidates(personId, e).value[
                (if e.credit.creditType == [] then 1 else |e.credit.creditType|) + |e.credit.tags| + i]
           == Candidate(TitleInfo, TitleInfoRows(EmbeddedTitle(e))[i])
    {
      EntryInfoAt(personId, e, i);
    }
  }

  /** The `i`-th title_info row of an entry, after the credits and credit tags. */
  lemma EntryInfoAt(personId: string, e: FilmographyEntry, i: int)
    requires e.credit.titleInfo.tags.Some?
    requires 0 <= i < |TitleInfoRows(EmbeddedTitle(e))|
    ensures EntryCandidates(personId, e).Some?
    ensures EntryCandidates(personId, e).value[
              (if e.credit.creditType == [] then 1 else |e.credit.creditType|) + |e.credit.tags| + i]
         == Candidate(TitleInfo, TitleInfoRows(EmbeddedTitle(e))[i])
  {
    ConcatThirdAt(CreditCandidates(personId, e), CreditTagCandidates(personId, e),
      Wrap(TitleInfo, TitleInfoRows(EmbeddedTitle(e))), TitleTagCandidates(e.titleId, e.credit.titleInfo.tags.value), i);
  }

  /** The title tags, last. */
  lemma EntryTitleTagPart(personId: string, e: FilmographyEntry)
    requires e.credit.titleInfo.tags.Some?
    ensures EntryCandidates(personId, e).Some?
    ensures
      var cs := EntryCandidates(personId, e).value;
      var n := (if e.credit.creditType == [] then 1 else |e.credit.creditType|) + |e.credit.tags|
        + |TitleInfoRows(EmbeddedTitle(e))|;
      var tags := e.credit.titleInfo.tags.value;
      forall i :: 0 <= i < |tags| ==> cs[n + i] == Candidate(TitleTags, TitleTagRow(e.titleId, tags[i]))
  {
    var tags := e.credit.titleInfo.tags.value;
    forall i | 0 <= i < |tags|
      ensures EntryCandidates(personId, e).value[
                (if e.credit.creditType == [] then 1 else |e.credit.creditType|) + |e.credit.tags|
                + |TitleInfoRows(EmbeddedTitle(e))| + i]
           == Candidate(TitleTags, TitleTagRow(e.titleId, tags[i]))
    {
      EntryTitleTagAt(personId, e, i);
    }
  }

  lemma EntryTitleTagAt(personId: string, e: FilmographyEntry, i: nat)
    requires e.credit.titleInfo.tags.Some? && i < |e.credit.titleInfo.tags.value|
    ensures var nc := if e.credit.creditType == [] then 1 else |e.credit.creditType|;
      var tags := e.credit.titleInfo.tags.value;
      EntryCandidates(personId, e).value[nc + |e.credit.tags| + |TitleInfoRows(EmbeddedTitle(e))| + i]
        == Candidate(TitleTags, TitleTagRow(e.titleId, tags[i]))
  {
    ConcatFourthAt(CreditCandidates(personId, e), CreditTagCandidates(personId, e),
      Wrap(TitleInfo, TitleInfoRows(EmbeddedTitle(e))), TitleTagCandidates(e.titleId, e.credit.titleInfo.tags.value), i);
  }

  /** The head of `a + b + c + d` is `a`. */
  lemma ConcatFirstAt<T>(a: seq<T>, b: seq<T>, c: seq<T>, d: seq<T>, i: int)
    requires 0 <= i < |a|
    ensures (a + b + c + d)[i] == a[i]
  {
  }

  /** `b` follows `a` in `a + b + c + d`. */
  lemma ConcatSecondAt<T>(a: seq<T>, b: seq<T>, c: seq<T>, d: seq<T>, i: int)
    requires 0 <= i < |b|
    ensures (a + b + c + d)[|a| + i] == b[i]
  {
  }

  /** `c` follows `a + b` in `a + b + c + d`. */
  lemma ConcatThirdAt<T>(a: seq<T>, b: seq<T>, c: seq<T>, d: seq<T>, i: int)
    requires 0 <= i < |c|
    ensures (a + b + c + d)[|a| + |b| + i] == c[i]
  {
  }

  /** `d` closes `a + b + c + d`. */
  lemma ConcatFourthAt<T>(a: seq<T>, b: seq<T>, c: seq<T>, d: seq<T>, i: int)
    requires 0 <= i < |d|
    ensures (a + b + c + d)[|a| + |b| + |c| + i] == d[i]
  {
  }

  lemma LacksTagsSnoc(pre: seq<FilmographyEntry>, e: FilmographyEntry)
    ensures SomeEntryLacksTags(pre + [e]) <==> SomeEntryLacksTags(pre) || e.credit.titleInfo.tags.None?
  {
    var es := pre + [e];
    if SomeEntryLacksTags(pre) {
      var i :| 0 <= i < |pre| && pre[i].credit.titleInfo.tags.None?;
      assert es[i] == pre[i];
    }
    if e.credit.titleInfo.tags.None? {
      assert es[|pre|] == e;
    }
    if SomeEntryLacksTags(es) {
      var i :| 0 <= i < |es| && es[i].credit.titleInfo.tags.None?;
      if i < |pre| {
        assert es[i] == pre[i];
      }
    }
  }

  lemma CreditCandidatesFit(personId: string, e: FilmographyEntry)
    ensures AllFit(CreditCandidates(personId, e))
  {
    var credits := CreditCandidates(personId, e);
    forall i | 0 <= i < |credits| ensures Fits(credits[i].table, credits[i].row) {
      CreditRowFits(e.titleId, CreditTypeValues(e.credit.creditType)[i], personId);
    }
  }

  lemma CreditTagCandidatesFit(personId: string, e: FilmographyEntry)
    ensures AllFit(CreditTagCandidates(personId, e)) && AllNullFree(CreditTagCandidates(personId, e))
  {
    var creditTags := CreditTagCandidates(personId, e);
    forall i | 0 <= i < |creditTags|
      ensures Fits(creditTags[i].table, creditTags[i].row) && NullFree(Values(creditTags[i].row))
    {
      CreditTagRowFits(e.titleId, personId, e.credit.tags[i]);
    }
  }

  lemma TitleTagCandidatesFit(titleId: string, tags: seq<string>)
    ensures AllFit(TitleTagCandidates(titleId, tags)) && AllNullFree(TitleTagCandidates(titleId, tags))
  {
    var titleTags := TitleTagCandidates(titleId, tags);
    forall i | 0 <= i < |titleTags|
      ensures Fits(titleTags[i].table, titleTags[i].row) && NullFree(Values(titleTags[i].row))
    {
      TitleTagRowFits(titleId, tags[i]);
    }
  }

  /** Only candidates for table `t` may hold a NULL. */
  predicate NullsOnlyIn(cs: seq<Candidate>, t: Table)
  {
    forall i :: 0 <= i < |cs| && !NullFree(Values(cs[i].row)) ==> cs[i].table == t
  }

  lemma FitNullsConcat(a: seq<Candidate>, b: seq<Candidate>, t: Table)
    requires AllFit(a) && AllFit(b) && NullsOnlyIn(a, t) && NullsOnlyIn(b, t)
    ensures AllFit(a + b) && NullsOnlyIn(a + b, t)
  {
    assert forall i :: 0 <= i < |a + b| ==> (a + b)[i] == if i < |a| then a[i] else b[i - |a|];
  }

  /**
   * An entry's candidates fit their tables, and the only ones that may
   * hold a NULL are credits (an empty `credit_type` list): every tag and
   * title_info row is NULL-free.
   */
  lemma EntryCandidatesFit(personId: string, e: FilmographyEntry)
    requires e.credit.titleInfo.tags.Some?
    ensures AllFit(EntryCandidates(personId, e).value)
    ensures NullsOnlyIn(EntryCandidates(personId, e).value, Credits)
  {
    var credits := CreditCandidates(personId, e);
    var creditTags := CreditTagCandidates(personId, e);
    var info := Wrap(TitleInfo, TitleInfoRows(EmbeddedTitle(e)));
    var titleTags := TitleTagCandidates(e.titleId, e.credit.titleInfo.tags.value);
    CreditCandidatesFit(personId, e);
    CreditTagCandidatesFit(personId, e);
    TitleInfoRowsFit(EmbeddedTitle(e));
    TitleTagCandidatesFit(e.titleId, e.credit.titleInfo.tags.value);
    FitNullsConcat(credits, creditTags, Credits);
    FitNullsConcat(credits + creditTags, info, Credits);
    FitNullsConcat(credits + creditTags + info, titleTags, Credits);
  }

  /** The total count of the entries' candidates. */
  function FilmographyCount(entries: seq<FilmographyEntry>): nat
    decreases |entries|
  {
    if entries == [] then 0 else FilmographyCount(entries[..|entries| - 1]) + EntryCount(entries[|entries| - 1])
  }

  predicate SomeEntryLacksTags(entries: seq<FilmographyEntry>)
  {
    exists i :: 0 <= i < |entries| && entries[i].credit.titleInfo.tags.None?
  }

  /**
   * The filmography raises exactly when some entry's title info has no
   * `tags`; otherwise its candidates fit and number `FilmographyCount`.
   */
  lemma {:induction false} FilmographyCandidatesSpec(personId: string, entries: seq<FilmographyEntry>)
    ensures FilmographyCandidates(personId, entries).None? <==> SomeEntryLacksTags(entries)
    ensures FilmographyCandidates(personId, entries).Some? ==>
      && AllFit(FilmographyCandidates(personId, entries).value)
      && |FilmographyCandidates(personId, entries).value| == FilmographyCount(entries)
    decreases |entries|
  {
    if entries != [] {
      var n := |entries| - 1;
      var pre := entries[..n];
      var e := entries[n];
      FilmographyCandidatesSpec(personId, pre);
      EntryCandidatesDefined(personId, e);
      LacksTagsSnoc(pre, e);
      assert pre + [e] == entries;
      if !SomeEntryLacksTags(entries) {
        EntryCandidatesFit(personId, e);
        AllFitConcatWithNulls(FilmographyCandidates(personId, pre).value, EntryCandidates(personId, e).value);
      }
    }
  }

  lemma PersonInfoRowsFit(doc: ScrapedPerson)
    ensures AllFit(Wrap(PeopleInfo, PersonInfoRows(doc)))
    ensures |PersonInfoRows(doc)| == Count(doc.name) + Count(doc.birthday)
  {
    var rows := PersonInfoRows(doc);
    forall i | 0 <= i < |rows| ensures Fits(PeopleInfo, rows[i]) {
      if i == 0 && doc.name.Some? {
        PeopleInfoRowFits(doc.id, "name", Str(doc.name.value));
      } else {
        PeopleInfoRowFits(doc.id, "birthday", Str(doc.birthday.value));
      }
    }
  }

  // ---------------------------------------------------------------------
  // The effect of store_scraped_person
  // ---------------------------------------------------------------------

  /**
   * `store_scraped_person` raises, and its transaction leaves the store as
   * it was, exactly when some filmography entry's title info lacks `tags`.
   * Otherwise it adds one scrape with the document's timestamp (the
   * placeholder -1 of the embedded titles never becomes a scrape), then
   * one link per candidate from that scrape to a change whose row holds
   * the candidate, and keeps the invariant (database.py:233-301).
   */
  lemma StorePersonEffect(s: Store, doc: ScrapedPerson)
    requires Inv(s)
    ensures StorePerson(s, doc).None? <==> SomeEntryLacksTags(doc.filmography.GetOr([]))
    ensures StorePerson(s, doc).Some? ==>
      var s' := StorePerson(s, doc).value;
      var cs := PersonCandidates(doc).value;
      && Inv(s')
      && s'.scrapes == s.scrapes + [doc.timestamp]
      && |cs| == Count(doc.name) + Count(doc.birthday) + FilmographyCount(doc.filmography.GetOr([]))
      && |s'.links| == |s.links| + |cs|
      && ObservedAll(AddScrape(s, doc.timestamp), s', |s.scrapes| + 1, cs)
  {
    FilmographyCandidatesSpec(doc.id, doc.filmography.GetOr([]));
    if PersonCandidates(doc).Some? {
      var cs := PersonCandidates(doc).value;
      var s0 := AddScrape(s, doc.timestamp);
      PersonInfoRowsFit(doc);
      AllFitConcatWithNulls(Wrap(PeopleInfo, PersonInfoRows(doc)), FilmographyCandidates(doc.id, doc.filmography.GetOr([])).value);
      AddScrapeKeepsInv(s, doc.timestamp);
      InsertAllPreservesInv(s0, |s.scrapes| + 1, cs);
      InsertAllObserves(s0, |s.scrapes| + 1, cs);
    }
  }
}
