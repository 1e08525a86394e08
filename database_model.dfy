/**
 * The append-only deduplicating store of limdberator/database.py, as a
 * value.
 *
 * A `Store` holds the `scrapes` table (a timestamp per scrape; the scrape
 * with id `k` is at position `k - 1`), the `_changes` identity table (ids
 * `1..changeCount`), the link table `changes` (one `Link` per observation
 * of a fact by a scrape) and the five fact tables.  `Insert` is
 * `insert_with_change`; `StoreTitle` and `StorePerson` are the effect of
 * `store_scraped_title` and `store_scraped_person`, each one transaction.
 * The class in database.dfy performs the same steps in place and is proved
 * to end in these states.
 */
module DatabaseModel {
  import opened Wrappers
  import opened Types

  // ---------------------------------------------------------------------
  // Tables and rows (database.py:67-124)
  // ---------------------------------------------------------------------

  /** A value bound to a query parameter: None, an int or a str. */
  datatype Value = Null | Int(i: int) | Str(s: string)

  /** The five fact tables. */
  datatype Table = TitleInfo | TitleTags | PeopleInfo | Credits | CreditTags

  /**
   * The columns of a fact table besides `change_id`, in declaration order.
   * Each table's UNIQUE constraint covers exactly these columns.
   */
  function Columns(t: Table): seq<string>
  {
    match t
    case TitleInfo => ["title_id", "key", "value"]
    case TitleTags => ["title_id", "tag"]
    case PeopleInfo => ["person_id", "key", "value"]
    case Credits => ["title_id", "credit_type", "person_id"]
    case CreditTags => ["title_id", "person_id", "tag"]
  }

  /** The columns declared without NOT NULL. */
  predicate Nullable(t: Table, column: string)
  {
    || (t == TitleTags && column == "tag")
    || (t == Credits && column == "credit_type")
    || (t == CreditTags && column == "tag")
  }

  /** One `column: value` item of a candidate row (a Python dict). */
  datatype Cell = Cell(column: string, value: Value)

  type Row = seq<Cell>

  function ColumnNames(row: Row): (names: seq<string>)
    ensures |names| == |row|
  {
    seq(|row|, k requires 0 <= k < |row| => row[k].column)
  }

  function Values(row: Row): (vals: seq<Value>)
    ensures |vals| == |row|
  {
    seq(|row|, k requires 0 <= k < |row| => row[k].value)
  }

  /** Values for the columns of `t`, in order, respecting NOT NULL. */
  predicate Admissible(t: Table, vals: seq<Value>)
  {
    && |vals| == |Columns(t)|
    && forall k :: 0 <= k < |vals| && vals[k] == Null ==> Nullable(t, Columns(t)[k])
  }

  /** A candidate row naming the columns of `t` in order and respecting NOT NULL. */
  predicate Fits(t: Table, row: Row)
  {
    ColumnNames(row) == Columns(t) && Admissible(t, Values(row))
  }

  predicate NullFree(vals: seq<Value>)
  {
    forall k :: 0 <= k < |vals| ==> vals[k] != Null
  }

  /** A stored fact row: its `change_id` and its values for `Columns(t)`. */
  datatype FactRow = FactRow(changeId: int, values: seq<Value>)

  /** A row of the link table `changes` (database.py:75-80). */
  datatype Link = Link(changeId: int, scrapeId: int)

  datatype Tables = Tables(
    titleInfo: seq<FactRow>,
    titleTags: seq<FactRow>,
    peopleInfo: seq<FactRow>,
    credits: seq<FactRow>,
    creditTags: seq<FactRow>)
  {
    function Get(t: Table): seq<FactRow>
    {
      match t
      case TitleInfo => titleInfo
      case TitleTags => titleTags
      case PeopleInfo => peopleInfo
      case Credits => credits
      case CreditTags => creditTags
    }

    function Put(t: Table, rows: seq<FactRow>): (r: Tables)
      ensures r.Get(t) == rows
      ensures forall u :: u != t ==> r.Get(u) == Get(u)
    {
      match t
      case TitleInfo => this.(titleInfo := rows)
      case TitleTags => this.(titleTags := rows)
      case PeopleInfo => this.(peopleInfo := rows)
      case Credits => this.(credits := rows)
      case CreditTags => this.(creditTags := rows)
    }
  }

  datatype Store = Store(scrapes: seq<int>, changeCount: nat, links: seq<Link>, facts: Tables)

  /** The tables as `init_database` creates them in a new database file. */
  const EmptyStore: Store := Store([], 0, [], Tables([], [], [], [], []))

  // ---------------------------------------------------------------------
  // SQL equality and the lookup of insert_with_change (database.py:159-163)
  // ---------------------------------------------------------------------

  /** SQL `a = b` holds only between equal non-NULL values. */
  predicate SqlEquals(a: Value, b: Value)
  {
    a != Null && b != Null && a == b
  }

  /**
   * The row satisfies `WHERE c1=? AND c2=? ...` with `args` bound.  Two
   * stored rows violate a UNIQUE constraint exactly when one matches the
   * other's values, so the same predicate states the constraint.
   */
  predicate RowMatches(r: FactRow, args: seq<Value>)
  {
    |r.values| == |args| && forall k :: 0 <= k < |args| ==> SqlEquals(r.values[k], args[k])
  }

  /** The first row, in insertion order, that the SELECT returns. */
  function FirstMatch(rows: seq<FactRow>, args: seq<Value>): (r: Option<nat>)
    ensures r.Some? ==> r.value < |rows| && RowMatches(rows[r.value], args)
    ensures r.Some? ==> forall k :: 0 <= k < r.value ==> !RowMatches(rows[k], args)
    ensures r.None? ==> forall k :: 0 <= k < |rows| ==> !RowMatches(rows[k], args)
  {
    if rows == [] then None
    else if RowMatches(rows[0], args) then Some(0)
    else
      match FirstMatch(rows[1..], args)
      case None => None
      case Some(i) => Some(i + 1)
  }

  // ---------------------------------------------------------------------
  // The transitions
  // ---------------------------------------------------------------------

  /** `insert_new_scrape` (database.py:127-129): the new scrape's id is the new length. */
  function AddScrape(s: Store, timestamp: int): Store
  {
    s.(scrapes := s.scrapes + [timestamp])
  }

  /** `insert_new_change` (database.py:132-138): a new identity, linked to the scrape. */
  function NewChange(s: Store, scrapeId: int): Store
  {
    s.(changeCount := s.changeCount + 1, links := s.links + [Link(s.changeCount + 1, scrapeId)])
  }

  /** `insert_with_change` (database.py:141-177). */
  function Insert(s: Store, scrapeId: int, t: Table, row: Row): Store
  {
    var rows := s.facts.Get(t);
    match FirstMatch(rows, Values(row))
    case Some(i) => s.(links := s.links + [Link(rows[i].changeId, scrapeId)])
    case None =>
      var s1 := NewChange(s, scrapeId);
      s1.(facts := s1.facts.Put(t, rows + [FactRow(s1.changeCount, Values(row))]))
  }

  /** A candidate fact: the table and the row given to `insert_with_change`. */
  datatype Candidate = Candidate(table: Table, row: Row)

  /** The candidates fed to `insert_with_change` one after another, for one scrape. */
  function InsertAll(s: Store, scrapeId: int, cs: seq<Candidate>): Store
    decreases |cs|
  {
    if cs == [] then s
    else
      var n := |cs| - 1;
      Insert(InsertAll(s, scrapeId, cs[..n]), scrapeId, cs[n].table, cs[n].row)
  }

  lemma InsertAllLast(s: Store, scrapeId: int, cs: seq<Candidate>)
    requires cs != []
    ensures InsertAll(s, scrapeId, cs)
         == Insert(InsertAll(s, scrapeId, cs[..|cs| - 1]), scrapeId, cs[|cs| - 1].table, cs[|cs| - 1].row)
  {
  }

  predicate AllFit(cs: seq<Candidate>)
  {
    forall i :: 0 <= i < |cs| ==> Fits(cs[i].table, cs[i].row)
  }

  // ---------------------------------------------------------------------
  // The invariant
  // ---------------------------------------------------------------------

  /** Every link refers to an allocated change and an existing scrape (the REFERENCES clauses). */
  predicate LinksValid(s: Store)
  {
    forall i :: 0 <= i < |s.links| ==>
      1 <= s.links[i].changeId <= s.changeCount && 1 <= s.links[i].scrapeId <= |s.scrapes|
  }

  /**
   * A fact table's rows fit its columns and NOT NULL constraints, carry
   * allocated change ids in increasing order, and no two of them violate
   * the UNIQUE constraint (a row holding a NULL never does).
   */
  predicate TableValid(t: Table, rows: seq<FactRow>, changeCount: nat)
  {
    && (forall i :: 0 <= i < |rows| ==> Admissible(t, rows[i].values) && 1 <= rows[i].changeId <= changeCount)
    && (forall i, j :: 0 <= i < j < |rows| ==> rows[i].changeId < rows[j].changeId)
    && (forall i, j :: 0 <= i < j < |rows| ==> !RowMatches(rows[i], rows[j].values))
  }

  /** No change id is used by two different fact tables. */
  predicate TablesDisjoint(f: Tables)
  {
    forall t, u, i, j :: t != u && 0 <= i < |f.Get(t)| && 0 <= j < |f.Get(u)| ==>
      f.Get(t)[i].changeId != f.Get(u)[j].changeId
  }

  function Ids(rows: seq<FactRow>): set<int>
  {
    set i | 0 <= i < |rows| :: rows[i].changeId
  }

  function AllIds(f: Tables): set<int>
  {
    Ids(f.titleInfo) + Ids(f.titleTags) + Ids(f.peopleInfo) + Ids(f.credits) + Ids(f.creditTags)
  }

  predicate Inv(s: Store)
  {
    && LinksValid(s)
    && (forall t :: TableValid(t, s.facts.Get(t), s.changeCount))
    && TablesDisjoint(s.facts)
    && (forall id :: id in AllIds(s.facts) ==> 1 <= id <= s.changeCount)
    && (forall id :: 1 <= id <= s.changeCount ==> id in AllIds(s.facts))
  }

  // ---------------------------------------------------------------------
  // insert_with_change: the invariant and the deduplication
  // ---------------------------------------------------------------------

  lemma IdsAppend(rows: seq<FactRow>, r: FactRow)
    ensures Ids(rows + [r]) == Ids(rows) + {r.changeId}
  {
    var rs := rows + [r];
    assert rs[|rows|] == r;
    forall id | id in Ids(rows) ensures id in Ids(rs) {
      var i :| 0 <= i < |rows| && rows[i].changeId == id;
      assert rs[i] == rows[i];
    }
  }

  lemma AllIdsAppend(f: Tables, t: Table, r: FactRow)
    ensures AllIds(f.Put(t, f.Get(t) + [r])) == AllIds(f) + {r.changeId}
  {
    IdsAppend(f.Get(t), r);
  }

  /** Two rows that both match the same arguments match each other. */
  lemma MatchesShareValues(a: FactRow, b: FactRow, args: seq<Value>)
    requires RowMatches(a, args) && RowMatches(b, args)
    ensures RowMatches(a, b.values) && a.values == b.values
  {
    assert forall k :: 0 <= k < |args| ==> a.values[k] == b.values[k];
  }

  /**
   * Under the UNIQUE constraint at most one row matches any arguments, so
   * `LIMIT 1` never has to choose.
   */
  lemma AtMostOneMatch(t: Table, rows: seq<FactRow>, n: nat, args: seq<Value>, i: nat, j: nat)
    requires TableValid(t, rows, n)
    requires i < |rows| && j < |rows| && RowMatches(rows[i], args) && RowMatches(rows[j], args)
    ensures i == j
  {
    if i < j {
      MatchesShareValues(rows[i], rows[j], args);
    } else if j < i {
      MatchesShareValues(rows[j], rows[i], args);
    }
  }

  lemma AppendKeepsTableValid(t: Table, rows: seq<FactRow>, n: nat, r: FactRow)
    requires TableValid(t, rows, n)
    requires Admissible(t, r.values) && r.changeId == n + 1
    requires forall k :: 0 <= k < |rows| ==> !RowMatches(rows[k], r.values)
    ensures TableValid(t, rows + [r], n + 1)
  {
    var rs := rows + [r];
    assert forall k :: 0 <= k < |rows| ==> rs[k] == rows[k];
    assert rs[|rows|] == r;
  }

  lemma AppendKeepsDisjoint(f: Tables, t: Table, n: nat, r: FactRow)
    requires forall u, i :: 0 <= i < |f.Get(u)| ==> f.Get(u)[i].changeId <= n
    requires TablesDisjoint(f) && r.changeId == n + 1
    ensures TablesDisjoint(f.Put(t, f.Get(t) + [r]))
  {
    var f' := f.Put(t, f.Get(t) + [r]);
    forall u, v, i, j | u != v && 0 <= i < |f'.Get(u)| && 0 <= j < |f'.Get(v)|
      ensures f'.Get(u)[i].changeId != f'.Get(v)[j].changeId
    {
      if u == t && i == |f.Get(t)| {
        assert f'.Get(v)[j] == f.Get(v)[j];
      } else if v == t && j == |f.Get(t)| {
        assert f'.Get(u)[i] == f.Get(u)[i];
      } else {
        assert f'.Get(u)[i] == f.Get(u)[i];
        assert f'.Get(v)[j] == f.Get(v)[j];
      }
    }
  }

  lemma AppendKeepsTablesValid(f: Tables, t: Table, n: nat, r: FactRow)
    requires forall u :: TableValid(u, f.Get(u), n)
    requires Admissible(t, r.values) && r.changeId == n + 1
    requires forall k :: 0 <= k < |f.Get(t)| ==> !RowMatches(f.Get(t)[k], r.values)
    ensures forall u :: TableValid(u, f.Put(t, f.Get(t) + [r]).Get(u), n + 1)
  {
    forall u ensures TableValid(u, f.Put(t, f.Get(t) + [r]).Get(u), n + 1) {
      if u == t {
        AppendKeepsTableValid(t, f.Get(t), n, r);
      } else {
        assert TableValid(u, f.Get(u), n);
      }
    }
  }

  lemma AppendKeepsIdRange(f: Tables, t: Table, n: nat, r: FactRow)
    requires forall id :: id in AllIds(f) ==> 1 <= id <= n
    requires forall id :: 1 <= id <= n ==> id in AllIds(f)
    requires r.changeId == n + 1
    ensures forall id :: id in AllIds(f.Put(t, f.Get(t) + [r])) ==> 1 <= id <= n + 1
    ensures forall id :: 1 <= id <= n + 1 ==> id in AllIds(f.Put(t, f.Get(t) + [r]))
  {
    AllIdsAppend(f, t, r);
  }

  lemma InsertNewKeepsInv(s: Store, scrapeId: int, t: Table, row: Row)
    requires Inv(s) && 1 <= scrapeId <= |s.scrapes| && Fits(t, row)
    requires FirstMatch(s.facts.Get(t), Values(row)).None?
    ensures Inv(Insert(s, scrapeId, t, row))
  {
    var r := FactRow(s.changeCount + 1, Values(row));
    InsertNewShape(s, scrapeId, t, row);
    NewLinkValid(s, scrapeId, s.facts.Put(t, s.facts.Get(t) + [r]));
    AppendKeepsTablesValid(s.facts, t, s.changeCount, r);
    IdsWithinCount(s);
    AppendKeepsDisjoint(s.facts, t, s.changeCount, r);
    AppendKeepsIdRange(s.facts, t, s.changeCount, r);
  }

  /** A row that matches nothing gets the next change id, one link and its place at the table's end. */
  lemma InsertNewShape(s: Store, scrapeId: int, t: Table, row: Row)
    requires FirstMatch(s.facts.Get(t), Values(row)).None?
    ensures Insert(s, scrapeId, t, row)
      == Store(s.scrapes, s.changeCount + 1, s.links + [Link(s.changeCount + 1, scrapeId)],
               s.facts.Put(t, s.facts.Get(t) + [FactRow(s.changeCount + 1, Values(row))]))
  {
  }

  /** A link from an existing scrape to the next change id keeps the links valid. */
  lemma NewLinkValid(s: Store, scrapeId: int, f: Tables)
    requires LinksValid(s) && 1 <= scrapeId <= |s.scrapes|
    ensures LinksValid(Store(s.scrapes, s.changeCount + 1, s.links + [Link(s.changeCount + 1, scrapeId)], f))
  {
  }

  /** Under the invariant no stored change id exceeds the change count. */
  lemma IdsWithinCount(s: Store)
    requires Inv(s)
    ensures forall u, i :: 0 <= i < |s.facts.Get(u)| ==> s.facts.Get(u)[i].changeId <= s.changeCount
  {
    forall u, i | 0 <= i < |s.facts.Get(u)| ensures s.facts.Get(u)[i].changeId <= s.changeCount {
      assert TableValid(u, s.facts.Get(u), s.changeCount);
    }
  }

  /**
   * `insert_with_change` keeps the store consistent: links refer to existing
   * changes and scrapes, every table respects its NOT NULL and UNIQUE
   * constraints, and every change is the identity of exactly one fact.
   */
  lemma InsertPreservesInv(s: Store, scrapeId: int, t: Table, row: Row)
    requires Inv(s) && 1 <= scrapeId <= |s.scrapes| && Fits(t, row)
    ensures Inv(Insert(s, scrapeId, t, row))
  {
    var rows := s.facts.Get(t);
    match FirstMatch(rows, Values(row))
    case Some(i) =>
      var s' := Insert(s, scrapeId, t, row);
      assert s'.links == s.links + [Link(rows[i].changeId, scrapeId)];
    case None =>
      InsertNewKeepsInv(s, scrapeId, t, row);
  }

  /**
   * An equal row already stored: its change id is linked to the scrape
   * and nothing else changes (database.py:159-168).
   */
  lemma InsertReusesMatch(s: Store, scrapeId: int, t: Table, row: Row, i: nat)
    requires Inv(s)
    requires i < |s.facts.Get(t)| && RowMatches(s.facts.Get(t)[i], Values(row))
    ensures Insert(s, scrapeId, t, row)
         == s.(links := s.links + [Link(s.facts.Get(t)[i].changeId, scrapeId)])
  {
    var rows := s.facts.Get(t);
    var j := FirstMatch(rows, Values(row)).value;
    AtMostOneMatch(t, rows, s.changeCount, Values(row), i, j);
  }

  /**
   * No equal row stored: a change id never used before is allocated,
   * linked to the scrape and given to the new row, which is appended to
   * its table only (database.py:170-177).
   */
  lemma InsertMintsFresh(s: Store, scrapeId: int, t: Table, row: Row)
    requires Inv(s)
    requires forall k :: 0 <= k < |s.facts.Get(t)| ==> !RowMatches(s.facts.Get(t)[k], Values(row))
    ensures var s' := Insert(s, scrapeId, t, row);
      && s'.changeCount == s.changeCount + 1
      && s'.changeCount !in AllIds(s.facts)
      && s'.links == s.links + [Link(s'.changeCount, scrapeId)]
      && s'.facts.Get(t) == s.facts.Get(t) + [FactRow(s'.changeCount, Values(row))]
      && (forall u :: u != t ==> s'.facts.Get(u) == s.facts.Get(u))
      && s'.scrapes == s.scrapes
  {
  }

  /** A row holding a NULL never matches, so it always gets a new change (SQL `NULL = NULL` is not true). */
  lemma NullNeverMatches(s: Store, scrapeId: int, t: Table, row: Row)
    requires Inv(s) && !NullFree(Values(row))
    ensures var s' := Insert(s, scrapeId, t, row);
      && s'.changeCount == s.changeCount + 1
      && s'.facts.Get(t) == s.facts.Get(t) + [FactRow(s'.changeCount, Values(row))]
  {
    var k :| 0 <= k < |Values(row)| && Values(row)[k] == Null;
    forall i | 0 <= i < |s.facts.Get(t)| ensures !RowMatches(s.facts.Get(t)[i], Values(row)) {
      assert Values(row)[k] == Null;
    }
    InsertMintsFresh(s, scrapeId, t, row);
  }

  /** The row `r` of table `t` holds exactly the values of `c` and has change id `id`. */
  predicate HoldsFact(f: Tables, c: Candidate, id: int)
  {
    exists j :: 0 <= j < |f.Get(c.table)| && f.Get(c.table)[j].changeId == id && f.Get(c.table)[j].values == Values(c.row)
  }

  /** `s2` is `s1` with rows and links only appended. */
  predicate Extends(s1: Store, s2: Store)
  {
    && s2.scrapes == s1.scrapes
    && s1.changeCount <= s2.changeCount
    && |s1.links| <= |s2.links| && s2.links[..|s1.links|] == s1.links
    && forall u :: |s1.facts.Get(u)| <= |s2.facts.Get(u)| && s2.facts.Get(u)[..|s1.facts.Get(u)|] == s1.facts.Get(u)
  }

  lemma ExtendsTransitive(s1: Store, s2: Store, s3: Store)
    requires Extends(s1, s2) && Extends(s2, s3)
    ensures Extends(s1, s3)
  {
    assert s3.links[..|s1.links|] == s3.links[..|s2.links|][..|s1.links|];
    forall u ensures s3.facts.Get(u)[..|s1.facts.Get(u)|] == s1.facts.Get(u) {
      assert s3.facts.Get(u)[..|s1.facts.Get(u)|] == s3.facts.Get(u)[..|s2.facts.Get(u)|][..|s1.facts.Get(u)|];
    }
  }

  lemma HoldsFactExtends(s1: Store, s2: Store, c: Candidate, id: int)
    requires Extends(s1, s2) && HoldsFact(s1.facts, c, id)
    ensures HoldsFact(s2.facts, c, id)
  {
    var j :| 0 <= j < |s1.facts.Get(c.table)| && s1.facts.Get(c.table)[j].changeId == id
      && s1.facts.Get(c.table)[j].values == Values(c.row);
    assert s2.facts.Get(c.table)[..|s1.facts.Get(c.table)|][j] == s2.facts.Get(c.table)[j];
  }

  /**
   * Every call appends exactly one link, from the scrape to the change
   * whose row holds the given values, and only appends: the row the
   * lookup found, or the one just inserted.
   */
  lemma InsertObserves(s: Store, scrapeId: int, t: Table, row: Row)
    ensures var s' := Insert(s, scrapeId, t, row);
      && Extends(s, s')
      && |s'.links| == |s.links| + 1
      && s'.links[|s.links|].scrapeId == scrapeId
      && HoldsFact(s'.facts, Candidate(t, row), s'.links[|s.links|].changeId)
  {
    var s' := Insert(s, scrapeId, t, row);
    var rows := s.facts.Get(t);
    assert s'.links[..|s.links|] == s.links;
    match FirstMatch(rows, Values(row))
    case Some(i) =>
      MatchesShareValues(rows[i], rows[i], Values(row));
      assert s'.facts.Get(t)[i].values == Values(row);
    case None =>
      assert s'.facts.Get(t)[|rows|].values == Values(row);
      assert s'.facts.Get(t)[..|rows|] == rows;
  }

  // ---------------------------------------------------------------------
  // A sequence of insert_with_change calls for one scrape
  // ---------------------------------------------------------------------

  lemma AllFitPrefix(cs: seq<Candidate>, n: nat)
    requires AllFit(cs) && n <= |cs|
    ensures AllFit(cs[..n])
  {
    assert forall i :: 0 <= i < n ==> cs[..n][i] == cs[i];
  }

  lemma {:induction false} InsertAllPreservesInv(s: Store, scrapeId: int, cs: seq<Candidate>)
    requires Inv(s) && 1 <= scrapeId <= |s.scrapes| && AllFit(cs)
    ensures Inv(InsertAll(s, scrapeId, cs)) && InsertAll(s, scrapeId, cs).scrapes == s.scrapes
    decreases |cs|
  {
    if cs != [] {
      var n := |cs| - 1;
      var pre := cs[..n];
      AllFitPrefix(cs, n);
      InsertAllPreservesInv(s, scrapeId, pre);
      var s1 := InsertAll(s, scrapeId, pre);
      InsertPreservesInv(s1, scrapeId, cs[n].table, cs[n].row);
      InsertAllLast(s, scrapeId, cs);
    }
  }

  /** The facts `InsertAllObserves` states about `s2` relative to `s` and the candidates `cs`. */
  predicate ObservedAll(s: Store, s2: Store, scrapeId: int, cs: seq<Candidate>)
  {
    && Extends(s, s2)
    && |s2.links| == |s.links| + |cs|
    && forall i :: 0 <= i < |cs| ==> Observes(s2, |s.links| + i, scrapeId, cs[i])
  }

  /** The `k`-th link of `s2` joins scrape `scrapeId` to a change whose row holds the values of `c`. */
  predicate Observes(s2: Store, k: int, scrapeId: int, c: Candidate)
  {
    0 <= k < |s2.links| && s2.links[k].scrapeId == scrapeId && HoldsFact(s2.facts, c, s2.links[k].changeId)
  }

  lemma ObservedAllStep(s: Store, s1: Store, s2: Store, scrapeId: int, pre: seq<Candidate>, c: Candidate)
    requires ObservedAll(s, s1, scrapeId, pre)
    requires ObservedAll(s1, s2, scrapeId, [c])
    ensures ObservedAll(s, s2, scrapeId, pre + [c])
  {
    var cs := pre + [c];
    forall i | 0 <= i < |cs|
      ensures Observes(s2, |s.links| + i, scrapeId, cs[i])
    {
      if i < |pre| {
        ObservedEarlier(s, s1, s2, scrapeId, pre, c, i);
      } else {
        ObservedLast(s, s1, s2, scrapeId, pre, c);
      }
    }
    ExtendsTransitive(s, s1, s2);
  }

  lemma ObservedEarlier(s: Store, s1: Store, s2: Store, scrapeId: int, pre: seq<Candidate>, c: Candidate, i: nat)
    requires ObservedAll(s, s1, scrapeId, pre) && Extends(s1, s2)
    requires i < |pre|
    ensures Observes(s2, |s.links| + i, scrapeId, (pre + [c])[i])
  {
    var j := |s.links| + i;
    assert (pre + [c])[i] == pre[i];
    assert s2.links[..|s1.links|][j] == s2.links[j] == s1.links[j];
    assert s1.links[j].scrapeId == scrapeId && HoldsFact(s1.facts, pre[i], s1.links[j].changeId);
    HoldsFactExtends(s1, s2, pre[i], s1.links[j].changeId);
  }

  lemma ObservedLast(s: Store, s1: Store, s2: Store, scrapeId: int, pre: seq<Candidate>, c: Candidate)
    requires |s1.links| == |s.links| + |pre|
    requires ObservedAll(s1, s2, scrapeId, [c])
    ensures Observes(s2, |s.links| + |pre|, scrapeId, (pre + [c])[|pre|])
  {
    assert (pre + [c])[|pre|] == [c][0];
    assert Observes(s2, |s1.links| + 0, scrapeId, [c][0]);
  }

  lemma ObservedNothing(s: Store, scrapeId: int)
    ensures ObservedAll(s, s, scrapeId, [])
  {
    assert s.links[..|s.links|] == s.links;
    assert forall u :: s.facts.Get(u)[..|s.facts.Get(u)|] == s.facts.Get(u);
  }

  lemma InsertObservesOne(s: Store, scrapeId: int, c: Candidate)
    ensures ObservedAll(s, Insert(s, scrapeId, c.table, c.row), scrapeId, [c])
  {
    InsertObserves(s, scrapeId, c.table, c.row);
    assert [c][0] == Candidate(c.table, c.row);
  }

  /**
   * The calls only append, one link per candidate and in order; the `i`-th
   * new link joins the scrape to a change whose row holds the `i`-th
   * candidate's values.
   */
  lemma {:induction false} InsertAllObserves(s: Store, scrapeId: int, cs: seq<Candidate>)
    ensures ObservedAll(s, InsertAll(s, scrapeId, cs), scrapeId, cs)
    decreases |cs|
  {
    if cs == [] {
      ObservedNothing(s, scrapeId);
    } else {
      var n := |cs| - 1;
      var pre := cs[..n];
      var c := cs[n];
      var s1 := InsertAll(s, scrapeId, pre);
      InsertAllObserves(s, scrapeId, pre);
      InsertObservesOne(s1, scrapeId, c);
      SplitLast(cs);
      InsertAllLast(s, scrapeId, cs);
      ObservedAllStep(s, s1, Insert(s1, scrapeId, c.table, c.row), scrapeId, pre, c);
    }
  }

  /** A non-empty sequence is its prefix followed by its last element. */
  lemma SplitLast(cs: seq<Candidate>)
    requires cs != []
    ensures cs[..|cs| - 1] + [cs[|cs| - 1]] == cs
  {
  }

  /** Running the calls for `a` and then for `b` is running them for `a + b`. */
  lemma {:induction false} InsertAllAppend(s: Store, scrapeId: int, a: seq<Candidate>, b: seq<Candidate>)
    ensures InsertAll(s, scrapeId, a + b) == InsertAll(InsertAll(s, scrapeId, a), scrapeId, b)
    decreases |b|
  {
    if b == [] {
      assert a + b == a;
    } else {
      var n := |b| - 1;
      assert (a + b)[..|a + b| - 1] == a + b[..n];
      assert (a + b)[|a + b| - 1] == b[n];
      InsertAllAppend(s, scrapeId, a, b[..n]);
    }
  }

  /** Some stored row of the candidate's table matches the candidate's values. */
  predicate Present(f: Tables, c: Candidate)
  {
    exists j :: 0 <= j < |f.Get(c.table)| && RowMatches(f.Get(c.table)[j], Values(c.row))
  }

  predicate AllNullFree(cs: seq<Candidate>)
  {
    forall i :: 0 <= i < |cs| ==> NullFree(Values(cs[i].row))
  }

  /** After the calls, every candidate without a NULL is found by the lookup. */
  lemma InsertAllMakesPresent(s: Store, scrapeId: int, cs: seq<Candidate>)
    requires AllNullFree(cs)
    ensures forall i :: 0 <= i < |cs| ==> Present(InsertAll(s, scrapeId, cs).facts, cs[i])
  {
    var s' := InsertAll(s, scrapeId, cs);
    InsertAllObserves(s, scrapeId, cs);
    forall i | 0 <= i < |cs| ensures Present(s'.facts, cs[i]) {
      var f := s'.facts.Get(cs[i].table);
      var j :| 0 <= j < |f| && f[j].changeId == s'.links[|s.links| + i].changeId && f[j].values == Values(cs[i].row);
      assert NullFree(Values(cs[i].row));
      assert RowMatches(f[j], Values(cs[i].row));
    }
  }

  lemma InsertPresent(s: Store, scrapeId: int, c: Candidate)
    requires Present(s.facts, c)
    ensures var s' := Insert(s, scrapeId, c.table, c.row);
      s'.facts == s.facts && s'.changeCount == s.changeCount && s'.scrapes == s.scrapes
  {
    var j :| 0 <= j < |s.facts.Get(c.table)| && RowMatches(s.facts.Get(c.table)[j], Values(c.row));
    assert FirstMatch(s.facts.Get(c.table), Values(c.row)).Some?;
  }

  /**
   * Candidates that are all already present add no fact and no change:
   * each call only links an existing change to the scrape.
   */
  lemma {:induction false} InsertAllPresent(s: Store, scrapeId: int, cs: seq<Candidate>)
    requires forall i :: 0 <= i < |cs| ==> Present(s.facts, cs[i])
    ensures var s' := InsertAll(s, scrapeId, cs);
      s'.facts == s.facts && s'.changeCount == s.changeCount && s'.scrapes == s.scrapes
    decreases |cs|
  {
    if cs != [] {
      var n := |cs| - 1;
      var pre := cs[..n];
      assert forall i :: 0 <= i < n ==> pre[i] == cs[i];
      InsertAllPresent(s, scrapeId, pre);
      InsertPresent(InsertAll(s, scrapeId, pre), scrapeId, cs[n]);
    }
  }


  /** Under the UNIQUE constraint, NULL-free values are held by one row, hence one change. */
  lemma HoldsFactUnique(f: Tables, n: nat, c: Candidate, a: int, b: int)
    requires TableValid(c.table, f.Get(c.table), n) && NullFree(Values(c.row))
    requires HoldsFact(f, c, a) && HoldsFact(f, c, b)
    ensures a == b
  {
    var rows := f.Get(c.table);
    var vals := Values(c.row);
    var ja :| 0 <= ja < |rows| && rows[ja].changeId == a && rows[ja].values == vals;
    var jb :| 0 <= jb < |rows| && rows[jb].changeId == b && rows[jb].values == vals;
    assert RowMatches(rows[ja], vals) && RowMatches(rows[jb], vals);
    AtMostOneMatch(c.table, rows, n, vals, ja, jb);
  }

  /**
   * A NULL-free fact emitted twice within one scrape (a language listed
   * twice, say) is stored once: both of its links carry the same change id.
   */
  lemma RepeatedCandidateSameChange(s: Store, scrapeId: int, cs: seq<Candidate>, i: nat, j: nat)
    requires Inv(s) && 1 <= scrapeId <= |s.scrapes| && AllFit(cs)
    requires i < |cs| && j < |cs| && cs[i] == cs[j] && NullFree(Values(cs[i].row))
    ensures var s2 := InsertAll(s, scrapeId, cs);
      |s2.links| == |s.links| + |cs|
      && s2.links[|s.links| + i].changeId == s2.links[|s.links| + j].changeId
  {
    var s2 := InsertAll(s, scrapeId, cs);
    InsertAllPreservesInv(s, scrapeId, cs);
    InsertAllObserves(s, scrapeId, cs);
    assert Observes(s2, |s.links| + i, scrapeId, cs[i]) && Observes(s2, |s.links| + j, scrapeId, cs[j]);
    assert TableValid(cs[i].table, s2.facts.Get(cs[i].table), s2.changeCount);
    HoldsFactUnique(s2.facts, s2.changeCount, cs[i], s2.links[|s.links| + i].changeId, s2.links[|s.links| + j].changeId);
  }

  /**
   * Storing the same NULL-free facts a second time allocates nothing: the
   * facts and the change count stay, and the second scrape is linked to
   * exactly the changes the first one was linked to, in the same order.
   */
  lemma InsertAllTwice(s: Store, first: int, second: int, cs: seq<Candidate>)
    requires Inv(s) && 1 <= first <= |s.scrapes| && 1 <= second <= |s.scrapes|
    requires AllFit(cs) && AllNullFree(cs)
    ensures |InsertAll(s, first, cs).links| == |s.links| + |cs|
    ensures var s1 := InsertAll(s, first, cs); var s2 := InsertAll(s1, second, cs);
      && s2.facts == s1.facts && s2.changeCount == s1.changeCount
      && |s2.links| == |s1.links| + |cs|
      && var new1 := s1.links[|s.links|..]; var new2 := s2.links[|s1.links|..];
         forall i :: 0 <= i < |cs| ==> new2[i] == Link(new1[i].changeId, second)
  {
    var s1 := InsertAll(s, first, cs);
    InsertAllPreservesInv(s, first, cs);
    InsertAllMakesPresent(s, first, cs);
    InsertAllPresent(s1, second, cs);
    InsertAllObserves(s, first, cs);
    var s2 := InsertAll(s1, second, cs);
    InsertAllObserves(s1, second, cs);
    SameFactsSameLinks(s, s1, s2, first, second, cs);
  }

  /** Two observed runs of NULL-free candidates over the same facts link the same changes. */
  lemma SameFactsSameLinks(s: Store, s1: Store, s2: Store, first: int, second: int, cs: seq<Candidate>)
    requires ObservedAll(s, s1, first, cs) && ObservedAll(s1, s2, second, cs)
    requires s2.facts == s1.facts && Inv(s1) && AllNullFree(cs)
    ensures var new1 := s1.links[|s.links|..]; var new2 := s2.links[|s1.links|..];
      forall i :: 0 <= i < |cs| ==> new2[i] == Link(new1[i].changeId, second)
  {
    var new1 := s1.links[|s.links|..];
    var new2 := s2.links[|s1.links|..];
    forall i | 0 <= i < |cs| ensures new2[i] == Link(new1[i].changeId, second) {
      assert new1[i] == s1.links[|s.links| + i] && new2[i] == s2.links[|s1.links| + i];
      assert Observes(s1, |s.links| + i, first, cs[i]) && Observes(s2, |s1.links| + i, second, cs[i]);
      assert NullFree(Values(cs[i].row));
      assert TableValid(cs[i].table, s1.facts.Get(cs[i].table), s1.changeCount);
      HoldsFactUnique(s1.facts, s1.changeCount, cs[i], new1[i].changeId, new2[i].changeId);
    }
  }

  // ---------------------------------------------------------------------
  // insert_new_scrape
  // ---------------------------------------------------------------------

  /**
   * A new scrape is `scrapes[|scrapes|]`, id `|scrapes| + 1`; the earlier
   * scrapes, the changes, the links and the facts stay as they were, and
   * the invariant is kept.
   */
  lemma AddScrapeKeepsInv(s: Store, timestamp: int)
    requires Inv(s)
    ensures Inv(AddScrape(s, timestamp))
    ensures AddScrape(s, timestamp).scrapes[|s.scrapes|] == timestamp
    ensures |AddScrape(s, timestamp).scrapes| == |s.scrapes| + 1
    ensures AddScrape(s, timestamp).scrapes[..|s.scrapes|] == s.scrapes
    ensures AddScrape(s, timestamp).(scrapes := s.scrapes) == s
  {
  }

  /** The fact inserts never read the scrapes table, so a scrape added before or after them gives the same state. */
  lemma {:induction false} InsertAllAddScrape(s: Store, timestamp: int, scrapeId: int, cs: seq<Candidate>)
    ensures InsertAll(AddScrape(s, timestamp), scrapeId, cs) == AddScrape(InsertAll(s, scrapeId, cs), timestamp)
    decreases |cs|
  {
    if cs != [] {
      var n := |cs| - 1;
      InsertAllAddScrape(s, timestamp, scrapeId, cs[..n]);
      var s1 := InsertAll(s, scrapeId, cs[..n]);
      assert InsertAll(AddScrape(s, timestamp), scrapeId, cs)
          == Insert(AddScrape(s1, timestamp), scrapeId, cs[n].table, cs[n].row);
    }
  }

  /**
   * Two scrapes in a row that carry the same NULL-free candidates: the
   * second adds no fact and no change and is linked, in order, to the very
   * changes the first one was linked to.
   */
  lemma ScrapeTwice(s: Store, ts1: int, ts2: int, cs: seq<Candidate>)
    requires Inv(s) && AllFit(cs) && AllNullFree(cs)
    ensures |InsertAll(AddScrape(s, ts1), |s.scrapes| + 1, cs).links| == |s.links| + |cs|
    ensures var s1 := InsertAll(AddScrape(s, ts1), |s.scrapes| + 1, cs);
      var s2 := InsertAll(AddScrape(s1, ts2), |s1.scrapes| + 1, cs);
      && s2.facts == s1.facts && s2.changeCount == s1.changeCount
      && s2.scrapes == s1.scrapes + [ts2]
      && |s2.links| == |s1.links| + |cs|
      && var new1 := s1.links[|s.links|..]; var new2 := s2.links[|s1.links|..];
         forall i :: 0 <= i < |cs| ==> new2[i] == Link(new1[i].changeId, |s1.scrapes| + 1)
  {
    var first := |s.scrapes| + 1;
    var second := |s.scrapes| + 2;
    var a := AddScrape(s, ts1);
    var s0 := AddScrape(a, ts2);
    AddScrapeKeepsInv(s, ts1);
    AddScrapeKeepsInv(a, ts2);
    var s1 := InsertAll(a, first, cs);
    InsertAllPreservesInv(a, first, cs);
    InsertAllAddScrape(a, ts2, first, cs);
    var m := InsertAll(s0, first, cs);
    assert m == AddScrape(s1, ts2);
    InsertAllTwice(s0, first, second, cs);
    InsertAllPresent(m, second, cs) by {
      InsertAllPreservesInv(s0, first, cs);
      InsertAllMakesPresent(s0, first, cs);
    }
  }
}
