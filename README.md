# limdberator-server: the scrape store, the listen address and the schema translator

This project models, in Dafny, the core of limdberator-server: a service that receives scrape documents about titles and people and stores them as an append-only history.

**The store.** `limdberator/database.py` keeps:
- a `scrapes` table of timestamps;
- an identity table `_changes`;
- five fact tables: `title_info`, `title_tags`, `people_info`, `credits` and `credit_tags`;
- a link table `changes`, which joins each scrape to every fact it observed.

`insert_with_change` is the one place that creates facts. It looks for a stored row equal to the candidate under SQL `=`, where a NULL equals nothing:
- if it finds one, it links that row's change id to the scrape;
- otherwise it allocates a fresh change id, links it, and inserts the row with it.

`store_scraped_title` and `store_scraped_person` create one scrape each and feed it a stream of candidate rows built from the document.

The model has three layers:
- **`DatabaseModel`** (`database_model.dfy`) models the store as a value `Store`. `Insert` is `insert_with_change` and `InsertAll` a sequence of such calls. The invariant `Inv` states the table constraints (NOT NULL, UNIQUE with NULLs distinct) and that each change id is the identity of exactly one fact.
- **`Ingest`** (`ingest_model.dfy`) turns title and person documents into their candidate rows. `StoreTitle` and `StorePerson` are the effects of the two store functions, each one transaction.
- **`Database`** (`database.dfy`) is a class whose fields are the tables. Its methods perform the same steps in place: the column loop, the lookup loop, and the loops over cast members, filmography entries and tags. Each method is proved to end in the state the `DatabaseModel`/`Ingest` functions describe.

**The listen address.** `Web` (`web.dfy`) models `listen_address` of `limdberator/web.py`, the parser of the `--listen` argument. It returns a Unix socket path or a `(host, port)` pair, or raises ValueError. The model computes the result from the last `:` of the argument. Lemmas state each alternative of the regular expression in terms of the argument's shape.

**The schema translator.** `Types` (`types.dfy`) holds:
- the scrape documents of `limdberator/types.py` as datatypes; optional keys become `Option`, and a filmography mapping becomes a sequence of entries in iteration order;
- `schema_from_typing` over an abstract descriptor `TypeDesc`, producing a JSON-like value.

**Where the declared type and the store disagree.** The declared type of a credit's `title_info` is `total=False`, so `tags` may be absent. `store_scraped_person`, however, reads `credit["title_info"]["tags"]` unconditionally (database.py:292). The model follows the code:
- an entry without `tags` makes the call raise a KeyError;
- the transaction is rolled back;
- `StorePerson` is `None`, and `StoreScrapedPerson` returns `false` with the tables unchanged.

## Model

| member | source | states |
|---|---|---|
| Types.DeclareTypedDictSpec | limdberator/types.py:67-72 | A TypedDict class's annotations are its bases' annotations updated, as a dict, with its own: the names are distinct and the names are the inherited and the own ones. An own annotation overrides an inherited one of the same name, and the key-to-type map is that of the bases' fields followed by the own ones. The required keys are distinct; a key is required iff a base requires it or the class is total and declares it; and every required key is annotated when the bases' are. |
| Types.OverriddenAnnotation | limdberator/types.py:35-36 | A subclass annotating `x: str` over a base's untranslatable `x` leaves the single annotation `x: str`, and the subclass translates. |
| Types.Schema | limdberator/types.py:24-61 | `schema_from_typing` as a `Result`: its contract is given by SchemaDefinedIffSupported, RequiredOf and the SchemaOf* lemmas below. |
| Types.Supported | limdberator/types.py:24-61 | The descriptors built only from the cases the translator handles; SchemaDefinedIffSupported proves translation succeeds exactly on them. |
| Types.Properties | limdberator/types.py:35-36 | The `properties` dict filled key by key in annotation order; PropertiesSpec states its keys and values. |
| Types.Collect | limdberator/types.py:42 | A comprehension of translations succeeds iff every element does, with the elements' schemas in order. Otherwise it raises the first element's exception, all earlier ones having succeeded. |
| Types.PropertiesSpec | limdberator/types.py:33-36 | The `properties` keys are exactly the annotated names. Each holds the schema of the last annotation of that name. |
| Types.SchemaDefinedIffSupported | limdberator/types.py:24-61 | The translation raises nothing iff the descriptor is built from str, int, TypedDict, Tuple, List, Mapping with `str` keys, and Union. |
| Types.SchemaOfTypedDict | limdberator/types.py:29-38 | A TypedDict gives an object schema with keys type/required/properties. `required` lists exactly its required keys, and there is one property per annotated key with that annotation's schema. |
| Types.SchemaOfTuple | limdberator/types.py:39-44 | A Tuple gives an array schema: `prefixItems` are the members' schemas in order, and `items` is false. |
| Types.SchemaOfList | limdberator/types.py:45-49 | A List translates iff its element does, to an array schema whose `items` is the element's schema. |
| Types.SchemaOfMapping | limdberator/types.py:50-55 | A Mapping whose key type is not `str` raises AssertionError. With `str` keys it translates iff its value type does, to an object schema whose `additionalProperties` is the value's schema. |
| Types.SchemaOfUnion | limdberator/types.py:56-59 | A Union gives `oneOf` over the members' schemas, in member order. |
| Types.SchemaOfLeaves | limdberator/types.py:25-61 | `str` becomes `{"type": "string"}` and `int` becomes `{"type": "number"}`. Any other leaf raises NotImplementedError. |
| Types.TitleSupported | limdberator/types.py:64-82 | The `ScrapedTitle` declaration, with its inherited keys, is translatable. |
| Types.CreditSupported | limdberator/types.py:85-95 | The `FilmCreditTitleInfo` and `FilmCredit` declarations are translatable. |
| Types.PersonSupported | limdberator/types.py:98-109 | The `ScrapedPerson` declaration, with its `Filmography` mapping, is translatable. |
| Types.ScrapeResultTranslates | limdberator/types.py:112-120 | `ScrapeResult` is supported and its schema is computed without raising. |
| Types.TitleRequiredKeys | limdberator/types.py:67-72 | `ScrapedTitle` requires exactly `id` and `timestamp`, which it inherits from its total base. |
| Types.PersonRequiredKeys | limdberator/types.py:101-106 | `ScrapedPerson` requires exactly `id` and `timestamp`. |
| Types.CreditRequiredKeys | limdberator/types.py:85-95 | `FilmCredit` requires its four keys. `FilmCreditTitleInfo` requires none. |
| Types.TitleDeclaration | limdberator/types.py:67-82 | `ScrapedTitle` has the base's `id` and `timestamp` followed by its ten own keys, and requires `id` and `timestamp`. |
| Types.PersonDeclaration | limdberator/types.py:101-109 | `ScrapedPerson` has the base's `id` and `timestamp` followed by `name`, `birthday` and `filmography`, and requires `id` and `timestamp`. |
| Types.CreditDeclarations | limdberator/types.py:85-95 | `FilmCreditTitleInfo` has its three keys and requires none; `FilmCredit` has its four keys and requires all of them. |
| Types.RequiredOf | limdberator/types.py:37 | The schema's `required` array holds exactly the descriptor's required keys. |
| Web.ParseListenAddress | limdberator/web.py:107-120 | `listen_address` as an `Option` (`None` for ValueError); its contract is given by SocketAlternative, BracketAlternative, HostAlternative and RejectedExactly. |
| Web.DecimalValue | limdberator/web.py:116 | `int(port, 10)` on a digit string; LeadingZeros and DecimalExamples state its values. |
| Web.SocketAlternative | limdberator/web.py:108-120 | An argument containing `/` comes back unchanged as a socket path, even with a `:<digits>` suffix. |
| Web.BracketAlternative | limdberator/web.py:109-118 | Without `/`, `[X]:N` with N digits gives `(X, int(N))`, with host `None` when X is empty. The bracket branch is preferred. |
| Web.HostAlternative | limdberator/web.py:110-118 | Without `/` and not bracketed, `H:N` gives `(H, int(N))`. H is everything before the last colon and may be empty. |
| Web.RejectedExactly | limdberator/web.py:112-114 | ValueError is raised iff the argument has no `/` and no `:<digits>` suffix. |
| Web.FinalNewlineIgnored | limdberator/web.py:112 | `$` matches before a final newline, so appending one does not change the result. |
| Web.InnerNewlineRejected | limdberator/web.py:112 | A newline at any position but the last makes the match fail, with or without a final newline. |
| Web.LeadingZeros | limdberator/web.py:116 | `int(port, 10)` ignores leading zeros. |
| Web.BracketedExample | limdberator/web.py:109-118 | `[::1]:80` gives `("::1", 80)`. |
| Web.EmptyBracketsExample | limdberator/web.py:117 | `[]:80` gives `(None, 80)`. |
| Web.EmptyHostExample | limdberator/web.py:110-118 | `:80` gives `("", 80)`. |
| Web.DecimalExamples | limdberator/web.py:116 | `99999` and `0080` parse to 99999 and 80. |
| Web.LargePortExample | limdberator/web.py:111-116 | `h:99999` gives port 99999: there is no range check. |
| Web.ZeroPaddedPortExample | limdberator/web.py:111-116 | `h:0080` gives port 80. |
| Web.SocketExample | limdberator/web.py:108 | `/run/x.sock:80` is a socket path. |
| Web.NoPortRejected | limdberator/web.py:112-114 | `localhost` raises ValueError. |
| Web.EmptyPortRejected | limdberator/web.py:112-114 | `h:` raises ValueError. |
| Web.NonDigitPortRejected | limdberator/web.py:112-114 | `h:8a` raises ValueError. |
| DatabaseModel.FirstMatch | limdberator/database.py:160-163 | The lookup returns a row equal to the arguments under SQL `=`, where NULL equals nothing. It returns none only when no row matches. It picks the first such row; `LIMIT 1` without `ORDER BY` promises no order, and the choice does not matter because AtMostOneMatch leaves at most one candidate under the invariant. |
| DatabaseModel.AtMostOneMatch | limdberator/database.py:82-124 | Under the UNIQUE constraints at most one row matches any arguments, so `LIMIT 1` never chooses. |
| DatabaseModel.AddScrape | limdberator/database.py:127-129 | `insert_new_scrape`: the next scrape id is the new number of scrapes; AddScrapeKeepsInv states its effect. |
| DatabaseModel.NewChange | limdberator/database.py:132-138 | `insert_new_change`: the next change id, linked to the scrape; InsertMintsFresh states its effect inside `Insert`. |
| DatabaseModel.Insert | limdberator/database.py:141-177 | `insert_with_change` on the store value; InsertReusesMatch, InsertMintsFresh, InsertPreservesInv and InsertObserves state its contract. |
| DatabaseModel.InsertAll | limdberator/database.py:206-230 | `insert_with_change` called once per candidate, in order, for one scrape; InsertAllPreservesInv, InsertAllObserves and InsertAllTwice state its contract. |
| DatabaseModel.InsertNewKeepsInv | limdberator/database.py:170-177 | Inserting a row no stored row equals keeps NOT NULL, UNIQUE, increasing fresh change ids, disjoint ids and the link references valid. |
| DatabaseModel.InsertPreservesInv | limdberator/database.py:141-177 | `insert_with_change` keeps the invariant on both branches. |
| DatabaseModel.InsertReusesMatch | limdberator/database.py:159-168 | When a stored row matches, the new state is the old one with exactly one link (that row's change id, the scrape) appended. |
| DatabaseModel.InsertMintsFresh | limdberator/database.py:132-138 | When nothing matches, the next change id is allocated and is not used by any fact. One link and one fact row are appended, with the candidate's values, to that table only; nothing else changes. |
| DatabaseModel.NullNeverMatches | limdberator/database.py:159-163 | A candidate holding a NULL always mints a new change and a new row. |
| DatabaseModel.InsertObserves | limdberator/database.py:141-177 | Every call only appends and adds exactly one link, from the scrape to a change whose row holds the candidate's values. |
| DatabaseModel.InsertAllPreservesInv | limdberator/database.py:141-177 | A sequence of fitting candidates keeps the invariant and leaves the scrapes unchanged. |
| DatabaseModel.InsertAllObserves | limdberator/database.py:141-177 | The calls only append, one link per candidate and in order. The i-th new link joins the scrape to a change whose row holds the i-th candidate. |
| DatabaseModel.InsertAllMakesPresent | limdberator/database.py:159-177 | After the calls, every NULL-free candidate is found by the lookup. |
| DatabaseModel.InsertPresent | limdberator/database.py:159-168 | A candidate already present changes neither the facts, nor the change count, nor the scrapes, in any store. |
| DatabaseModel.InsertAllPresent | limdberator/database.py:159-168 | Candidates all already present add no fact and no change, in any store. |
| DatabaseModel.HoldsFactUnique | limdberator/database.py:82-124 | NULL-free values are held by at most one row, hence by one change. |
| DatabaseModel.RepeatedCandidateSameChange | limdberator/database.py:141-177 | A NULL-free candidate given twice in one scrape (a language listed twice, say) is stored once: its two links carry the same change id. |
| DatabaseModel.InsertAllTwice | limdberator/database.py:159-177 | Feeding the same NULL-free candidates again keeps the facts and the change count. The second run links, in order, the same changes as the first. |
| DatabaseModel.AddScrapeKeepsInv | limdberator/database.py:127-129 | A new scrape is appended with its timestamp and gets id = new length. The earlier scrapes, the change count, the links and the facts are unchanged, and the invariant is kept. |
| DatabaseModel.ScrapeTwice | limdberator/database.py:127-177 | Two scrapes carrying the same NULL-free candidates: the second adds one scrape, no fact and no change. Its links point to the very changes of the first, in order. |
| Ingest.TitleInfoRows | limdberator/database.py:180-200 | `gen_title_info_data` as a sequence of rows; TitleInfoRowsSpec and TitleInfoRowsFit state its contract. |
| Ingest.TitleInfoRowsSpec | limdberator/database.py:185-200 | There is one row per present scalar key, each once, in the fixed key order title, original_title, rating, rating_count, year, duration, and with the document's value. These are followed by one `language` row per language, in order; an absent list gives none. |
| Ingest.CastCandidates | limdberator/database.py:210-230 | The cast loop's candidates; CastCandidatesSpec and CastCandidatesFit state its contract. |
| Ingest.CastCandidatesSpec | limdberator/database.py:210-230 | Each cast member contributes its `people_info` name row and then its `credits` "actor" row, in cast order, and nothing else. |
| Ingest.TitleInfoRowFits | limdberator/database.py:81-89 | A title_info row with a non-NULL value fits the table and holds no NULL. |
| Ingest.PeopleInfoRowFits | limdberator/database.py:98-106 | A people_info row with a non-NULL value fits the table and holds no NULL. |
| Ingest.CreditRowFits | limdberator/database.py:107-115 | A credits row fits the table. It holds a NULL iff its credit type is NULL, the one nullable column used. |
| Ingest.TitleTagRowFits | limdberator/database.py:90-97 | A title_tags row fits the table and holds no NULL. |
| Ingest.CreditTagRowFits | limdberator/database.py:116-124 | A credit_tags row fits the table and holds no NULL. |
| Ingest.TitleFieldsNotNull | limdberator/database.py:193-198 | A present scalar key never yields NULL for the NOT NULL `value` column. |
| Ingest.TitleInfoRowsFit | limdberator/database.py:185-200 | Every generated title_info row fits its table and holds no NULL. |
| Ingest.CastCandidatesFit | limdberator/database.py:210-230 | The cast candidates fit their tables and hold no NULL. |
| Ingest.TitleCandidatesFit | limdberator/database.py:206-230 | A title document yields \|gen_title_info_data\| + 2·\|cast\| candidates. All fit and none holds a NULL; directors and writers yield nothing. |
| Ingest.StoreTitle | limdberator/database.py:203-230 | `store_scraped_title` on the store value; StoreTitleEffect and StoreTitleTwice state its contract. |
| Ingest.StoreTitleEffect | limdberator/database.py:203-230 | `store_scraped_title` appends one scrape with the document's timestamp, then exactly \|info rows\| + 2·\|cast\| links, each to a change holding its candidate. It keeps the invariant. |
| Ingest.StoreTitleTwice | limdberator/database.py:203-230 | Storing the same title again adds a scrape and links but no fact and no change. The new links point to the same changes, in order. |
| Ingest.EmbeddedTitleRows | limdberator/database.py:280-289 | The title built from a credit yields its `title` row if present, then its `year` row if present, and nothing else. |
| Ingest.EntryCandidates | limdberator/database.py:252-301 | One filmography entry's candidates, or none when `credit["title_info"]["tags"]` raises; EntryCandidatesDefined, EntryCandidatesSpec and EntryCandidatesFit state its contract. |
| Ingest.EntryCandidatesDefined | limdberator/database.py:252-301 | An entry's candidates exist iff its title info has `tags`, and there are `EntryCount` of them. |
| Ingest.EntryCandidatesSpec | limdberator/database.py:252-301 | In order, an entry's candidates are: one credit per credit type, or a single NULL one when the list is empty; one credit tag per tag; at most two title_info rows; one title tag per tag. |
| Ingest.EntryCreditPart | limdberator/database.py:254-265 | The entry's candidates start with one credit per credit type, or a single NULL one when the list is empty. |
| Ingest.EntryCreditAt | limdberator/database.py:254-265 | The i-th candidate of an entry is its credit for the i-th value of `credit_types or [None]`. |
| Ingest.EntryCreditTagPart | limdberator/database.py:267-278 | The credit tags follow the credits, one per tag, in order. |
| Ingest.EntryCreditTagAt | limdberator/database.py:267-278 | The i-th credit tag candidate sits right after the credits, at position i. |
| Ingest.EntryInfoPart | limdberator/database.py:280-289 | The embedded title's info rows follow the credit tags, in order. |
| Ingest.EntryInfoAt | limdberator/database.py:280-289 | The i-th info row of the embedded title sits right after the credit tags, at position i. |
| Ingest.EntryTitleTagPart | limdberator/database.py:291-301 | The title tags come last, one per tag, in order. |
| Ingest.EntryTitleTagAt | limdberator/database.py:291-301 | The title tags come last, one per tag, in order. |
| Ingest.LacksTagsSnoc | limdberator/database.py:292 | Some entry of `pre + [e]` lacks `tags` iff some entry of `pre` lacks them or `e` does. |
| Ingest.CreditCandidatesFit | limdberator/database.py:254-265 | An entry's credit rows fit the credits table. |
| Ingest.CreditTagCandidatesFit | limdberator/database.py:267-278 | An entry's credit tag rows fit the credit_tags table and hold no NULL. |
| Ingest.TitleTagCandidatesFit | limdberator/database.py:291-301 | An entry's title tag rows fit the title_tags table and hold no NULL. |
| Ingest.EntryCandidatesFit | limdberator/database.py:252-301 | An entry's candidates fit their tables, and only a credit (from an empty `credit_type` list) may hold a NULL: every tag and title_info candidate is NULL-free. |
| Ingest.FilmographyCandidatesSpec | limdberator/database.py:252-301 | The filmography raises iff some entry's title info lacks `tags`. Otherwise its candidates fit and number `FilmographyCount`. |
| Ingest.PersonInfoRowsFit | limdberator/database.py:239-250 | The name and birthday rows, one per present key, fit `people_info`. |
| Ingest.PersonCandidates | limdberator/database.py:236-301 | Everything `store_scraped_person` feeds to `insert_with_change`, or none when it raises; StorePersonSucceeds and StorePersonFailsAt state its contract. |
| Ingest.StorePerson | limdberator/database.py:233-301 | `store_scraped_person` on the store value, or none when it raises; StorePersonEffect states its contract. |
| Ingest.StorePersonEffect | limdberator/database.py:233-301 | `store_scraped_person` raises iff an entry lacks `tags`. Otherwise it appends one scrape with the document's timestamp (the placeholder -1 never becomes a scrape) and one link per candidate, each to a change holding it. It keeps the invariant. |
| Database.StorePersonFailsAt | limdberator/database.py:292 | An entry without `tags` at any position makes the whole call fail. |
| Database.StorePersonSucceeds | limdberator/database.py:236-301 | A committed call is the person's info rows followed by the filmography's candidates, and it keeps the invariant. |
| Database.FilmographyStep | limdberator/database.py:252-301 | One more entry with `tags` extends the filmography's candidates by that entry's. |
| Database.GenKeyRows | limdberator/database.py:185-198 | The loop over the six scalar keys yields exactly the key rows of `TitleInfoRows`. |
| Database.GenTitleInfoData | limdberator/database.py:180-200 | The generator's two loops yield exactly `TitleInfoRows(doc)`. |
| Database.Database.constructor | limdberator/database.py:67-124 | A new database is empty and satisfies the invariant. |
| Database.Database.InsertNewScrape | limdberator/database.py:127-129 | Appends the timestamp and returns the new scrape's id, its position plus one. |
| Database.Database.InsertNewChange | limdberator/database.py:132-138 | Allocates the next change id and links it to the scrape. |
| Database.Database.SelectChangeId | limdberator/database.py:159-163 | The scan returns the first matching row's change id. It returns none iff no row matches. |
| Database.Database.InsertWithChange | limdberator/database.py:141-177 | For a row that fits its table (its columns, no NULL in a NOT NULL column), the column/argument loop, the lookup and the two branches end in `Insert(old state, ...)`. |
| Database.Database.InsertEach | limdberator/database.py:208-209 | For fitting candidates, one `insert_with_change` per candidate, in order, ends in `InsertAll`. |
| Database.Database.InsertCast | limdberator/database.py:210-230 | The cast loop, a name row and then an actor credit per member, ends in `InsertAll` of the cast candidates. |
| Database.Database.StoreScrapedTitle | limdberator/database.py:203-230 | The transaction ends in `StoreTitle(old state, doc)` and keeps the invariant. |
| Database.Database.StoreEntry | limdberator/database.py:252-301 | The body for one filmography entry inserts its candidates in order. Without `tags` it reports failure after the title info rows. |
| Database.Database.StoreScrapedPerson | limdberator/database.py:233-301 | On commit the state is `StorePerson(old state, doc)`. Otherwise the KeyError rolls the tables back to the old state. The invariant holds either way. |

## Left out

- `SharedConnection` (database.py:28-64), its asyncio lock and BEGIN/COMMIT/ROLLBACK: each `store_*` call is one atomic transition. The rollback on an exception is modelled as restoring the saved tables.
- The SQL text and the SQLite engine: the f-string query construction and the DDL execution are not modelled. The model covers the semantics of the SELECT and the INSERTs, and the table shapes and UNIQUE/NOT NULL sets of `init_database`.
- SQLite rowid allocation and type affinity: ids come from a counter, and equality is equality of tagged values (`Null | Int | Str`), so an int never equals a text.
- Integer width: timestamps, ids and ports are unbounded integers. SQLite's 64-bit rowids never wrap in practice. Python's sqlite3 raises OverflowError when it binds an int outside the signed 64-bit range (a `timestamp`, `rating_count` or `duration` that large); that raised-error path is not modelled, and the model stores any such value.
- The candidate rows' column order: every caller builds its dicts in the table's column order, so rows are modelled as the column values in schema order.
- `create_app`, the aiohttp handler, jsonschema validation, socket activation, `real_main` and `main` (web.py:44-101, 123-180): network, process and library I/O.
- Web.ParseListenAddress: `\d` and `int` accept non-ASCII digits in Python; the model accepts ASCII digits only.
- Python typing reflection (`__annotations__`, `__required_keys__`, `_name`, `_UnionGenericAlias`): replaced by the descriptor datatype `TypeDesc`. `__required_keys__` is a frozenset; the model keeps the declaration order of the keys.
- The `repr(t)` message of the two exceptions: an error carries the offending descriptor instead.
- DatabaseModel.Insert: defined for any row. The IntegrityError or OperationalError that the INSERT raises for a row with an unknown column or a NULL in a NOT NULL column is not modelled; the methods `InsertWithChange` and `InsertEach` require rows that fit (`Fits`), which every caller's rows are proved to do.
- Types.DeclareTypedDictSpec: the required keys follow typing's rule up to Python 3.12 (the bases' required keys, plus the own keys when `total`). Python 3.13 moves a key that a non-total subclass annotates again to the optional keys; that rule is not modelled.
- Documents are assumed to have the TypedDict shapes, not merely to pass the generated JSON schema. `int` becomes `{"type": "number"}`, which also admits floats, and `Value` has no real numbers. `prefixItems` with `items: false` also admits a cast pair shorter than two, and `for person_id, name in …` (database.py:210) would then fail to unpack it; the model's `CastMember` always has both parts.
