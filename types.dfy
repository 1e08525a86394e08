/**
 * The document shapes of limdberator/types.py and the translator
 * `schema_from_typing`, which turns a typing declaration into a JSON
 * schema.  Python's runtime typing objects are replaced by the abstract
 * descriptor `TypeDesc`; the result is a JSON-like value `Json`.
 */
module Types {
  import opened Wrappers

  // ---------------------------------------------------------------------
  // The scrape documents (types.py:64-120) as Dafny values.  A key of a
  // `total=False` TypedDict is an `Option`; a JSON object used as a
  // Python mapping keeps its key order as a sequence of entries.
  // ---------------------------------------------------------------------

  /** `CastMember = Tuple[str, str]`: (person id, name). */
  datatype CastMember = CastMember(personId: string, name: string)

  datatype ScrapedTitle = ScrapedTitle(
    id: string,
    timestamp: int,
    title: Option<string>,
    originalTitle: Option<string>,
    rating: Option<string>,
    ratingCount: Option<int>,
    year: Option<string>,
    directors: Option<seq<CastMember>>,
    writers: Option<seq<CastMember>>,
    cast: Option<seq<CastMember>>,
    duration: Option<int>,
    languages: Option<seq<string>>)

  /** Declared `total=False`: all three keys are optional, `tags` included. */
  datatype FilmCreditTitleInfo = FilmCreditTitleInfo(
    title: Option<string>,
    year: Option<string>,
    tags: Option<seq<string>>)

  datatype FilmCredit = FilmCredit(
    id: string,
    creditType: seq<string>,
    tags: seq<string>,
    titleInfo: FilmCreditTitleInfo)

  /** One item of `Filmography = Mapping[str, FilmCredit]`, in the order of `.items()`. */
  datatype FilmographyEntry = FilmographyEntry(titleId: string, credit: FilmCredit)

  datatype ScrapedPerson = ScrapedPerson(
    id: string,
    timestamp: int,
    name: Option<string>,
    birthday: Option<string>,
    filmography: Option<seq<FilmographyEntry>>)

  // ---------------------------------------------------------------------
  // Type descriptors and JSON values
  // ---------------------------------------------------------------------

  /** A typing declaration, as far as `schema_from_typing` inspects it. */
  datatype TypeDesc =
    | StrType
    | IntType
      /**
       * A TypedDict: its `__annotations__` dict as items in insertion order
       * (distinct names, as `DeclareTypedDict` builds them) and its
       * `__required_keys__`.
       */
    | TypedDict(name: string, fields: seq<Field>, required: seq<string>)
    | TupleOf(args: seq<TypeDesc>)
    | ListOf(elem: TypeDesc)
    | MappingOf(key: TypeDesc, value: TypeDesc)
    | UnionOf(args: seq<TypeDesc>)
      /** Anything else (`float`, `Optional[...]`'s `NoneType`, ...). */
    | Other(name: string)

  datatype Field = Field(name: string, typ: TypeDesc)

  datatype Json =
    | JBool(b: bool)
    | JStr(s: string)
    | JArray(items: seq<Json>)
    | JObject(members: map<string, Json>)

  /** The two exceptions `schema_from_typing` can raise. */
  datatype SchemaError =
    | AssertionError(culprit: TypeDesc)
    | NotImplementedError(culprit: TypeDesc)

  function Names(fields: seq<Field>): (r: seq<string>)
    ensures |r| == |fields|
    ensures forall i :: 0 <= i < |fields| ==> r[i] == fields[i].name
  {
    seq(|fields|, i requires 0 <= i < |fields| => fields[i].name)
  }

  /** The names of `fields` are pairwise different, as the keys of a dict are. */
  predicate DistinctNames(fields: seq<Field>)
  {
    forall i, j :: 0 <= i < j < |fields| ==> fields[i].name != fields[j].name
  }

  /**
   * The dict that the assignments `d[f.name] = f.typ`, made in the order of
   * `fields`, leave behind: a later assignment to a name wins.
   */
  function Annotations(fields: seq<Field>): (m: map<string, TypeDesc>)
  {
    if fields == [] then map[]
    else
      var n := |fields| - 1;
      Annotations(fields[..n])[fields[n].name := fields[n].typ]
  }

  /** The dict's keys are the annotated names. */
  lemma {:induction false} AnnotationsKeys(fields: seq<Field>)
    ensures forall k :: k in Annotations(fields) <==> k in Names(fields)
  {
    if fields != [] {
      var n := |fields| - 1;
      AnnotationsKeys(fields[..n]);
      assert Names(fields) == Names(fields[..n]) + [fields[n].name];
    }
  }

  /** The item of an already present name takes the new type and keeps its place. */
  function Replace(fields: seq<Field>, f: Field): (r: seq<Field>)
    requires f.name in Names(fields)
  {
    var n := |fields| - 1;
    if fields[n].name == f.name then fields[..n] + [f]
    else
      assert Names(fields) == Names(fields[..n]) + [fields[n].name];
      Replace(fields[..n], f) + [fields[n]]
  }

  lemma {:induction false} ReplaceSpec(fields: seq<Field>, f: Field)
    requires f.name in Names(fields)
    ensures Names(Replace(fields, f)) == Names(fields)
    ensures Annotations(Replace(fields, f)) == Annotations(fields)[f.name := f.typ]
  {
    ReplaceNames(fields, f);
    ReplaceAnnotations(fields, f);
  }

  lemma {:induction false} ReplaceNames(fields: seq<Field>, f: Field)
    requires f.name in Names(fields)
    ensures Names(Replace(fields, f)) == Names(fields)
  {
    var n := |fields| - 1;
    var r := Replace(fields, f);
    assert Names(fields) == Names(fields[..n]) + [fields[n].name];
    if fields[n].name != f.name {
      ReplaceNames(fields[..n], f);
      NamesAppend(Replace(fields[..n], f), [fields[n]]);
    }
  }

  lemma {:induction false} ReplaceAnnotations(fields: seq<Field>, f: Field)
    requires f.name in Names(fields)
    ensures Annotations(Replace(fields, f)) == Annotations(fields)[f.name := f.typ]
  {
    var n := |fields| - 1;
    var last := fields[n];
    var m0 := Annotations(fields[..n]);
    assert Annotations(fields) == m0[last.name := last.typ];
    if last.name == f.name {
      var r := fields[..n] + [f];
      assert r[..n] == fields[..n];
    } else {
      assert f.name in Names(fields[..n]) by {
        assert Names(fields) == Names(fields[..n]) + [last.name];
      }
      var r0 := Replace(fields[..n], f);
      ReplaceAnnotations(fields[..n], f);
      ReplaceLast(r0, last);
      UpdatesCommute(m0, f.name, f.typ, last.name, last.typ);
    }
  }

  /** The dict after one more assignment. */
  lemma ReplaceLast(r0: seq<Field>, last: Field)
    ensures Annotations(r0 + [last]) == Annotations(r0)[last.name := last.typ]
  {
    assert (r0 + [last])[..|r0|] == r0;
  }

  lemma UpdatesCommute(m: map<string, TypeDesc>, k1: string, v1: TypeDesc, k2: string, v2: TypeDesc)
    requires k1 != k2
    ensures m[k1 := v1][k2 := v2] == m[k2 := v2][k1 := v1]
  {
  }

  /**
   * `d[f.name] = f.typ` on a dict kept as its items in insertion order: a
   * present name keeps its place and takes the new type, a new name goes last.
   */
  function Put(fields: seq<Field>, f: Field): (r: seq<Field>)
  {
    if f.name in Names(fields) then Replace(fields, f) else fields + [f]
  }

  /** `d.update(more)`: the items of `more` assigned one by one, in order. */
  function Merge(fields: seq<Field>, more: seq<Field>): (r: seq<Field>)
    decreases |more|
  {
    if more == [] then fields else Merge(Put(fields, more[0]), more[1..])
  }

  /**
   * A class statement `class name(bases..., total=total)` deriving from
   * TypedDict: its annotations are the bases' annotations updated with the
   * class's own, and its required keys are the bases' required keys plus,
   * when `total`, the class's own keys, as a set.
   */
  function DeclareTypedDict(name: string, bases: seq<TypeDesc>, own: seq<Field>, total: bool): (t: TypeDesc)
    ensures t.TypedDict? && t.name == name
  {
    TypedDict(name, Merge([], InheritedFields(bases) + own),
      Dedup(InheritedRequired(bases) + (if total then Names(own) else [])))
  }

  function InheritedFields(bases: seq<TypeDesc>): seq<Field>
  {
    if bases == [] then []
    else (if bases[0].TypedDict? then bases[0].fields else []) + InheritedFields(bases[1..])
  }

  function InheritedRequired(bases: seq<TypeDesc>): seq<string>
  {
    if bases == [] then []
    else (if bases[0].TypedDict? then bases[0].required else []) + InheritedRequired(bases[1..])
  }

  /** The strings of `s`, each once, in order of first occurrence. */
  function Dedup(s: seq<string>): (r: seq<string>)
  {
    if s == [] then []
    else
      var n := |s| - 1;
      var r0 := Dedup(s[..n]);
      if s[n] in r0 then r0 else r0 + [s[n]]
  }

  lemma {:induction false} DedupSpec(s: seq<string>)
    ensures forall k :: k in Dedup(s) <==> k in s
    ensures forall i, j :: 0 <= i < j < |Dedup(s)| ==> Dedup(s)[i] != Dedup(s)[j]
    ensures (forall i, j :: 0 <= i < j < |s| ==> s[i] != s[j]) ==> Dedup(s) == s
  {
    if s != [] {
      var n := |s| - 1;
      DedupSpec(s[..n]);
      assert s == s[..n] + [s[n]];
    }
  }

  lemma {:induction false} AnnotationsAppend(a: seq<Field>, b: seq<Field>, c: seq<Field>)
    requires Annotations(a) == Annotations(b)
    ensures Annotations(a + c) == Annotations(b + c)
    decreases |c|
  {
    if c == [] {
      assert a + c == a && b + c == b;
    } else {
      var n := |c| - 1;
      AnnotationsAppend(a, b, c[..n]);
      var ac, bc := a + c, b + c;
      assert ac[..|ac| - 1] == a + c[..n] && ac[|ac| - 1] == c[n];
      assert bc[..|bc| - 1] == b + c[..n] && bc[|bc| - 1] == c[n];
      assert Annotations(ac) == Annotations(a + c[..n])[c[n].name := c[n].typ];
      assert Annotations(bc) == Annotations(b + c[..n])[c[n].name := c[n].typ];
    }
  }

  /** Putting a name keeps the names distinct. */
  lemma PutDistinct(fields: seq<Field>, f: Field)
    requires DistinctNames(fields)
    ensures DistinctNames(Put(fields, f))
  {
    if f.name in Names(fields) {
      var r := Replace(fields, f);
      ReplaceSpec(fields, f);
      forall i, j | 0 <= i < j < |r| ensures r[i].name != r[j].name {
        assert Names(r)[i] == Names(fields)[i] && Names(r)[j] == Names(fields)[j];
      }
    } else {
      var r := fields + [f];
      forall i, j | 0 <= i < j < |r| ensures r[i].name != r[j].name {
        if j == |fields| {
          assert Names(fields)[i] == fields[i].name;
        }
      }
    }
  }

  /** `Put` is one assignment to the dict. */
  lemma PutAnnotations(fields: seq<Field>, f: Field)
    ensures Annotations(Put(fields, f)) == Annotations(fields + [f])
  {
    var r := fields + [f];
    assert r[..|r| - 1] == fields;
    if f.name in Names(fields) {
      ReplaceSpec(fields, f);
    }
  }

  lemma {:induction false} MergeSpec(fields: seq<Field>, more: seq<Field>)
    ensures Annotations(Merge(fields, more)) == Annotations(fields + more)
    ensures DistinctNames(fields) ==> DistinctNames(Merge(fields, more))
    decreases |more|
  {
    if more == [] {
      assert fields + more == fields;
    } else {
      var p := Put(fields, more[0]);
      var once := fields + [more[0]];
      assert once + more[1..] == fields + more;
      assert Merge(fields, more) == Merge(p, more[1..]);
      if DistinctNames(fields) {
        PutDistinct(fields, more[0]);
      }
      MergeSpec(p, more[1..]);
      PutAnnotations(fields, more[0]);
      AnnotationsAppend(p, once, more[1..]);
    }
  }

  /** Merging names that are all new only appends them. */
  lemma {:induction false} MergeFresh(fields: seq<Field>, more: seq<Field>)
    requires DistinctNames(fields + more)
    ensures Merge(fields, more) == fields + more
    decreases |more|
  {
    if more != [] {
      var all := fields + more;
      forall i | 0 <= i < |fields| ensures Names(fields)[i] != more[0].name {
        assert all[i] == fields[i] && all[|fields|] == more[0];
      }
      assert Put(fields, more[0]) == fields + [more[0]];
      assert fields + [more[0]] + more[1..] == all;
      MergeFresh(fields + [more[0]], more[1..]);
    }
  }

  /**
   * A declaration whose inherited and own names are all distinct, and
   * whose required keys are too, simply concatenates them.
   */
  lemma DeclareFresh(name: string, bases: seq<TypeDesc>, own: seq<Field>, total: bool)
    requires DistinctNames(InheritedFields(bases) + own)
    requires var req := InheritedRequired(bases) + (if total then Names(own) else []);
      forall i, j :: 0 <= i < j < |req| ==> req[i] != req[j]
    ensures DeclareTypedDict(name, bases, own, total)
      == TypedDict(name, InheritedFields(bases) + own, InheritedRequired(bases) + (if total then Names(own) else []))
  {
    MergeFresh([], InheritedFields(bases) + own);
    assert [] + (InheritedFields(bases) + own) == InheritedFields(bases) + own;
    DedupSpec(InheritedRequired(bases) + (if total then Names(own) else []));
  }

  /** The assignment to the last occurrence of a name is the one the dict keeps. */
  lemma {:induction false} AnnotationsLast(fields: seq<Field>, i: nat)
    requires i < |fields| && LastWithName(fields, i)
    ensures fields[i].name in Annotations(fields) && Annotations(fields)[fields[i].name] == fields[i].typ
  {
    var n := |fields| - 1;
    if i < n {
      assert LastWithName(fields[..n], i);
      AnnotationsLast(fields[..n], i);
    }
  }

  lemma {:induction false} InheritedRequiredDeclared(bases: seq<TypeDesc>)
    requires forall b :: b in bases && b.TypedDict? ==> forall k :: k in b.required ==> k in Names(b.fields)
    ensures forall k :: k in InheritedRequired(bases) ==> k in Names(InheritedFields(bases))
  {
    if bases != [] {
      InheritedRequiredDeclared(bases[1..]);
      var b := bases[0];
      var fs := if b.TypedDict? then b.fields else [];
      assert Names(InheritedFields(bases)) == Names(fs) + Names(InheritedFields(bases[1..]));
    }
  }

  /** The merged annotations: distinct names, the dict of the updates, the inherited and own names. */
  lemma DeclaredFields(name: string, bases: seq<TypeDesc>, own: seq<Field>, total: bool)
    ensures var t := DeclareTypedDict(name, bases, own, total);
      && DistinctNames(t.fields)
      && Annotations(t.fields) == Annotations(InheritedFields(bases) + own)
      && (forall k :: k in Names(t.fields) <==> k in Names(InheritedFields(bases)) || k in Names(own))
  {
    var inh := InheritedFields(bases);
    var fs := DeclareTypedDict(name, bases, own, total).fields;
    NamesAppend(inh, own);
    assert [] + (inh + own) == inh + own;
    MergeSpec([], inh + own);
    AnnotationsKeys(fs);
    AnnotationsKeys(inh + own);
  }

  lemma NamesAppend(a: seq<Field>, b: seq<Field>)
    ensures Names(a + b) == Names(a) + Names(b)
  {
  }

  /** An own annotation overrides an inherited one of the same name. */
  lemma DeclaredOverride(name: string, bases: seq<TypeDesc>, own: seq<Field>, total: bool, i: nat)
    requires i < |own| && LastWithName(own, i)
    ensures var t := DeclareTypedDict(name, bases, own, total);
      own[i].name in Annotations(t.fields) && Annotations(t.fields)[own[i].name] == own[i].typ
  {
    var all := InheritedFields(bases) + own;
    var k := |InheritedFields(bases)| + i;
    assert all[k] == own[i];
    assert forall j :: k < j < |all| ==> all[j] == own[j - |InheritedFields(bases)|];
    AnnotationsLast(all, k);
    assert [] + all == all;
    MergeSpec([], all);
  }

  /** The required keys: distinct, the inherited ones and (when total) the own ones, all annotated. */
  lemma DeclaredRequired(name: string, bases: seq<TypeDesc>, own: seq<Field>, total: bool)
    ensures var t := DeclareTypedDict(name, bases, own, total);
      && (forall i, j :: 0 <= i < j < |t.required| ==> t.required[i] != t.required[j])
      && (forall k :: k in t.required <==> k in InheritedRequired(bases) || (total && k in Names(own)))
    ensures (forall b :: b in bases && b.TypedDict? ==> forall k :: k in b.required ==> k in Names(b.fields)) ==>
      var t := DeclareTypedDict(name, bases, own, total);
      forall k :: k in t.required ==> k in Names(t.fields)
  {
    DedupSpec(InheritedRequired(bases) + (if total then Names(own) else []));
    if forall b :: b in bases && b.TypedDict? ==> forall k :: k in b.required ==> k in Names(b.fields) {
      InheritedRequiredDeclared(bases);
      DeclaredFields(name, bases, own, total);
    }
  }

  /**
   * The TypedDict a class statement declares (typing's metaclass): the
   * annotation names are distinct; the class's own annotation of a name
   * overrides the one it inherits, and an inherited name keeps its type
   * otherwise; the annotated names are the inherited and the own ones; the
   * required keys are distinct, are the inherited required keys plus, when
   * `total`, the own keys, and are all annotated when the bases' are.
   */
  lemma DeclareTypedDictSpec(name: string, bases: seq<TypeDesc>, own: seq<Field>, total: bool)
    ensures var t := DeclareTypedDict(name, bases, own, total);
      && DistinctNames(t.fields)
      && Annotations(t.fields) == Annotations(InheritedFields(bases) + own)
      && (forall k :: k in Names(t.fields) <==> k in Names(InheritedFields(bases)) || k in Names(own))
      && (forall i :: 0 <= i < |own| && LastWithName(own, i) ==>
            own[i].name in Annotations(t.fields) && Annotations(t.fields)[own[i].name] == own[i].typ)
      && (forall i, j :: 0 <= i < j < |t.required| ==> t.required[i] != t.required[j])
      && (forall k :: k in t.required <==> k in InheritedRequired(bases) || (total && k in Names(own)))
    ensures (forall b :: b in bases && b.TypedDict? ==> forall k :: k in b.required ==> k in Names(b.fields)) ==>
      var t := DeclareTypedDict(name, bases, own, total);
      forall k :: k in t.required ==> k in Names(t.fields)
  {
    DeclaredFields(name, bases, own, total);
    forall i | 0 <= i < |own| && LastWithName(own, i)
      ensures var t := DeclareTypedDict(name, bases, own, total);
        own[i].name in Annotations(t.fields) && Annotations(t.fields)[own[i].name] == own[i].typ
    {
      DeclaredOverride(name, bases, own, total, i);
    }
    DeclaredRequired(name, bases, own, total);
  }

  /**
   * A subclass that annotates an inherited name again replaces its type: a
   * base annotating `x: float` (untranslatable) with a subclass annotating
   * `x: str` translates, since only `x: str` remains.
   */
  lemma OverriddenAnnotation()
    ensures var t := DeclareTypedDict("D", [DeclareTypedDict("B", [], [Field("x", Other("float"))], true)],
                                      [Field("x", StrType)], true);
      t.fields == [Field("x", StrType)] && Schema(t).Ok?
  {
    var x := Field("x", Other("float"));
    var b := DeclareTypedDict("B", [], [x], true);
    assert InheritedFields([b]) == [x] by {
      DeclareRoot("B", [x], true);
      assert [b][1..] == [];
    }
    var t := DeclareTypedDict("D", [b], [Field("x", StrType)], true);
    assert t.fields == Merge([], [x, Field("x", StrType)]);
    MergeOverride(x, Field("x", StrType));
    SchemaDefinedIffSupported(t);
  }

  /** Two assignments to one name leave only the second. */
  lemma MergeOverride(f: Field, g: Field)
    requires f.name == g.name
    ensures Merge([], [f, g]) == [g]
  {
    assert [f, g][1..] == [g] && [g][1..] == [];
    assert Names([f]) == [f.name];
    calc {
      Merge([], [f, g]);
      Merge(Put([], f), [g]);
      { assert Put([], f) == [f]; }
      Merge([f], [g]);
      Merge(Put([f], g), []);
      { assert Put([f], g) == Replace([f], g) == [g]; }
      [g];
    }
  }

  // The declarations of types.py:64-120.

  const CastMemberType: TypeDesc := TupleOf([StrType, StrType])

  const IdAndTimestamp: seq<Field> := [Field("id", StrType), Field("timestamp", IntType)]

  const ScrapedTitleBaseType: TypeDesc := DeclareTypedDict("_ScrapedTitle", [], IdAndTimestamp, true)

  const ScrapedTitleOwn: seq<Field> :=
    [ Field("title", StrType), Field("original_title", StrType), Field("rating", StrType),
      Field("rating_count", IntType), Field("year", StrType),
      Field("directors", ListOf(CastMemberType)), Field("writers", ListOf(CastMemberType)),
      Field("cast", ListOf(CastMemberType)), Field("duration", IntType),
      Field("languages", ListOf(StrType)) ]

  const ScrapedTitleType: TypeDesc := DeclareTypedDict("ScrapedTitle", [ScrapedTitleBaseType], ScrapedTitleOwn, false)

  const FilmCreditTitleInfoOwn: seq<Field> :=
    [Field("title", StrType), Field("year", StrType), Field("tags", ListOf(StrType))]

  const FilmCreditTitleInfoType: TypeDesc := DeclareTypedDict("FilmCreditTitleInfo", [], FilmCreditTitleInfoOwn, false)

  const FilmCreditOwn: seq<Field> :=
    [ Field("id", StrType), Field("credit_type", ListOf(StrType)), Field("tags", ListOf(StrType)),
      Field("title_info", FilmCreditTitleInfoType) ]

  const FilmCreditType: TypeDesc := DeclareTypedDict("FilmCredit", [], FilmCreditOwn, true)

  const FilmographyType: TypeDesc := MappingOf(StrType, FilmCreditType)

  const ScrapedPersonBaseType: TypeDesc := DeclareTypedDict("_ScrapedPerson", [], IdAndTimestamp, true)

  const ScrapedPersonOwn: seq<Field> :=
    [Field("name", StrType), Field("birthday", StrType), Field("filmography", FilmographyType)]

  const ScrapedPersonType: TypeDesc := DeclareTypedDict("ScrapedPerson", [ScrapedPersonBaseType], ScrapedPersonOwn, false)

  const ScrapeResultTitleType: TypeDesc := DeclareTypedDict("ScrapeResultTitle", [], [Field("title", ScrapedTitleType)], true)

  const ScrapeResultPersonType: TypeDesc :=
    DeclareTypedDict("ScrapeResultPerson", [], [Field("person", ScrapedPersonType)], true)

  const ScrapeResultType: TypeDesc := UnionOf([ScrapeResultTitleType, ScrapeResultPersonType])

  // ---------------------------------------------------------------------
  // schema_from_typing
  // ---------------------------------------------------------------------

  /**
   * The results of several translations, or the first exception raised
   * while computing them left to right.
   */
  function Collect<T, E>(rs: seq<Result<T, E>>): (r: Result<seq<T>, E>)
    ensures r.Ok? <==> forall i :: 0 <= i < |rs| ==> rs[i].Ok?
    ensures r.Ok? ==> |r.value| == |rs| && forall i :: 0 <= i < |rs| ==> r.value[i] == rs[i].value
    ensures r.Err? ==> exists i :: 0 <= i < |rs| && rs[i] == Err(r.error) && forall k :: 0 <= k < i ==> rs[k].Ok?
  {
    if rs == [] then Ok([])
    else match rs[0]
      case Err(e) => Err(e)
      case Ok(v) =>
        match Collect(rs[1..])
        case Err(e) => Err(e)
        case Ok(vs) => Ok([v] + vs)
  }

  /** No later field of `fields` carries the name of field `i`. */
  predicate LastWithName(fields: seq<Field>, i: nat)
    requires i < |fields|
  {
    forall j :: i < j < |fields| ==> fields[j].name != fields[i].name
  }

  /**
   * The `properties` dict filled key by key (types.py:35-36): one entry
   * per annotated key, holding the schema of the last annotation of that key.
   */
  function Properties(fields: seq<Field>, schemas: seq<Json>): (m: map<string, Json>)
    requires |schemas| == |fields|
  {
    if fields == [] then map[]
    else
      var n := |fields| - 1;
      Properties(fields[..n], schemas[..n])[fields[n].name := schemas[n]]
  }

  /** The keys of `properties` are the annotated names; each holds its last annotation's schema. */
  lemma {:induction false} PropertiesSpec(fields: seq<Field>, schemas: seq<Json>)
    requires |schemas| == |fields|
    ensures forall k :: k in Properties(fields, schemas) <==> k in Names(fields)
    ensures forall i :: 0 <= i < |fields| && LastWithName(fields, i) ==>
      Properties(fields, schemas)[fields[i].name] == schemas[i]
  {
    PropertiesKeys(fields, schemas);
    PropertiesLast(fields, schemas);
  }

  lemma {:induction false} PropertiesKeys(fields: seq<Field>, schemas: seq<Json>)
    requires |schemas| == |fields|
    ensures forall k :: k in Properties(fields, schemas) <==> k in Names(fields)
  {
    if fields != [] {
      var n := |fields| - 1;
      PropertiesKeys(fields[..n], schemas[..n]);
      assert Names(fields) == Names(fields[..n]) + [fields[n].name];
    }
  }

  lemma {:induction false} PropertiesLast(fields: seq<Field>, schemas: seq<Json>)
    requires |schemas| == |fields|
    ensures forall i :: 0 <= i < |fields| && LastWithName(fields, i) ==>
      fields[i].name in Properties(fields, schemas) && Properties(fields, schemas)[fields[i].name] == schemas[i]
  {
    if fields != [] {
      var n := |fields| - 1;
      PropertiesLast(fields[..n], schemas[..n]);
      forall i | 0 <= i < |fields| && LastWithName(fields, i)
        ensures fields[i].name in Properties(fields, schemas) && Properties(fields, schemas)[fields[i].name] == schemas[i]
      {
        if i < n {
          assert LastWithName(fields[..n], i);
        }
      }
    }
  }

  function StrArray(ss: seq<string>): (j: Json)
  {
    JArray(seq(|ss|, i requires 0 <= i < |ss| => JStr(ss[i])))
  }

  function Schema(t: TypeDesc): (r: Result<Json, SchemaError>)
  {
    match t
    case StrType => Ok(JObject(map["type" := JStr("string")]))
    case IntType => Ok(JObject(map["type" := JStr("number")]))
    case TypedDict(_, fields, required) =>
      var rs := seq(|fields|, i requires 0 <= i < |fields| => Schema(fields[i].typ));
      (match Collect(rs)
       case Err(e) => Err(e)
       case Ok(schemas) =>
         Ok(JObject(map[
           "type" := JStr("object"),
           "required" := StrArray(required),
           "properties" := JObject(Properties(fields, schemas))])))
    case TupleOf(args) =>
      var rs := seq(|args|, i requires 0 <= i < |args| => Schema(args[i]));
      (match Collect(rs)
       case Err(e) => Err(e)
       case Ok(schemas) =>
         Ok(JObject(map["type" := JStr("array"), "prefixItems" := JArray(schemas), "items" := JBool(false)])))
    case ListOf(elem) =>
      (match Schema(elem)
       case Err(e) => Err(e)
       case Ok(s) => Ok(JObject(map["type" := JStr("array"), "items" := s])))
    case MappingOf(key, value) =>
      if key != StrType then Err(AssertionError(t))
      else
        (match Schema(value)
         case Err(e) => Err(e)
         case Ok(s) => Ok(JObject(map["type" := JStr("object"), "additionalProperties" := s])))
    case UnionOf(args) =>
      var rs := seq(|args|, i requires 0 <= i < |args| => Schema(args[i]));
      (match Collect(rs)
       case Err(e) => Err(e)
       case Ok(schemas) => Ok(JObject(map["oneOf" := JArray(schemas)])))
    case Other(_) => Err(NotImplementedError(t))
  }

  // ---------------------------------------------------------------------
  // What the translation promises
  // ---------------------------------------------------------------------

  /** The descriptors `schema_from_typing` translates without raising. */
  predicate Supported(t: TypeDesc)
  {
    match t
    case StrType => true
    case IntType => true
    case TypedDict(_, fields, _) => forall i :: 0 <= i < |fields| ==> Supported(fields[i].typ)
    case TupleOf(args) => forall i :: 0 <= i < |args| ==> Supported(args[i])
    case ListOf(elem) => Supported(elem)
    case MappingOf(key, value) => key == StrType && Supported(value)
    case UnionOf(args) => forall i :: 0 <= i < |args| ==> Supported(args[i])
    case Other(_) => false
  }

  /** The translation succeeds exactly on supported descriptors (types.py:24-61). */
  lemma {:induction false} SchemaDefinedIffSupported(t: TypeDesc)
    ensures Schema(t).Ok? <==> Supported(t)
    decreases t
  {
    match t
    case StrType =>
    case IntType =>
    case TypedDict(_, fields, _) =>
      forall i | 0 <= i < |fields|
        ensures Schema(fields[i].typ).Ok? <==> Supported(fields[i].typ)
      {
        SchemaDefinedIffSupported(fields[i].typ);
      }
      var rs := seq(|fields|, i requires 0 <= i < |fields| => Schema(fields[i].typ));
      assert forall i :: 0 <= i < |fields| ==> rs[i] == Schema(fields[i].typ);
    case TupleOf(args) =>
      forall i | 0 <= i < |args| ensures Schema(args[i]).Ok? <==> Supported(args[i]) {
        SchemaDefinedIffSupported(args[i]);
      }
      var rs := seq(|args|, i requires 0 <= i < |args| => Schema(args[i]));
      assert forall i :: 0 <= i < |args| ==> rs[i] == Schema(args[i]);
    case ListOf(elem) =>
      SchemaDefinedIffSupported(elem);
    case MappingOf(key, value) =>
      SchemaDefinedIffSupported(value);
    case UnionOf(args) =>
      forall i | 0 <= i < |args| ensures Schema(args[i]).Ok? <==> Supported(args[i]) {
        SchemaDefinedIffSupported(args[i]);
      }
      var rs := seq(|args|, i requires 0 <= i < |args| => Schema(args[i]));
      assert forall i :: 0 <= i < |args| ==> rs[i] == Schema(args[i]);
    case Other(_) =>
  }

  /** The strings listed in a schema's `required` array. */
  function RequiredSet(j: Json): set<string>
  {
    if j.JObject? && "required" in j.members && j.members["required"].JArray? then
      set i | 0 <= i < |j.members["required"].items| && j.members["required"].items[i].JStr?
        :: j.members["required"].items[i].s
    else {}
  }

  /**
   * A TypedDict becomes an object schema with one property per annotated
   * key (inherited keys included) holding that annotation's schema, and
   * with `required` listing exactly its required keys (types.py:29-38).
   */
  lemma SchemaOfTypedDict(name: string, fields: seq<Field>, required: seq<string>)
    requires Supported(TypedDict(name, fields, required))
    ensures Schema(TypedDict(name, fields, required)).Ok?
    ensures var j := Schema(TypedDict(name, fields, required)).value;
      && j.JObject?
      && j.members.Keys == {"type", "required", "properties"}
      && j.members["type"] == JStr("object")
      && RequiredSet(j) == (set k | k in required)
      && j.members["properties"].JObject?
      && (forall k :: k in j.members["properties"].members <==> k in Names(fields))
      && forall i :: 0 <= i < |fields| && LastWithName(fields, i) ==>
           Schema(fields[i].typ) == Ok(j.members["properties"].members[fields[i].name])
  {
    SchemaDefinedIffSupported(TypedDict(name, fields, required));
    var rs := seq(|fields|, i requires 0 <= i < |fields| => Schema(fields[i].typ));
    PropertiesSpec(fields, Collect(rs).value);
    var j := Schema(TypedDict(name, fields, required)).value;
    var items := j.members["required"].items;
    assert items == seq(|required|, i requires 0 <= i < |required| => JStr(required[i]));
    forall k | k in required ensures k in RequiredSet(j) {
      var i :| 0 <= i < |required| && required[i] == k;
      assert items[i] == JStr(k);
    }
  }

  /**
   * `Tuple[A1..An]` becomes an array schema whose `prefixItems` are the
   * schemas of A1..An in order and which admits no further items
   * (types.py:39-44).
   */
  lemma SchemaOfTuple(args: seq<TypeDesc>)
    requires Supported(TupleOf(args))
    ensures Schema(TupleOf(args)).Ok?
    ensures var j := Schema(TupleOf(args)).value;
      && j.JObject?
      && j.members.Keys == {"type", "prefixItems", "items"}
      && j.members["type"] == JStr("array")
      && j.members["items"] == JBool(false)
      && j.members["prefixItems"].JArray?
      && |j.members["prefixItems"].items| == |args|
      && forall i :: 0 <= i < |args| ==> Schema(args[i]) == Ok(j.members["prefixItems"].items[i])
  {
    SchemaDefinedIffSupported(TupleOf(args));
  }

  /** `Union[A1..An]` becomes `oneOf` over the schemas of A1..An in order (types.py:56-59). */
  lemma SchemaOfUnion(args: seq<TypeDesc>)
    requires Supported(UnionOf(args))
    ensures Schema(UnionOf(args)).Ok?
    ensures var j := Schema(UnionOf(args)).value;
      && j.JObject?
      && j.members.Keys == {"oneOf"}
      && j.members["oneOf"].JArray?
      && |j.members["oneOf"].items| == |args|
      && forall i :: 0 <= i < |args| ==> Schema(args[i]) == Ok(j.members["oneOf"].items[i])
  {
    SchemaDefinedIffSupported(UnionOf(args));
  }

  /** `List[A]` becomes an array schema whose `items` is the schema of A (types.py:45-49). */
  lemma SchemaOfList(value: TypeDesc)
    ensures Schema(ListOf(value)).Ok? <==> Schema(value).Ok?
    ensures Schema(value).Ok? ==>
      Schema(ListOf(value)).value == JObject(map["type" := JStr("array"), "items" := Schema(value).value])
  {
  }

  /**
   * `Mapping[K, V]` becomes an object schema whose `additionalProperties`
   * is the schema of V, provided K is `str`; any other K fails the
   * assertion (types.py:50-55).
   */
  lemma SchemaOfMapping(key: TypeDesc, value: TypeDesc)
    ensures key != StrType ==> Schema(MappingOf(key, value)) == Err(AssertionError(MappingOf(key, value)))
    ensures key == StrType ==> (Schema(MappingOf(key, value)).Ok? <==> Schema(value).Ok?)
    ensures key == StrType && Schema(value).Ok? ==>
      Schema(MappingOf(key, value)).value
        == JObject(map["type" := JStr("object"), "additionalProperties" := Schema(value).value])
  {
  }

  /**
   * The scalar types: `str` is a string schema, `int` a number schema, and
   * every other leaf raises NotImplementedError (types.py:25-28, 60-61).
   */
  lemma SchemaOfLeaves(name: string)
    ensures Schema(StrType) == Ok(JObject(map["type" := JStr("string")]))
    ensures Schema(IntType) == Ok(JObject(map["type" := JStr("number")]))
    ensures Schema(Other(name)) == Err(NotImplementedError(Other(name)))
  {
  }

  /** A declaration without bases whose names are distinct: its own fields, in order. */
  lemma DeclareRoot(name: string, own: seq<Field>, total: bool)
    requires DistinctNames(own)
    ensures var req := if total then Names(own) else [];
      DeclareTypedDict(name, [], own, total) == TypedDict(name, own, req)
  {
    assert InheritedFields([]) + own == own;
    DeclareFresh(name, [], own, total);
  }

  /** A `total=False` subclass of one base adding fresh names: the base's fields, then its own. */
  lemma DeclareOnBase(name: string, base: TypeDesc, own: seq<Field>)
    requires base.TypedDict? && DistinctNames(base.fields + own)
    requires forall i, j :: 0 <= i < j < |base.required| ==> base.required[i] != base.required[j]
    ensures DeclareTypedDict(name, [base], own, false) == TypedDict(name, base.fields + own, base.required)
  {
    assert [base][1..] == [];
    assert InheritedFields([base]) == base.fields;
    assert InheritedRequired([base]) == base.required;
    assert base.required + [] == base.required;
    DeclareFresh(name, [base], own, false);
  }

  lemma IdAndTimestampBase(name: string)
    ensures DeclareTypedDict(name, [], IdAndTimestamp, true) == TypedDict(name, IdAndTimestamp, ["id", "timestamp"])
  {
    DeclareRoot(name, IdAndTimestamp, true);
  }

  /** `ScrapedTitle`: the two base keys, then its ten own keys; `id` and `timestamp` required. */
  lemma TitleDeclaration()
    ensures ScrapedTitleType == TypedDict("ScrapedTitle", IdAndTimestamp + ScrapedTitleOwn, ["id", "timestamp"])
  {
    IdAndTimestampBase("_ScrapedTitle");
    TitleNamesDistinct();
    DeclareOnBase("ScrapedTitle", ScrapedTitleBaseType, ScrapedTitleOwn);
  }

  lemma TitleNamesDistinct()
    ensures DistinctNames(IdAndTimestamp + ScrapedTitleOwn)
  {
    var names := ["id", "timestamp", "title", "original_title", "rating", "rating_count", "year",
                  "directors", "writers", "cast", "duration", "languages"];
    assert Names(IdAndTimestamp + ScrapedTitleOwn) == names;
    assert forall i, j :: 0 <= i < j < |names| ==> names[i] != names[j];
  }

  /** `ScrapedPerson`: the two base keys, then its three own keys; `id` and `timestamp` required. */
  lemma PersonDeclaration()
    ensures ScrapedPersonType == TypedDict("ScrapedPerson", IdAndTimestamp + ScrapedPersonOwn, ["id", "timestamp"])
  {
    IdAndTimestampBase("_ScrapedPerson");
    PersonNamesDistinct();
    DeclareOnBase("ScrapedPerson", ScrapedPersonBaseType, ScrapedPersonOwn);
  }

  lemma PersonNamesDistinct()
    ensures DistinctNames(IdAndTimestamp + ScrapedPersonOwn)
  {
    assert IdAndTimestamp + ScrapedPersonOwn == [Field("id", StrType), Field("timestamp", IntType),
      Field("name", StrType), Field("birthday", StrType), Field("filmography", FilmographyType)];
  }

  lemma CreditDeclarations()
    ensures FilmCreditTitleInfoType == TypedDict("FilmCreditTitleInfo", FilmCreditTitleInfoOwn, [])
    ensures FilmCreditType == TypedDict("FilmCredit", FilmCreditOwn, ["id", "credit_type", "tags", "title_info"])
  {
    CreditTitleInfoDeclaration();
    FilmCreditDeclaration();
  }

  lemma CreditTitleInfoDeclaration()
    ensures FilmCreditTitleInfoType == TypedDict("FilmCreditTitleInfo", FilmCreditTitleInfoOwn, [])
  {
    DeclareRoot("FilmCreditTitleInfo", FilmCreditTitleInfoOwn, false);
  }

  lemma FilmCreditDeclaration()
    ensures FilmCreditType == TypedDict("FilmCredit", FilmCreditOwn, ["id", "credit_type", "tags", "title_info"])
  {
    assert Names(FilmCreditOwn) == ["id", "credit_type", "tags", "title_info"];
    DeclareRoot("FilmCredit", FilmCreditOwn, true);
  }

  /** The declarations of types.py:64-120 are translatable, each in turn. */
  lemma TitleSupported()
    ensures Supported(ScrapedTitleType)
  {
    TitleDeclaration();
    assert Supported(CastMemberType);
  }

  lemma CreditSupported()
    ensures Supported(FilmCreditTitleInfoType) && Supported(FilmCreditType)
  {
    CreditTitleInfoDeclaration();
    assert Supported(FilmCreditTitleInfoType);
    FilmCreditDeclaration();
  }

  lemma PersonSupported()
    ensures Supported(ScrapedPersonType)
  {
    CreditSupported();
    PersonDeclaration();
    assert Supported(FilmographyType);
  }

  /** `ScrapeResult` is translated without raising (web.py:73 computes it at import). */
  lemma ScrapeResultTranslates()
    ensures Supported(ScrapeResultType) && Schema(ScrapeResultType).Ok?
  {
    ScrapeResultTitleSupported();
    ScrapeResultPersonSupported();
    SchemaDefinedIffSupported(ScrapeResultType);
  }

  lemma ScrapeResultTitleSupported()
    ensures Supported(ScrapeResultTitleType)
  {
    TitleSupported();
    DeclareRoot("ScrapeResultTitle", [Field("title", ScrapedTitleType)], true);
  }

  lemma ScrapeResultPersonSupported()
    ensures Supported(ScrapeResultPersonType)
  {
    PersonSupported();
    DeclareRoot("ScrapeResultPerson", [Field("person", ScrapedPersonType)], true);
  }

  /**
   * The required keys are `id` and `timestamp` for both scrape kinds
   * (inherited from their total base classes), all four keys of the total
   * `FilmCredit`, and none of `FilmCreditTitleInfo`.
   */
  lemma TitleRequiredKeys()
    ensures Schema(ScrapedTitleType).Ok? && RequiredSet(Schema(ScrapedTitleType).value) == {"id", "timestamp"}
  {
    TitleSupported();
    TitleDeclaration();
    RequiredOf(ScrapedTitleType, ["id", "timestamp"]);
  }

  lemma PersonRequiredKeys()
    ensures Schema(ScrapedPersonType).Ok? && RequiredSet(Schema(ScrapedPersonType).value) == {"id", "timestamp"}
  {
    PersonSupported();
    PersonDeclaration();
    RequiredOf(ScrapedPersonType, ["id", "timestamp"]);
  }

  lemma CreditRequiredKeys()
    ensures Schema(FilmCreditType).Ok?
      && RequiredSet(Schema(FilmCreditType).value) == {"id", "credit_type", "tags", "title_info"}
    ensures Schema(FilmCreditTitleInfoType).Ok? && RequiredSet(Schema(FilmCreditTitleInfoType).value) == {}
  {
    FilmCreditRequiredKeys();
    TitleInfoRequiredKeys();
  }

  lemma FilmCreditRequiredKeys()
    ensures Schema(FilmCreditType).Ok?
      && RequiredSet(Schema(FilmCreditType).value) == {"id", "credit_type", "tags", "title_info"}
  {
    var req := ["id", "credit_type", "tags", "title_info"];
    assert (set k | k in req) == {"id", "credit_type", "tags", "title_info"};
    CreditSupported();
    FilmCreditDeclaration();
    RequiredOf(FilmCreditType, req);
  }

  lemma TitleInfoRequiredKeys()
    ensures Schema(FilmCreditTitleInfoType).Ok? && RequiredSet(Schema(FilmCreditTitleInfoType).value) == {}
  {
    CreditSupported();
    CreditTitleInfoDeclaration();
    RequiredOf(FilmCreditTitleInfoType, []);
  }

  lemma RequiredOf(t: TypeDesc, required: seq<string>)
    requires t.TypedDict? && Supported(t) && t.required == required
    ensures Schema(t).Ok? && RequiredSet(Schema(t).value) == set k | k in required
  {
    SchemaOfTypedDict(t.name, t.fields, t.required);
  }
}
