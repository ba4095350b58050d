/**
 * src/app/services/influencers.service.ts: the repository over the
 * `influencers` collection. It lists the collection in email order, page by
 * page; it searches by name and by email through tiers of queries whose
 * failures (before the last) are swallowed; it reads one document; and it
 * writes: `create` adds a normalised, cleaned document with server
 * timestamps, `update` merges a normalised, cleaned patch, `remove` deletes.
 */
module Repository {
  import opened Values
  import Text
  import opened Order
  import opened Normalize
  import opened Store
  import opened Search

  // ---------------------------------------------------------------
  // listChunk
  // ---------------------------------------------------------------

  /** `{ items, lastEmail, ended }` */
  datatype Chunk = Chunk(items: seq<Row>, lastEmail: Value, ended: bool)

  /** `orderBy('email')`, `startAfter(lastEmail)` when the cursor is truthy,
      `limit(pageSize)`. */
  function ChunkQuery(pageSize: int, lastEmail: Value): Query {
    Range("email", if Truthy(lastEmail) then After(lastEmail) else Unbounded, None, pageSize)
  }

  /** The `email` field of the last document of a chunk, or `null` when the
      chunk is empty or its last document has no `email`. */
  function LastEmail(ds: seq<Doc>): Value {
    if ds == [] then Null
    else
      var e := Field(ds[|ds| - 1], "email");
      if Nullish(e) then Null else e
  }

  /** `listChunk(pageSize, lastEmail)` over the collection `c`. */
  function ChunkOf(c: Collection, pageSize: int, lastEmail: Value): Result<Chunk> {
    ChunkFrom(Execute(c, ChunkQuery(pageSize, lastEmail)), pageSize)
  }

  /** The page built from the query's outcome. */
  function ChunkFrom(o: Outcome, pageSize: int): Result<Chunk> {
    match o
    case Failed => Failure("query failed")
    case Ok(ds) => Success(Chunk(Rows(ds), LastEmail(ds), ds == [] || |ds| < pageSize))
  }

  /** A page fails exactly when the limit is below 1 or the query fails. */
  lemma ChunkFails(c: Collection, pageSize: int, lastEmail: Value)
    ensures ChunkOf(c, pageSize, lastEmail).Failure? <==>
      pageSize < 1 || ChunkQuery(pageSize, lastEmail) in c.failing
  {
  }

  /** A page holds the rows of at most `pageSize` documents of the
      collection, each with an email and, after a truthy cursor, an email
      sorting after it, in the store's email order. */
  lemma ChunkShape(c: Collection, pageSize: int, lastEmail: Value)
    requires pageSize >= 1 && ChunkQuery(pageSize, lastEmail) !in c.failing
    ensures var ds := Execute(c, ChunkQuery(pageSize, lastEmail)).docs;
      && ChunkOf(c, pageSize, lastEmail).value.items == Rows(ds)
      && |ds| <= pageSize
      && Sorted("email", ds)
      && (forall d :: d in ds ==> d in c.docs && Field(d, "email") != Undef)
      && (Truthy(lastEmail) ==> forall d :: d in ds ==> Lt(lastEmail, Field(d, "email")))
  {
    var q := ChunkQuery(pageSize, lastEmail);
    ExecuteMembers(c, q);
    ExecuteSorted(c, q);
    forall d | d in Execute(c, q).docs
      ensures Field(d, "email") != Undef && (Truthy(lastEmail) ==> Lt(lastEmail, Field(d, "email")))
    {
      ChunkMatch(q, lastEmail, d);
    }
  }

  lemma ChunkMatch(q: Query, lastEmail: Value, d: Doc)
    requires q == ChunkQuery(q.limit, lastEmail) && Matches(q, d)
    ensures Field(d, "email") != Undef && (Truthy(lastEmail) ==> Lt(lastEmail, Field(d, "email")))
  {
  }

  /** The cursor a page hands on is its last document's email (`null` when
      it is empty), and it is the end exactly when it came back short. */
  lemma ChunkCursor(c: Collection, pageSize: int, lastEmail: Value)
    requires pageSize >= 1 && ChunkQuery(pageSize, lastEmail) !in c.failing
    ensures var ds := Execute(c, ChunkQuery(pageSize, lastEmail)).docs;
      var ch := ChunkOf(c, pageSize, lastEmail).value;
      && (ch.ended <==> |ds| < pageSize)
      && (ds == [] ==> ch.lastEmail == Null)
      && (ds != [] ==> ch.lastEmail == Field(ds[|ds| - 1], "email"))
  {
    var q := ChunkQuery(pageSize, lastEmail);
    var o := Execute(c, q);
    assert o.Ok? && pageSize >= 1;
    ExecuteMembers(c, q);
    ChunkFromCursor(o.docs, pageSize);
  }

  lemma ChunkFromCursor(ds: seq<Doc>, pageSize: int)
    requires pageSize >= 1 && forall d :: d in ds ==> Field(d, "email") != Undef
    ensures var ch := ChunkFrom(Ok(ds), pageSize).value;
      && (ch.ended <==> |ds| < pageSize)
      && (ds == [] ==> ch.lastEmail == Null)
      && (ds != [] ==> ch.lastEmail == Field(ds[|ds| - 1], "email"))
  {
    if ds != [] {
      assert ds[|ds| - 1] in ds;
    }
  }

  /** A page that came back short holds every document with an email (after
      the cursor, when it is truthy). */
  lemma ChunkComplete(c: Collection, pageSize: int, lastEmail: Value, d: Doc)
    requires ChunkOf(c, pageSize, lastEmail).Success? && ChunkOf(c, pageSize, lastEmail).value.ended
    requires d in c.docs && Field(d, "email") != Undef
    requires Truthy(lastEmail) ==> Lt(lastEmail, Field(d, "email"))
    ensures RowOf(d) in ChunkOf(c, pageSize, lastEmail).value.items
  {
    var q := ChunkQuery(pageSize, lastEmail);
    var ds := Execute(c, q).docs;
    ExecuteResult(c, q);
    assert Matches(q, d);
    var i :| 0 <= i < |ds| && ds[i] == d;
    assert Rows(ds)[i] == RowOf(d);
  }

  /** Following the cursor: every email of the next page sorts strictly after
      every email of this one, so the two pages share no document. */
  lemma ChunkNext(c: Collection, pageSize: int, lastEmail: Value)
    requires ChunkOf(c, pageSize, lastEmail).Success?
    requires Truthy(ChunkOf(c, pageSize, lastEmail).value.lastEmail)
    ensures var cursor := ChunkOf(c, pageSize, lastEmail).value.lastEmail;
      ChunkOf(c, pageSize, cursor).Success? ==>
        forall d, e :: d in Execute(c, ChunkQuery(pageSize, lastEmail)).docs &&
                       e in Execute(c, ChunkQuery(pageSize, cursor)).docs ==>
          Lt(Field(d, "email"), Field(e, "email")) && d != e
  {
    var cursor := ChunkOf(c, pageSize, lastEmail).value.lastEmail;
    var ds := Execute(c, ChunkQuery(pageSize, lastEmail)).docs;
    ChunkFails(c, pageSize, lastEmail);
    ChunkShape(c, pageSize, lastEmail);
    ChunkCursor(c, pageSize, lastEmail);
    if ChunkOf(c, pageSize, cursor).Success? {
      ChunkFails(c, pageSize, cursor);
      ChunkShape(c, pageSize, cursor);
      var es := Execute(c, ChunkQuery(pageSize, cursor)).docs;
      forall d, e | d in ds && e in es
        ensures Lt(Field(d, "email"), Field(e, "email")) && d != e
      {
        var i :| 0 <= i < |ds| && ds[i] == d;
        SortedLastMax("email", ds, i);
        LeLtTransitive(Field(d, "email"), cursor, Field(e, "email"));
        KeyLtIrreflexive(KeyOf(Field(e, "email")));
      }
    }
  }

  /** `startAfter` takes only the email as the cursor: every other document
      sharing the cursor's email is skipped, wherever it sorts by id. */
  lemma ChunkSkipsTies(c: Collection, pageSize: int, lastEmail: Value, d: Doc)
    requires Truthy(lastEmail) && Field(d, "email") == lastEmail
    requires pageSize >= 1 && ChunkQuery(pageSize, lastEmail) !in c.failing
    ensures d !in Execute(c, ChunkQuery(pageSize, lastEmail)).docs
  {
    ChunkShape(c, pageSize, lastEmail);
    KeyLtIrreflexive(KeyOf(lastEmail));
  }

  /** A falsy cursor (`null`, `""`, `0`, `false`) restarts the listing from
      the first page, so a page whose last email is `""` is followed by the
      first page again. */
  lemma ChunkRestart(c: Collection, pageSize: int, lastEmail: Value)
    requires !Truthy(lastEmail)
    ensures ChunkOf(c, pageSize, lastEmail) == ChunkOf(c, pageSize, Null)
  {
  }

  // ---------------------------------------------------------------
  // Tiered searches
  // ---------------------------------------------------------------

  /** The outcomes of running the queries `qs` against `c`. */
  function Outcomes(c: Collection, qs: seq<Query>): (r: seq<Outcome>)
    ensures |r| == |qs| && forall i :: 0 <= i < |qs| ==> r[i] == Execute(c, qs[i])
  {
    seq(|qs|, i requires 0 <= i < |qs| => Execute(c, qs[i]))
  }

  /** `v` is a string beginning with `p`. */
  predicate StartsWith(v: Value, p: string) {
    v.Str? && p <= v.s
  }

  /** The prefix query of a tier: ordered by `field`, from `key` to `key`
      followed by U+F8FF inclusive, at most `pageSize` documents. */
  function PrefixQuery(field: string, key: string, pageSize: int): Query {
    Range(field, From(Str(key)), Some(Str(key + [RangeEnd])), pageSize)
  }

  /** Every document a tiered search answers with is in the collection and
      matches one of its queries. */
  lemma TiersSound(c: Collection, qs: seq<Query>, last: Query, pageSize: int, d: Doc)
    requires Tiered(Outcomes(c, qs), Execute(c, last), pageSize, []).Success?
    requires d in Tiered(Outcomes(c, qs), Execute(c, last), pageSize, []).value
    ensures d in c.docs
    ensures Matches(last, d) || exists k :: 0 <= k < |qs| && Matches(qs[k], d)
  {
    var tiers := Outcomes(c, qs);
    TieredFrom(tiers, Execute(c, last), pageSize, d);
    if exists k :: 0 <= k < |tiers| && tiers[k].Ok? && d in tiers[k].docs {
      var k :| 0 <= k < |tiers| && tiers[k].Ok? && d in tiers[k].docs;
      ExecuteResult(c, qs[k]);
    } else {
      ExecuteResult(c, last);
    }
  }

  /** A tier that ran and whose every id is in a short answer `v` of stored
      documents was not cut by its limit, so each stored document it matches
      is in `v`. */
  lemma TierCovered(c: Collection, q: Query, v: seq<Doc>, d: Doc)
    requires DistinctIds(c.docs) && Execute(c, q).Ok?
    requires Ids(Execute(c, q).docs) <= Ids(v) && |v| < q.limit
    requires forall e :: e in v ==> e in c.docs
    requires d in c.docs && Matches(q, d)
    ensures d in v
  {
    var r := Execute(c, q).docs;
    ExecuteDistinct(c, q);
    IdsCard(r);
    IdsCard(v);
    SubsetCard(Ids(r), Ids(v));
    ExecuteResult(c, q);
    var i :| 0 <= i < |r| && r[i] == d;
    IdsMember(r, d.id);
    IdsMember(v, d.id);
    var j :| 0 <= j < |v| && v[j].id == d.id;
    SameIdSameDoc(c.docs, v[j], d);
  }

  /** A tiered search over distinct ids that answers fewer than `pageSize`
      rows answers every stored document that matches its last query or a
      guarded query that did not fail. */
  lemma TiersComplete(c: Collection, qs: seq<Query>, last: Query, pageSize: int, d: Doc)
    requires DistinctIds(c.docs)
    requires last.limit == pageSize && forall k :: 0 <= k < |qs| ==> qs[k].limit == pageSize
    requires Tiered(Outcomes(c, qs), Execute(c, last), pageSize, []).Success?
    requires |Tiered(Outcomes(c, qs), Execute(c, last), pageSize, []).value| < pageSize
    requires d in c.docs
    requires Matches(last, d) || exists k :: 0 <= k < |qs| && Execute(c, qs[k]).Ok? && Matches(qs[k], d)
    ensures d in Tiered(Outcomes(c, qs), Execute(c, last), pageSize, []).value
  {
    var tiers := Outcomes(c, qs);
    var v := Tiered(tiers, Execute(c, last), pageSize, []).value;
    TieredShortIsAll(tiers, Execute(c, last), pageSize, []);
    AllAbsorbedIds(tiers, Execute(c, last), []);
    forall e | e in v ensures e in c.docs {
      TiersSound(c, qs, last, pageSize, e);
    }
    if Matches(last, d) {
      TierCovered(c, last, v, d);
    } else {
      var k :| 0 <= k < |qs| && Execute(c, qs[k]).Ok? && Matches(qs[k], d);
      assert tiers[k] == Execute(c, qs[k]);
      TierCovered(c, qs[k], v, d);
    }
  }

  /** A page size below 1 makes every query fail, so the search throws. */
  lemma TiersBadPage(c: Collection, qs: seq<Query>, last: Query, pageSize: int)
    requires pageSize < 1 && last.limit == pageSize
    requires forall k :: 0 <= k < |qs| ==> qs[k].limit == pageSize
    ensures Tiered(Outcomes(c, qs), Execute(c, last), pageSize, []) == Failure("query failed")
  {
    TieredAllFailed(Outcomes(c, qs), Execute(c, last), pageSize, []);
  }

  // searchByName

  /** `normalizeForWrite` of the trimmed term: the key tiers 0 to 2 compare with. */
  function NameKey(term: string): Value {
    Obj(DerivedFields(Str(Text.Trim(term))))
  }

  /** The range end of tiers 1 and 2: the key's string form followed by U+F8FF. */
  function NameKeyEnd(term: string): Value {
    Str(ToJsString(NameKey(term)) + [RangeEnd])
  }

  /** The legacy key: the first character upper-cased, the rest lower-cased. */
  function Capitalize(raw: string): string {
    if raw == [] then [] else Text.Upper([raw[0]]) + Text.Lower(raw[1..])
  }

  /** The legacy key of "ANA" is "Ana"; a leading sharp s becomes "SS", so
      the key of "\U{00DF}mith" is "SSmith". */
  lemma CapitalizeExamples()
    ensures Capitalize("ANA") == "Ana"
    ensures Capitalize("\U{00DF}mith") == "SSmith"
  {
  }

  /** Tiers 0 to 2 of `searchByName`: `search_name == sn`, then `sn` as a
      prefix of `nameLower`, then of `handleLower`. */
  function NameTries(term: string, pageSize: int): seq<Query> {
    [ Equal("search_name", NameKey(term), pageSize),
      Range("nameLower", From(NameKey(term)), Some(NameKeyEnd(term)), pageSize),
      Range("handleLower", From(NameKey(term)), Some(NameKeyEnd(term)), pageSize) ]
  }

  /** Tier 3: the capitalised term as a prefix of `name`. */
  function NameLegacy(term: string, pageSize: int): Query {
    PrefixQuery("name", Capitalize(Text.Trim(term)), pageSize)
  }

  /** `searchByName(term, pageSize)` over the collection `c`, as documents. */
  function NameSearch(c: Collection, term: string, pageSize: int): Result<seq<Doc>> {
    Tiered(Outcomes(c, NameTries(term, pageSize)), Execute(c, NameLegacy(term, pageSize)), pageSize, [])
  }

  /** A bare string has no `email`, `name` or `handles`, so the name key is
      the empty map and its range end the string `"[object Object]"`. */
  lemma NameKeyIsEmptyMap(term: string)
    ensures NameKey(term) == Obj([])
    ensures NameKeyEnd(term) == Str("[object Object]\U{F8FF}")
  {
    DerivedFieldsOfString(Text.Trim(term));
  }

  /** A range from a map to a string is empty: the `nameLower` and
      `handleLower` tiers find nothing, whatever the collection holds. */
  lemma NamePrefixTiersEmpty(c: Collection, term: string, pageSize: int, k: nat)
    requires 1 <= k <= 2
    ensures Execute(c, NameTries(term, pageSize)[k]) in {Failed, Ok([])}
  {
    var q := NameTries(term, pageSize)[k];
    NameKeyIsEmptyMap(term);
    forall d | d in c.docs ensures !Matches(q, d) {
      MapToStringRangeEmpty("[object Object]\U{F8FF}", Field(d, q.field));
    }
    ExecuteNone(c, q);
  }

  /** Every row of a name search is a document of the collection whose
      `search_name` is the empty map or whose `name` begins with the
      capitalised term. */
  lemma NameSearchSound(c: Collection, term: string, pageSize: int, d: Doc)
    requires NameSearch(c, term, pageSize).Success? && d in NameSearch(c, term, pageSize).value
    ensures d in c.docs
    ensures Field(d, "search_name") == Obj([]) || StartsWith(Field(d, "name"), Capitalize(Text.Trim(term)))
  {
    var qs := NameTries(term, pageSize);
    var last := NameLegacy(term, pageSize);
    TiersSound(c, qs, last, pageSize, d);
    NameKeyIsEmptyMap(term);
    if Matches(last, d) {
      PrefixRangeSound(Capitalize(Text.Trim(term)), Field(d, "name"));
    } else {
      var k :| 0 <= k < |qs| && Matches(qs[k], d);
      if k != 0 {
        MapToStringRangeEmpty("[object Object]\U{F8FF}", Field(d, qs[k].field));
      }
    }
  }

  /** When no document's `search_name` is the empty map (normalised names
      are strings), the name search is its legacy tier alone: the prefix
      query on `name`, sliced to the page. */
  lemma NameSearchIsLegacy(c: Collection, term: string, pageSize: int)
    requires forall d :: d in c.docs ==> Field(d, "search_name") != Obj([])
    ensures NameSearch(c, term, pageSize) == Tiered([], Execute(c, NameLegacy(term, pageSize)), pageSize, [])
  {
    var qs := NameTries(term, pageSize);
    var tiers := Outcomes(c, qs);
    var last := Execute(c, NameLegacy(term, pageSize));
    if pageSize >= 1 {
      forall k | 0 <= k < |tiers| ensures tiers[k] in {Failed, Ok([])} {
        if k == 0 {
          NameExactTierEmpty(c, term, pageSize);
        } else {
          NamePrefixTiersEmpty(c, term, pageSize, k);
        }
      }
      TieredQuiet(tiers, last, pageSize, []);
    } else {
      TiersBadPage(c, qs, NameLegacy(term, pageSize), pageSize);
      TieredAllFailed([], last, pageSize, []);
    }
  }

  /** Tier 0 finds nothing when no `search_name` is the empty map. */
  lemma NameExactTierEmpty(c: Collection, term: string, pageSize: int)
    requires forall d :: d in c.docs ==> Field(d, "search_name") != Obj([])
    ensures Execute(c, NameTries(term, pageSize)[0]) in {Failed, Ok([])}
  {
    NameKeyIsEmptyMap(term);
    ExecuteNone(c, NameTries(term, pageSize)[0]);
  }

  /** A name search over distinct ids that answers fewer than `pageSize`
      rows answers every stored document matching the legacy `name` prefix
      query, or one of tiers 0 to 2 that did not fail. */
  lemma NameSearchComplete(c: Collection, term: string, pageSize: int, d: Doc)
    requires DistinctIds(c.docs) && d in c.docs
    requires NameSearch(c, term, pageSize).Success? && |NameSearch(c, term, pageSize).value| < pageSize
    requires || Matches(NameLegacy(term, pageSize), d)
             || (exists k :: 0 <= k < 3 && Execute(c, NameTries(term, pageSize)[k]).Ok? && Matches(NameTries(term, pageSize)[k], d))
    ensures d in NameSearch(c, term, pageSize).value
  {
    TiersComplete(c, NameTries(term, pageSize), NameLegacy(term, pageSize), pageSize, d);
  }

  /** A name search answers with at most `pageSize` rows: only tier 0 can
      return early, and it returns at most `pageSize` documents. */
  lemma NameSearchLength(c: Collection, term: string, pageSize: int)
    requires NameSearch(c, term, pageSize).Success?
    ensures |NameSearch(c, term, pageSize).value| <= pageSize
  {
    var qs := NameTries(term, pageSize);
    var tiers := Outcomes(c, qs);
    var last := Execute(c, NameLegacy(term, pageSize));
    if pageSize < 1 {
      TiersBadPage(c, qs, NameLegacy(term, pageSize), pageSize);
    } else {
      var t0 := tiers[0];
      var a0 := if t0.Failed? then [] else Absorb([], t0.docs);
      if t0.Ok? {
        ExecuteResult(c, qs[0]);
        AbsorbFacts([], t0.docs);
      }
      assert tiers == [t0] + tiers[1..];
      TieredCons(t0, tiers[1..], last, pageSize, []);
      if |a0| < pageSize {
        forall k | 0 <= k < |tiers[1..]| ensures tiers[1..][k] in {Failed, Ok([])} {
          NamePrefixTiersEmpty(c, term, pageSize, k + 1);
        }
        TieredQuiet(tiers[1..], last, pageSize, a0);
      }
    }
  }

  // searchByEmail

  /** The email key: the trimmed term, lower-cased. */
  function EmailKey(term: string): string {
    Text.Lower(Text.Trim(term))
  }

  /** Tiers 0 and 1 of `searchByEmail`: `emailLower == lower`, then `lower`
      as a prefix of `emailLower`. */
  function EmailTries(term: string, pageSize: int): seq<Query> {
    [Equal("emailLower", Str(EmailKey(term)), pageSize), PrefixQuery("emailLower", EmailKey(term), pageSize)]
  }

  /** Tier 2: `lower` as a prefix of `email`. */
  function EmailLegacy(term: string, pageSize: int): Query {
    PrefixQuery("email", EmailKey(term), pageSize)
  }

  /** `searchByEmail(term, pageSize)` over the collection `c`, as documents. */
  function EmailSearch(c: Collection, term: string, pageSize: int): Result<seq<Doc>> {
    Tiered(Outcomes(c, EmailTries(term, pageSize)), Execute(c, EmailLegacy(term, pageSize)), pageSize, [])
  }

  /** Every row of an email search is a document of the collection whose
      `emailLower` or `email` begins with the lower-cased trimmed term. */
  lemma EmailSearchSound(c: Collection, term: string, pageSize: int, d: Doc)
    requires EmailSearch(c, term, pageSize).Success? && d in EmailSearch(c, term, pageSize).value
    ensures d in c.docs
    ensures StartsWith(Field(d, "emailLower"), EmailKey(term)) || StartsWith(Field(d, "email"), EmailKey(term))
  {
    var qs := EmailTries(term, pageSize);
    var last := EmailLegacy(term, pageSize);
    TiersSound(c, qs, last, pageSize, d);
    if Matches(last, d) {
      PrefixRangeSound(EmailKey(term), Field(d, "email"));
    } else {
      var k :| 0 <= k < |qs| && Matches(qs[k], d);
      if k == 1 {
        PrefixRangeSound(EmailKey(term), Field(d, "emailLower"));
      }
    }
  }

  /** An email search answers with fewer than `2 * pageSize` rows: its
      early return is not sliced. */
  lemma EmailSearchLength(c: Collection, term: string, pageSize: int)
    requires EmailSearch(c, term, pageSize).Success?
    ensures |EmailSearch(c, term, pageSize).value| < 2 * pageSize
  {
    var qs := EmailTries(term, pageSize);
    var tiers := Outcomes(c, qs);
    if pageSize < 1 {
      TiersBadPage(c, qs, EmailLegacy(term, pageSize), pageSize);
    } else {
      forall k | 0 <= k < |tiers| && tiers[k].Ok? ensures |tiers[k].docs| <= pageSize {
        ExecuteResult(c, qs[k]);
      }
      TieredLength(tiers, Execute(c, EmailLegacy(term, pageSize)), pageSize, []);
    }
  }

  /** An email search over distinct ids that answers fewer than `pageSize`
      rows answers every stored document matching the legacy `email` prefix
      query, or a tier-0 or tier-1 `emailLower` query that did not fail. */
  lemma EmailSearchComplete(c: Collection, term: string, pageSize: int, d: Doc)
    requires DistinctIds(c.docs) && d in c.docs
    requires EmailSearch(c, term, pageSize).Success? && |EmailSearch(c, term, pageSize).value| < pageSize
    requires || Matches(EmailLegacy(term, pageSize), d)
             || (exists k :: 0 <= k < 2 && Execute(c, EmailTries(term, pageSize)[k]).Ok? && Matches(EmailTries(term, pageSize)[k], d))
    ensures d in EmailSearch(c, term, pageSize).value
  {
    TiersComplete(c, EmailTries(term, pageSize), EmailLegacy(term, pageSize), pageSize, d);
  }

  /** Both searches answer with distinct ids, throw only when their last
      tier fails, and throw for a page size below 1. */
  lemma SearchOutcome(c: Collection, term: string, pageSize: int)
    ensures NameSearch(c, term, pageSize).Success? ==> DistinctIds(NameSearch(c, term, pageSize).value)
    ensures EmailSearch(c, term, pageSize).Success? ==> DistinctIds(EmailSearch(c, term, pageSize).value)
    ensures NameSearch(c, term, pageSize).Failure? ==> Execute(c, NameLegacy(term, pageSize)).Failed?
    ensures EmailSearch(c, term, pageSize).Failure? ==> Execute(c, EmailLegacy(term, pageSize)).Failed?
    ensures pageSize < 1 ==> NameSearch(c, term, pageSize).Failure? && EmailSearch(c, term, pageSize).Failure?
  {
    var nt := Outcomes(c, NameTries(term, pageSize));
    var et := Outcomes(c, EmailTries(term, pageSize));
    var nl := Execute(c, NameLegacy(term, pageSize));
    var el := Execute(c, EmailLegacy(term, pageSize));
    if NameSearch(c, term, pageSize).Success? { TieredDistinct(nt, nl, pageSize, []); }
    if EmailSearch(c, term, pageSize).Success? { TieredDistinct(et, el, pageSize, []); }
    TieredFailure(nt, nl, pageSize, []);
    TieredFailure(et, el, pageSize, []);
    if pageSize < 1 {
      TiersBadPage(c, NameTries(term, pageSize), NameLegacy(term, pageSize), pageSize);
      TiersBadPage(c, EmailTries(term, pageSize), EmailLegacy(term, pageSize), pageSize);
    }
  }

  // ---------------------------------------------------------------
  // get
  // ---------------------------------------------------------------

  /** `get(id)`: the row of the stored document with that id; `None` stands
      for `undefined`. */
  function GetOf(c: Collection, id: string): Option<Row> {
    match FindDoc(c.docs, id)
    case Some(d) => Some(RowOf(d))
    case None => None
  }

  /** A row has the document's fields and `id`; the id reads the document's
      id unless the stored fields hold an own `id`, which wins. */
  lemma RowOfLookup(d: Doc, k: string)
    requires DistinctKeys(d.data)
    ensures Keys(RowOf(d)) == Keys(d.data) + {"id"}
    ensures Lookup(RowOf(d), k) ==
      if k in Keys(d.data) then Lookup(d.data, k) else if k == "id" then Str(d.id) else Undef
  {
  }

  /** `get` finds exactly the stored ids, and answers with that document's row. */
  lemma GetShape(c: Collection, id: string)
    ensures GetOf(c, id).Some? <==> id in Ids(c.docs)
    ensures GetOf(c, id).Some? ==>
      exists d :: d in c.docs && d.id == id && GetOf(c, id).value == RowOf(d)
  {
  }

  /** After `addDoc` of a document with a new id, `get` of that id answers
      its row, and `get` of every other id answers what it did before. */
  lemma GetAfterAppend(c: Collection, d: Doc)
    requires d.id !in Ids(c.docs)
    ensures GetOf(c.(docs := c.docs + [d]), d.id) == Some(RowOf(d))
    ensures forall k :: k != d.id ==> GetOf(c.(docs := c.docs + [d]), k) == GetOf(c, k)
  {
    AppendFind(c.docs, d);
  }

  /** After a merge write to `id`, `get(id)` answers the merged document's
      row, and `get` of every other id answers what it did before. */
  lemma GetAfterMerge(c: Collection, id: string, patch: seq<Entry>)
    requires DistinctIds(c.docs)
    ensures GetOf(c.(docs := SetMerge(c.docs, id, patch)), id) ==
      Some(RowOf(Doc(id, MergeEntries(StoredData(c.docs, id), patch))))
    ensures forall k :: k != id ==> GetOf(c.(docs := SetMerge(c.docs, id, patch)), k) == GetOf(c, k)
  {
    SetMergeEffect(c.docs, id, patch);
  }

  /** After `deleteDoc(id)`, `get(id)` answers nothing, and `get` of every
      other id answers what it did before. */
  lemma GetAfterDelete(c: Collection, id: string)
    requires DistinctIds(c.docs)
    ensures GetOf(c.(docs := DeleteDoc(c.docs, id)), id) == None
    ensures forall k :: k != id ==> GetOf(c.(docs := DeleteDoc(c.docs, id)), k) == GetOf(c, k)
  {
    DeleteDocDistinct(c.docs, id);
    forall k | k != id ensures FindDoc(DeleteDoc(c.docs, id), k) == FindDoc(c.docs, k) {
      DeleteDocFind(c.docs, id, k);
    }
  }

  // ---------------------------------------------------------------
  // create and update payloads
  // ---------------------------------------------------------------

  /** The stored email: a nullish email becomes the empty string, a string is
      lower-cased, and any other value has no lower-casing method and throws. */
  function EmailLowered(v: Value): Result<string> {
    if Nullish(v) then Success("")
    else if v.Str? then Success(Text.Lower(v.s))
    else Failure("TypeError")
  }

  /** The payload object: `rest` spread, then `norm`, then the tail fields. */
  function Literal(rest: seq<Entry>, norm: seq<Entry>, tail: seq<Entry>): seq<Entry> {
    AssignAll(AssignAll(AssignAll([], rest), norm), tail)
  }

  /** The fields `create` writes after the derived ones. */
  function CreateTail(email: string): seq<Entry> {
    [Entry("email", Str(email)), Entry("createdAt", ServerTime), Entry("updatedAt", ServerTime)]
  }

  /** `cleanUndefined(payload)` of `create(data)`: `id` dropped, the derived
      fields, the lower-cased email and both server timestamps. */
  function CreatePayload(data: seq<Entry>): Result<seq<Entry>> {
    var rest := RemoveKey(data, "id");
    var email := EmailLowered(Lookup(rest, "email"));
    if email.Failure? then Failure(email.error)
    else Success(Clean(Obj(Literal(rest, DerivedFields(Obj(rest)), CreateTail(email.value)))).entries)
  }

  /** `norm` once `update` has mirrored a present `email` key: both `email`
      and `emailLower` set to the stored email. */
  function UpdateNorm(rest: seq<Entry>, norm: seq<Entry>): Result<seq<Entry>> {
    if "email" !in Keys(rest) then Success(norm)
    else
      var e := EmailLowered(Lookup(rest, "email"));
      if e.Failure? then Failure(e.error)
      else Success(Assign(Assign(norm, "email", Str(e.value)), "emailLower", Str(e.value)))
  }

  /** `cleanUndefined(patch)` of `update(id, data)`. */
  function UpdatePatch(data: seq<Entry>): Result<seq<Entry>> {
    var rest := RemoveKey(data, "id");
    var norm := UpdateNorm(rest, DerivedFields(Obj(rest)));
    if norm.Failure? then Failure(norm.error)
    else Success(Clean(Obj(Literal(rest, norm.value, [Entry("updatedAt", ServerTime)]))).entries)
  }

  /** `p` is what the payload object (`rest`, then `norm`, then `tail`) becomes
      once cleaned: the tail's fields, then the derived ones, win; every
      other key keeps its cleaned value and is gone when it was `undefined`;
      no `undefined` is left and no key appears twice. */
  ghost predicate Overlay(rest: seq<Entry>, norm: seq<Entry>, tail: seq<Entry>, p: seq<Entry>) {
    && DistinctKeys(p)
    && (forall i :: 0 <= i < |p| ==> Defined(p[i].val))
    && (forall k :: k in Keys(tail) ==> Lookup(p, k) == Lookup(tail, k))
    && (forall k :: k !in Keys(tail) && k in Keys(norm) ==> Lookup(p, k) == Lookup(norm, k))
    && (forall k :: k !in Keys(tail) && k !in Keys(norm) ==> Lookup(p, k) == Clean(Lookup(rest, k)))
    && (forall k :: k in Keys(p) <==> k in Keys(tail) || k in Keys(norm) || Lookup(rest, k) != Undef)
  }

  lemma LiteralClean(rest: seq<Entry>, norm: seq<Entry>, tail: seq<Entry>)
    requires DistinctKeys(rest) && DistinctKeys(norm) && DistinctKeys(tail)
    requires forall i :: 0 <= i < |norm| ==> Defined(norm[i].val)
    requires forall i :: 0 <= i < |tail| ==> Defined(tail[i].val)
    ensures Clean(Obj(Literal(rest, norm, tail))).Obj?
    ensures Overlay(rest, norm, tail, Clean(Obj(Literal(rest, norm, tail))).entries)
  {
    var a := AssignAll([], rest);
    var b := AssignAll(a, norm);
    var es := AssignAll(b, tail);
    assert DistinctKeys(es);
    CleanObject(es);
    CleanDefined(Obj(es));
    var p := Clean(Obj(es)).entries;
    forall k | k in Keys(tail) ensures Lookup(p, k) == Lookup(tail, k) {
      DefinedLookup(tail, k);
    }
    forall k | k !in Keys(tail) && k in Keys(norm) ensures Lookup(p, k) == Lookup(norm, k) {
      DefinedLookup(norm, k);
    }
    forall k ensures k in Keys(p) <==> k in Keys(tail) || k in Keys(norm) || Lookup(rest, k) != Undef {
      if k in Keys(tail) { DefinedLookup(tail, k); }
      if k in Keys(norm) { DefinedLookup(norm, k); }
    }
  }

  /** A defined field reads a defined value, which cleaning keeps as it is. */
  lemma DefinedLookup(es: seq<Entry>, k: string)
    requires k in Keys(es) && forall i :: 0 <= i < |es| ==> Defined(es[i].val)
    ensures Lookup(es, k) != Undef && Clean(Lookup(es, k)) == Lookup(es, k)
  {
    LookupFound(es, k);
    var i :| 0 <= i < |es| && es[i].key == k && es[i].val == Lookup(es, k);
    CleanDefinedIdentity(es[i].val);
  }

  /** The keys `normalizeForWrite` can derive. */
  const DerivedKeySet: set<string> := {"emailLower", "nameLower", "search_name", "keywords", "handleLower"}

  /** No derived key is one of the keys `create` and `update` write themselves. */
  lemma DerivedKeysApart(k: string)
    requires k in DerivedKeySet
    ensures k != "id" && k != "email" && k != "createdAt" && k != "updatedAt"
  {
    assert |"id"| == 2 && |"email"| == 5 && |"createdAt"| == 9 && |"updatedAt"| == 9;
    assert "createdAt"[0] == 'c' && "updatedAt"[0] == 'u';
    if k == "nameLower" {
      assert k[0] == 'n';
    } else {
      assert |k| != 2 && |k| != 5 && |k| != 9;
    }
  }

  lemma CreateTailFacts(e: string)
    ensures forall k :: k in Keys(CreateTail(e)) <==> k == "email" || k == "createdAt" || k == "updatedAt"
    ensures DistinctKeys(CreateTail(e))
    ensures forall i :: 0 <= i < |CreateTail(e)| ==> Defined(CreateTail(e)[i].val)
    ensures Lookup(CreateTail(e), "email") == Str(e)
    ensures Lookup(CreateTail(e), "createdAt") == ServerTime && Lookup(CreateTail(e), "updatedAt") == ServerTime
  {
    var t := CreateTail(e);
    assert t[1..][1..] == [Entry("updatedAt", ServerTime)];
    KeysCons(t);
    KeysCons(t[1..]);
    LookupDistinct(t, 2);
  }

  /** `norm` sets none of the keys `create` writes itself, nor `id`. */
  predicate CreateKeysFree(norm: seq<Entry>) {
    forall k :: k in Keys(norm) ==> k != "id" && k != "email" && k != "createdAt" && k != "updatedAt"
  }

  /** The created payload, from what cleaning the literal gives: `rest` is
      the input without `id`, `tail` the fields `create` writes itself. */
  lemma CreateFields(data: seq<Entry>, rest: seq<Entry>, norm: seq<Entry>, tail: seq<Entry>, e: string, p: seq<Entry>)
    requires forall j :: Lookup(rest, j) == if j == "id" then Undef else Lookup(data, j)
    requires forall k :: k in Keys(tail) <==> k == "email" || k == "createdAt" || k == "updatedAt"
    requires Lookup(tail, "email") == Str(e)
    requires Lookup(tail, "createdAt") == ServerTime && Lookup(tail, "updatedAt") == ServerTime
    requires CreateKeysFree(norm)
    requires Overlay(rest, norm, tail, p)
    ensures && Lookup(p, "email") == Str(e)
            && Lookup(p, "createdAt") == ServerTime && Lookup(p, "updatedAt") == ServerTime
            && (forall k :: k in Keys(norm) ==> Lookup(p, k) == Lookup(norm, k))
            && (forall k :: k !in Keys(norm) && k != "id" && k != "email" && k != "createdAt" && k != "updatedAt" ==>
                  Lookup(p, k) == Clean(Lookup(data, k)))
            && (forall k :: k in Keys(p) <==>
                  k in Keys(norm) || k == "email" || k == "createdAt" || k == "updatedAt" ||
                  (k != "id" && Lookup(data, k) != Undef))
  {
  }

  /** `create` drops `id`; stores the derived fields, the email lower-cased
      (`""` when it was nullish) and both server timestamps over the given
      fields; keeps every other given field cleaned, and none that was
      `undefined`; throws exactly when the email is neither a string nor
      nullish. */
  lemma CreateShape(data: seq<Entry>)
    requires DistinctKeys(data)
    ensures CreatePayload(data).Failure? <==> EmailLowered(Lookup(data, "email")).Failure?
    ensures CreatePayload(data).Success? ==>
      var p := CreatePayload(data).value;
      var norm := DerivedFields(Obj(RemoveKey(data, "id")));
      && DistinctKeys(p)
      && (forall i :: 0 <= i < |p| ==> Defined(p[i].val))
      && "id" !in Keys(p)
      && Lookup(p, "email") == Str(EmailLowered(Lookup(data, "email")).value)
      && Lookup(p, "createdAt") == ServerTime && Lookup(p, "updatedAt") == ServerTime
      && (forall k :: k in Keys(norm) ==> Lookup(p, k) == Lookup(norm, k))
      && (forall k :: k !in Keys(norm) && k != "id" && k != "email" && k != "createdAt" && k != "updatedAt" ==>
            Lookup(p, k) == Clean(Lookup(data, k)))
      && (forall k :: k in Keys(p) <==>
            k in Keys(norm) || k == "email" || k == "createdAt" || k == "updatedAt" || (k != "id" && Lookup(data, k) != Undef))
  {
    var rest := RemoveKey(data, "id");
    var e := EmailLowered(Lookup(rest, "email"));
    if e.Success? {
      var norm := DerivedFields(Obj(rest));
      var p := CreatePayload(data).value;
      DerivedKeys(Obj(rest));
      DerivedDefined(Obj(rest));
      forall k | k in Keys(norm) ensures k != "id" && k != "email" && k != "createdAt" && k != "updatedAt" {
        DerivedKeysApart(k);
      }
      CreateTailFacts(e.value);
      LiteralClean(rest, norm, CreateTail(e.value));
      assert p == Clean(Obj(Literal(rest, norm, CreateTail(e.value)))).entries;
      CreateFields(data, rest, norm, CreateTail(e.value), e.value, p);
    }
  }

  // ---------------------------------------------------------------
  // update: the patch merged into the stored document
  // ---------------------------------------------------------------

  /** Setting a defined value on an object with no `undefined` leaves none. */
  lemma {:induction false} AssignDefined(es: seq<Entry>, k: string, v: Value)
    requires Defined(v) && forall i :: 0 <= i < |es| ==> Defined(es[i].val)
    ensures forall i :: 0 <= i < |Assign(es, k, v)| ==> Defined(Assign(es, k, v)[i].val)
  {
    if es != [] && es[0].key != k {
      AssignDefined(es[1..], k, v);
    }
  }

  lemma UpdateTailFacts()
    ensures forall k :: k in Keys([Entry("updatedAt", ServerTime)]) <==> k == "updatedAt"
    ensures DistinctKeys([Entry("updatedAt", ServerTime)])
    ensures forall i :: 0 <= i < |[Entry("updatedAt", ServerTime)]| ==> Defined([Entry("updatedAt", ServerTime)][i].val)
    ensures Lookup([Entry("updatedAt", ServerTime)], "updatedAt") == ServerTime
  {
    KeysCons([Entry("updatedAt", ServerTime)]);
  }

  /** The keys `update` treats specially are four different keys. */
  lemma UpdateKeysApart()
    ensures "id" != "email" && "id" != "emailLower" && "id" != "updatedAt"
    ensures "email" != "emailLower" && "email" != "updatedAt" && "emailLower" != "updatedAt"
  {
    assert |"emailLower"| == 10 && |"email"| == 5 && |"updatedAt"| == 9 && |"id"| == 2;
  }

  /** Mirroring `e` into the keys `ek` and `lk` of `norm0`. */
  lemma Mirror(norm0: seq<Entry>, ek: string, lk: string, e: string)
    ensures var norm := Assign(Assign(norm0, ek, Str(e)), lk, Str(e));
      && (forall k :: Lookup(norm, k) == if k == ek || k == lk then Str(e) else Lookup(norm0, k))
      && (forall k :: k in Keys(norm) <==> k in Keys(norm0) || k == ek || k == lk)
  {
  }

  /** The update patch when the input has an email, from what cleaning the
      literal gives, for any four different keys in the roles of `id`
      (`ik`), `email` (`ek`), `emailLower` (`lk`) and `updatedAt` (`uk`):
      `rest` is the input without `ik`, `norm0` the derived fields, `norm`
      those fields with the lower-cased email `e` mirrored into `ek` and
      `lk`, `tail` the timestamp. */
  lemma UpdateFieldsEmail(ik: string, ek: string, lk: string, uk: string,
                          data: seq<Entry>, rest: seq<Entry>, norm0: seq<Entry>, norm: seq<Entry>, tail: seq<Entry>,
                          p: seq<Entry>, e: string)
    requires ik != ek && ik != lk && ik != uk && ek != lk && ek != uk && lk != uk
    requires forall j :: Lookup(rest, j) == if j == ik then Undef else Lookup(data, j)
    requires forall k :: k in Keys(tail) <==> k == uk
    requires Lookup(tail, uk) == ServerTime
    requires forall k :: k in Keys(norm0) ==> k != ik && k != ek && k != uk
    requires forall k :: Lookup(norm, k) == if k == ek || k == lk then Str(e) else Lookup(norm0, k)
    requires forall k :: k in Keys(norm) <==> k in Keys(norm0) || k == ek || k == lk
    requires Overlay(rest, norm, tail, p)
    ensures ik !in Keys(p) && Lookup(p, uk) == ServerTime
    ensures Lookup(p, ek) == Str(e) && Lookup(p, lk) == Str(e)
    ensures forall k :: k in Keys(norm0) && k != lk ==> Lookup(p, k) == Lookup(norm0, k)
    ensures forall k :: k !in Keys(norm0) && k != ik && k != ek && k != lk && k != uk ==>
              Lookup(p, k) == Clean(Lookup(data, k))
    ensures forall k :: k in Keys(p) <==>
              k in Keys(norm0) || k == uk || k == ek || k == lk || (k != ik && Lookup(data, k) != Undef)
  {
    assert ek in Keys(norm) && lk in Keys(norm) && ik !in Keys(norm);
    forall k | k in Keys(norm0) && k != lk ensures Lookup(p, k) == Lookup(norm0, k) {
      assert k !in Keys(tail) && k in Keys(norm);
    }
    forall k | k !in Keys(norm0) && k != ik && k != ek && k != lk && k != uk
      ensures Lookup(p, k) == Clean(Lookup(data, k))
    {
      assert k !in Keys(tail) && k !in Keys(norm);
    }
  }

  /** The update patch when the input has no email, for any three different
      keys in the roles of `id`, `email` and `updatedAt`: the derived fields
      `norm` then hold no `emailLower` (`lk`) either. */
  lemma UpdateFieldsNoEmail(ik: string, ek: string, lk: string, uk: string,
                            data: seq<Entry>, rest: seq<Entry>, norm: seq<Entry>, tail: seq<Entry>, p: seq<Entry>)
    requires ik != ek && ik != uk && ek != uk
    requires forall j :: Lookup(rest, j) == if j == ik then Undef else Lookup(data, j)
    requires forall k :: k in Keys(tail) <==> k == uk
    requires Lookup(tail, uk) == ServerTime
    requires forall k :: k in Keys(norm) ==> k != ik && k != ek && k != uk
    requires lk !in Keys(norm) && Lookup(data, ek) == Undef
    requires Overlay(rest, norm, tail, p)
    ensures ik !in Keys(p) && Lookup(p, uk) == ServerTime
    ensures ek !in Keys(p) && (lk != uk && lk != ik ==> Lookup(p, lk) == Clean(Lookup(data, lk)))
    ensures forall k :: k in Keys(norm) ==> Lookup(p, k) == Lookup(norm, k)
    ensures forall k :: k !in Keys(norm) && k != ik && k != uk ==> Lookup(p, k) == Clean(Lookup(data, k))
    ensures forall k :: k in Keys(p) <==> k in Keys(norm) || k == uk || (k != ik && Lookup(data, k) != Undef)
  {
    assert ek !in Keys(tail) && ek !in Keys(norm) && Lookup(rest, ek) == Undef;
    assert ik !in Keys(tail) && ik !in Keys(norm) && Lookup(rest, ik) == Undef;
    if lk != uk && lk != ik {
      assert lk !in Keys(tail) && Lookup(rest, lk) == Lookup(data, lk);
    }
    forall k | k in Keys(norm) ensures Lookup(p, k) == Lookup(norm, k) {
      assert k !in Keys(tail);
    }
    forall k | k !in Keys(norm) && k != ik && k != uk ensures Lookup(p, k) == Clean(Lookup(data, k)) {
      assert k !in Keys(tail) && Lookup(rest, k) == Lookup(data, k);
    }
  }

  /** `update` drops `id`; stores the derived fields and the timestamp over
      the given fields; when `email` is among them, stores it lower-cased
      (`""` when nullish) both as `email` and as `emailLower`, and throws
      exactly when it is neither a string nor nullish; otherwise leaves
      `email` out and takes `emailLower`, if any, from the input; keeps every
      other given field cleaned, and none that was `undefined`. */
  lemma UpdateShape(data: seq<Entry>)
    requires DistinctKeys(data)
    ensures UpdatePatch(data).Failure? <==>
      "email" in Keys(data) && EmailLowered(Lookup(data, "email")).Failure?
    ensures UpdatePatch(data).Success? ==>
      var p := UpdatePatch(data).value;
      var norm := DerivedFields(Obj(RemoveKey(data, "id")));
      var present := "email" in Keys(data);
      && DistinctKeys(p)
      && (forall i :: 0 <= i < |p| ==> Defined(p[i].val))
      && "id" !in Keys(p)
      && Lookup(p, "updatedAt") == ServerTime
      && (present ==> var e := Str(EmailLowered(Lookup(data, "email")).value);
                      Lookup(p, "email") == e && Lookup(p, "emailLower") == e)
      && (!present ==> "email" !in Keys(p) && Lookup(p, "emailLower") == Clean(Lookup(data, "emailLower")))
      && (forall k :: k in Keys(norm) && k != "emailLower" ==> Lookup(p, k) == Lookup(norm, k))
      && (forall k :: k !in Keys(norm) && k != "id" && k != "email" && k != "emailLower" && k != "updatedAt" ==>
            Lookup(p, k) == Clean(Lookup(data, k)))
      && (forall k :: k in Keys(p) <==>
            k in Keys(norm) || k == "updatedAt" || (present && (k == "email" || k == "emailLower")) ||
            (k != "id" && Lookup(data, k) != Undef))
  {
    var rest := RemoveKey(data, "id");
    var norm0 := DerivedFields(Obj(rest));
    assert |"email"| == 5 && |"id"| == 2;
    var present := "email" in Keys(rest);
    assert present <==> "email" in Keys(data);
    var n := UpdateNorm(rest, norm0);
    if n.Success? {
      var p := UpdatePatch(data).value;
      var tail := [Entry("updatedAt", ServerTime)];
      DerivedKeys(Obj(rest));
      DerivedDefined(Obj(rest));
      forall k | k in Keys(norm0) ensures k != "id" && k != "email" && k != "updatedAt" {
        DerivedKeysApart(k);
      }
      UpdateTailFacts();
      if present {
        var e := EmailLowered(Lookup(rest, "email")).value;
        AssignDefined(norm0, "email", Str(e));
        AssignDefined(Assign(norm0, "email", Str(e)), "emailLower", Str(e));
        LiteralClean(rest, n.value, tail);
        assert p == Clean(Obj(Literal(rest, n.value, tail))).entries;
        Mirror(norm0, "email", "emailLower", e);
        UpdateKeysApart();
        UpdateFieldsEmail("id", "email", "emailLower", "updatedAt", data, rest, norm0, n.value, tail, p, e);
      } else {
        LiteralClean(rest, n.value, tail);
        assert p == Clean(Obj(Literal(rest, n.value, tail))).entries;
        UpdateKeysApart();
        UpdateFieldsNoEmail("id", "email", "emailLower", "updatedAt", data, rest, norm0, tail, p);
      }
    }
  }

  /** Setting `email` to `undefined` or `null` clears it: the patch holds
      the email and its lower-cased copy, both `""`, and the timestamp, and
      nothing else. */
  lemma UpdateClearsEmail(v: Value)
    requires Nullish(v)
    ensures UpdatePatch([Entry("email", v)]).Success?
    ensures var p := UpdatePatch([Entry("email", v)]).value;
      && Lookup(p, "email") == Str("") && Lookup(p, "emailLower") == Str("")
      && Lookup(p, "updatedAt") == ServerTime
      && forall k :: k in Keys(p) <==> k == "email" || k == "emailLower" || k == "updatedAt"
  {
    var data := [Entry("email", v)];
    KeysCons(data);
    assert "email" in Keys(data);
    assert DistinctKeys(data);
    assert forall k :: Lookup(data, k) == Undef || k == "email";
    var rest := RemoveKey(data, "id");
    var norm := DerivedFields(Obj(rest));
    DerivedKeys(Obj(rest));
    assert Keys(norm) == {};
    UpdateShape(data);
    ClearedKeys("id", "email", "emailLower", "updatedAt", data, norm, UpdatePatch(data).value, true);
  }

  /** The keys of a patch built from an input whose only field is an
      undefined email. */
  lemma ClearedKeys(ik: string, ek: string, lk: string, uk: string,
                    data: seq<Entry>, norm: seq<Entry>, p: seq<Entry>, present: bool)
    requires present && Keys(norm) == {} && forall k :: Lookup(data, k) == Undef || k == ek
    requires forall k :: k in Keys(p) <==>
      k in Keys(norm) || k == uk || (present && (k == ek || k == lk)) || (k != ik && Lookup(data, k) != Undef)
    ensures forall k :: k in Keys(p) <==> k == ek || k == lk || k == uk
  {
  }
  // ---------------------------------------------------------------
  // What the write methods rely on
  // ---------------------------------------------------------------

  /** The create payload is the cleaned literal of the steps `create` takes. */
  lemma CreatePayloadSteps(data: seq<Entry>, rest: seq<Entry>, norm: seq<Entry>, e: Result<string>)
    requires rest == RemoveKey(data, "id") && norm == DerivedFields(Obj(rest))
    requires e == EmailLowered(Lookup(rest, "email"))
    ensures CreatePayload(data) ==
      if e.Failure? then Failure(e.error) else Success(Clean(Obj(Literal(rest, norm, CreateTail(e.value)))).entries)
  {
  }

  /** `create` throws exactly when the email cannot be lower-cased, and
      otherwise writes a payload with distinct keys. */
  lemma CreateWritable(data: seq<Entry>)
    requires DistinctKeys(data)
    ensures CreatePayload(data).Failure? <==> EmailLowered(Lookup(data, "email")).Failure?
    ensures CreatePayload(data).Success? ==> DistinctKeys(CreatePayload(data).value)
  {
    CreateShape(data);
  }

  /** The update patch is the cleaned literal of the steps `update` takes. */
  lemma UpdatePatchSteps(data: seq<Entry>, rest: seq<Entry>, norm0: seq<Entry>, norm: Result<seq<Entry>>)
    requires rest == RemoveKey(data, "id") && norm0 == DerivedFields(Obj(rest))
    requires norm == UpdateNorm(rest, norm0)
    ensures UpdatePatch(data) ==
      if norm.Failure? then Failure(norm.error)
      else Success(Clean(Obj(Literal(rest, norm.value, [Entry("updatedAt", ServerTime)]))).entries)
  {
  }

  /** `update` throws exactly when an email is given that cannot be
      lower-cased, and otherwise merges a patch with distinct keys. */
  lemma UpdateWritable(data: seq<Entry>)
    requires DistinctKeys(data)
    ensures UpdatePatch(data).Failure? <==> "email" in Keys(data) && EmailLowered(Lookup(data, "email")).Failure?
    ensures UpdatePatch(data).Success? ==> DistinctKeys(UpdatePatch(data).value)
  {
    UpdateShape(data);
  }
}
