/**
 * The `InfluencersService` class of src/app/services/influencers.service.ts
 * as an object over the collection it reads and writes. Each query method
 * runs the service's steps (building the queries, the per-tier loops, the
 * early returns) and is proved to answer what the repository's
 * specification functions say; each write method updates the collection as
 * the payload functions say and keeps its invariant: ids are distinct and
 * no stored document holds a key twice.
 */
module Service {
  import opened Values
  import Text
  import opened Order
  import opened Normalize
  import opened Store
  import opened Search
  import opened Repository

  class InfluencersService {
    /** The `influencers` collection. */
    var col: Collection

    predicate Valid()
      reads this
    {
      && DistinctIds(col.docs)
      && forall d :: d in col.docs ==> DistinctKeys(d.data)
    }

    constructor(c: Collection)
      requires DistinctIds(c.docs) && forall d :: d in c.docs ==> DistinctKeys(d.data)
      ensures Valid() && col == c
    {
      col := c;
    }

    /** `listChunk(pageSize, lastEmail)` */
    method ListChunk(pageSize: int, lastEmail: Value) returns (r: Result<Chunk>)
      ensures r == ChunkOf(col, pageSize, lastEmail)
    {
      var base := Range("email", Unbounded, None, pageSize);
      var q := if Truthy(lastEmail) then Range("email", After(lastEmail), None, pageSize) else base;
      var snap := Execute(col, q);
      if snap.Failed? {
        return Failure("query failed");
      }
      var items := Rows(snap.docs);
      var last: Value := Null;
      if |snap.docs| > 0 {
        var e := Field(snap.docs[|snap.docs| - 1], "email");
        if !Nullish(e) {
          last := e;
        }
      }
      var ended := snap.docs == [] || |snap.docs| < pageSize;
      r := Success(Chunk(items, last, ended));
    }

    /** `searchByName(term, pageSize)` */
    method SearchByName(term: string, pageSize: int) returns (r: Result<seq<Row>>)
      ensures r == RowsOf(NameSearch(col, term, pageSize))
    {
      var raw := Text.Trim(term);
      var sn := NormalizeForWrite(Str(raw));
      var out: seq<Row> := [];
      var seen: set<string> := {};
      ghost var acc: seq<Doc> := [];
      ghost var tiers := Outcomes(col, NameTries(term, pageSize));
      ghost var legacy := Execute(col, NameLegacy(term, pageSize));
      var full: bool;
      assert tiers == [tiers[0]] + tiers[1..] && tiers[1..] == [tiers[1]] + tiers[2..];
      assert tiers[2..] == [tiers[2]] + [];

      var s0 := Execute(col, Equal("search_name", Obj(sn), pageSize));
      TieredCons(tiers[0], tiers[1..], legacy, pageSize, acc);
      out, seen, acc, full := TryTier(out, seen, acc, s0, pageSize);
      if full {
        return Success(out);
      }

      var s1 := Execute(col, Range("nameLower", From(Obj(sn)), Some(Str(ToJsString(Obj(sn)) + [RangeEnd])), pageSize));
      TieredCons(tiers[1], tiers[2..], legacy, pageSize, acc);
      out, seen, acc, full := TryTier(out, seen, acc, s1, pageSize);
      if full {
        return Success(out);
      }

      var s2 := Execute(col, Range("handleLower", From(Obj(sn)), Some(Str(ToJsString(Obj(sn)) + [RangeEnd])), pageSize));
      TieredCons(tiers[2], [], legacy, pageSize, acc);
      out, seen, acc, full := TryTier(out, seen, acc, s2, pageSize);
      if full {
        return Success(out);
      }

      var cap := if raw == [] then [] else Text.Upper([raw[0]]) + Text.Lower(raw[1..]);
      var s3 := Execute(col, Range("name", From(Str(cap)), Some(Str(cap + [RangeEnd])), pageSize));
      if s3.Failed? {
        return Failure("query failed");
      }
      out, seen, acc := AbsorbRows(out, seen, acc, s3.docs);
      RowsSlice(acc, pageSize);
      r := Success(SliceTo(out, pageSize));
    }

    /** `searchByEmail(term, pageSize)` */
    method SearchByEmail(term: string, pageSize: int) returns (r: Result<seq<Row>>)
      ensures r == RowsOf(EmailSearch(col, term, pageSize))
    {
      var raw := Text.Trim(term);
      var lower := Text.Lower(raw);
      var out: seq<Row> := [];
      var seen: set<string> := {};
      ghost var acc: seq<Doc> := [];
      ghost var tiers := Outcomes(col, EmailTries(term, pageSize));
      ghost var legacy := Execute(col, EmailLegacy(term, pageSize));
      var full: bool;
      assert tiers == [tiers[0]] + tiers[1..] && tiers[1..] == [tiers[1]] + [];

      var s0 := Execute(col, Equal("emailLower", Str(lower), pageSize));
      TieredCons(tiers[0], tiers[1..], legacy, pageSize, acc);
      out, seen, acc, full := TryTier(out, seen, acc, s0, pageSize);
      if full {
        return Success(out);
      }

      var s1 := Execute(col, Range("emailLower", From(Str(lower)), Some(Str(lower + [RangeEnd])), pageSize));
      TieredCons(tiers[1], [], legacy, pageSize, acc);
      out, seen, acc, full := TryTier(out, seen, acc, s1, pageSize);
      if full {
        return Success(out);
      }

      var s2 := Execute(col, Range("email", From(Str(lower)), Some(Str(lower + [RangeEnd])), pageSize));
      if s2.Failed? {
        return Failure("query failed");
      }
      out, seen, acc := AbsorbRows(out, seen, acc, s2.docs);
      RowsSlice(acc, pageSize);
      r := Success(SliceTo(out, pageSize));
    }

    /** `searchSmart(term, mode, pageSize)`: the email search for mode
        `'email'`, the name search otherwise. */
    method SearchSmart(term: string, mode: string, pageSize: int) returns (r: Result<seq<Row>>)
      ensures r == if mode == "email" then RowsOf(EmailSearch(col, term, pageSize))
                   else RowsOf(NameSearch(col, term, pageSize))
    {
      if mode == "email" {
        r := SearchByEmail(term, pageSize);
      } else {
        r := SearchByName(term, pageSize);
      }
    }

    /** `get(id)` */
    method Get(id: string) returns (r: Option<Row>)
      ensures r == GetOf(col, id)
    {
      var d := FindDoc(col.docs, id);
      if d.Some? {
        r := Some(RowOf(d.value));
      } else {
        r := None;
      }
    }

    /** `create(data)`: adds the cleaned payload under a new id and answers
        that id; throws, writing nothing, when the email cannot be
        lower-cased. */
    method Create(data: seq<Entry>) returns (r: Result<string>)
      requires Valid() && DistinctKeys(data)
      modifies this
      ensures Valid()
      ensures r.Failure? <==> EmailLowered(Lookup(data, "email")).Failure?
      ensures r.Failure? ==> col == old(col)
      ensures r.Success? ==>
        && r.value !in Ids(old(col.docs))
        && col == old(col).(docs := old(col.docs) + [Doc(r.value, CreatePayload(data).value)])
        && GetOf(col, r.value) == Some(RowOf(Doc(r.value, CreatePayload(data).value)))
        && forall k :: k != r.value ==> GetOf(col, k) == GetOf(old(col), k)
    {
      var rest := RemoveKey(data, "id");
      var norm := NormalizeForWrite(Obj(rest));
      var email := EmailLowered(Lookup(rest, "email"));
      CreatePayloadSteps(data, rest, norm, email);
      CreateWritable(data);
      if email.Failure? {
        return Failure(email.error);
      }
      var payload := Literal(rest, norm, CreateTail(email.value));
      var cleaned := CleanUndefined(Obj(payload));
      var id := FreshId(col.docs);
      var d := Doc(id, cleaned.entries);
      AppendFresh(col.docs, d);
      GetAfterAppend(col, d);
      col := col.(docs := col.docs + [d]);
      r := Success(id);
    }

    /** `update(id, data)`: merges the cleaned patch into the document with
        that id (creating it when absent); throws, writing nothing, when an
        email is given that cannot be lower-cased. */
    method Update(id: string, data: seq<Entry>) returns (r: Result<()>)
      requires Valid() && DistinctKeys(data)
      modifies this
      ensures Valid()
      ensures r.Failure? <==> "email" in Keys(data) && EmailLowered(Lookup(data, "email")).Failure?
      ensures r.Failure? ==> col == old(col)
      ensures r.Success? ==>
        && col == old(col).(docs := SetMerge(old(col.docs), id, UpdatePatch(data).value))
        && GetOf(col, id) == Some(RowOf(Doc(id, MergeEntries(StoredData(old(col.docs), id), UpdatePatch(data).value))))
        && forall k :: k != id ==> GetOf(col, k) == GetOf(old(col), k)
    {
      var rest := RemoveKey(data, "id");
      var norm := NormalizeForWrite(Obj(rest));
      ghost var norm0 := norm;
      UpdatePatchSteps(data, rest, norm0, UpdateNorm(rest, norm0));
      UpdateWritable(data);
      if "email" in Keys(rest) {
        var e := EmailLowered(Lookup(rest, "email"));
        if e.Failure? {
          return Failure(e.error);
        }
        norm := Assign(norm, "email", Str(e.value));
        norm := Assign(norm, "emailLower", Lookup(norm, "email"));
      }
      assert UpdateNorm(rest, norm0) == Success(norm);
      var patch := Literal(rest, norm, [Entry("updatedAt", ServerTime)]);
      var cleaned := CleanUndefined(Obj(patch));
      var docs := col.docs;
      SetMergeEffect(docs, id, cleaned.entries);
      SetMergeMembers(docs, id, cleaned.entries);
      GetAfterMerge(col, id, cleaned.entries);
      if FindDoc(docs, id).Some? {
        assert DistinctKeys(StoredData(docs, id));
      }
      col := col.(docs := SetMerge(docs, id, cleaned.entries));
      r := Success(());
    }

    /** `remove(id)`: deletes the document with that id; every other
        document stays, in order. */
    method Remove(id: string)
      requires Valid()
      modifies this
      ensures Valid()
      ensures col == old(col).(docs := DeleteDoc(old(col.docs), id))
      ensures GetOf(col, id) == None
      ensures forall k :: k != id ==> GetOf(col, k) == GetOf(old(col), k)
    {
      DeleteDocDistinct(col.docs, id);
      GetAfterDelete(col, id);
      col := col.(docs := DeleteDoc(col.docs, id));
    }
  }
}
