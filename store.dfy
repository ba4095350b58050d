/**
 * An in-memory stand-in for the document collection the repository talks
 * to: documents with ids, the two query shapes the repository issues
 * (equality on a field; a range on one ordered field), a limit, and a
 * merge write. Which queries fail (a missing index, a lost connection) is
 * part of the collection value: the set `failing`.
 */
module Store {
  import opened Values
  import opened Order

  datatype Doc = Doc(id: string, data: seq<Entry>)

  /** The lower end of a range query: none, `startAt(v)` or `startAfter(v)`. */
  datatype Lower = Unbounded | From(v: Value) | After(v: Value)

  datatype Query =
    | Equal(field: string, value: Value, limit: int)
    | Range(field: string, lower: Lower, upper: Option<Value>, limit: int)

  datatype Outcome = Ok(docs: seq<Doc>) | Failed

  datatype Collection = Collection(docs: seq<Doc>, failing: set<Query>)

  function Field(d: Doc, f: string): Value {
    Lookup(d.data, f)
  }

  /** The ids of a list of documents. */
  function Ids(ds: seq<Doc>): set<string> {
    if ds == [] then {} else Ids(ds[..|ds| - 1]) + {ds[|ds| - 1].id}
  }

  predicate DistinctIds(ds: seq<Doc>) {
    forall i, j :: 0 <= i < j < |ds| ==> ds[i].id != ds[j].id
  }

  /** A document satisfies a query's filter: it has the field, and the value
      equals the key or lies within the bounds. */
  predicate Matches(q: Query, d: Doc) {
    var v := Field(d, q.field);
    && v != Undef
    && match q
       case Equal(_, w, _) => v == w
       case Range(_, lo, up, _) =>
         && (match lo
             case Unbounded => true
             case From(a) => Le(a, v)
             case After(a) => Lt(a, v))
         && (up.Some? ==> Le(v, up.value))
  }

  /** The store's result order: by the field's value, ties by document id. */
  predicate Before(f: string, a: Doc, b: Doc) {
    var ka, kb := KeyOf(Field(a, f)), KeyOf(Field(b, f));
    KeyLt(ka, kb) || (ka == kb && StrLt(a.id, b.id))
  }

  predicate Sorted(f: string, ds: seq<Doc>) {
    forall i, j :: 0 <= i < j < |ds| ==> !Before(f, ds[j], ds[i])
  }

  function Filter(q: Query, ds: seq<Doc>): (r: seq<Doc>)
    ensures forall d :: d in r ==> d in ds && Matches(q, d)
  {
    if ds == [] then []
    else (if Matches(q, ds[0]) then [ds[0]] else []) + Filter(q, ds[1..])
  }

  function Insert(f: string, d: Doc, ds: seq<Doc>): seq<Doc> {
    if ds == [] then [d]
    else if Before(f, ds[0], d) then [ds[0]] + Insert(f, d, ds[1..])
    else [d] + ds
  }

  function SortBy(f: string, ds: seq<Doc>): seq<Doc> {
    if ds == [] then [] else Insert(f, ds[0], SortBy(f, ds[1..]))
  }

  function Take(ds: seq<Doc>, n: nat): (r: seq<Doc>)
    ensures |r| <= n && r <= ds
    ensures |r| < n ==> r == ds
  {
    if n < |ds| then ds[..n] else ds
  }

  /** Running a query: a limit below 1 is refused, and so is a query
      the collection is set to fail; otherwise the matching documents in the
      store's order, at most `limit` of them. */
  function Execute(c: Collection, q: Query): Outcome {
    if q.limit < 1 || q in c.failing then Failed
    else Ok(Take(SortBy(q.field, Filter(q, c.docs)), q.limit))
  }

  // ---------------------------------------------------------------
  // The result order
  // ---------------------------------------------------------------

  lemma BeforeAsymmetric(f: string, a: Doc, b: Doc)
    ensures !(Before(f, a, b) && Before(f, b, a))
  {
    var ka, kb := KeyOf(Field(a, f)), KeyOf(Field(b, f));
    if KeyLt(ka, kb) && KeyLt(kb, ka) { KeyLtTransitive(ka, kb, ka); KeyLtIrreflexive(ka); }
    if KeyLt(ka, kb) && kb == ka { KeyLtIrreflexive(ka); }
    if KeyLt(kb, ka) && kb == ka { KeyLtIrreflexive(ka); }
    StrLtAsymmetric(a.id, b.id);
  }

  /** Being ordered at or before is transitive. */
  lemma NotBeforeTransitive(f: string, a: Doc, b: Doc, c: Doc)
    requires !Before(f, b, a) && !Before(f, c, b)
    ensures !Before(f, c, a)
  {
    var ka, kb, kc := KeyOf(Field(a, f)), KeyOf(Field(b, f)), KeyOf(Field(c, f));
    KeyLtTotal(ka, kb);
    KeyLtTotal(kb, kc);
    StrLtTotal(a.id, b.id);
    StrLtTotal(b.id, c.id);
    if Before(f, c, a) {
      if KeyLt(kc, ka) {
        if ka != kb { KeyLtTransitive(kc, ka, kb); }
      } else {
        assert kc == ka && StrLt(c.id, a.id);
        if !KeyLt(ka, kb) {
          assert ka == kb && (a.id == b.id || StrLt(a.id, b.id));
          if b.id != c.id { StrLtAsymmetric(b.id, c.id); }
          if a.id == b.id { StrLtAsymmetric(c.id, b.id); }
          else { StrLtTransitive(c.id, a.id, b.id); StrLtAsymmetric(c.id, b.id); }
        }
      }
    }
  }

  lemma {:induction false} InsertMultiset(f: string, d: Doc, ds: seq<Doc>)
    ensures multiset(Insert(f, d, ds)) == multiset(ds) + multiset{d}
  {
    if ds != [] && Before(f, ds[0], d) {
      InsertMultiset(f, d, ds[1..]);
      assert ds == [ds[0]] + ds[1..];
    }
  }

  lemma {:induction false} InsertSorted(f: string, d: Doc, ds: seq<Doc>)
    requires Sorted(f, ds)
    ensures Sorted(f, Insert(f, d, ds))
  {
    if ds == [] {
    } else if Before(f, ds[0], d) {
      InsertSorted(f, d, ds[1..]);
      InsertMultiset(f, d, ds[1..]);
      SortedCons(f, ds[0], ds[1..], Insert(f, d, ds[1..]), d);
    } else {
      InsertFront(f, d, ds);
    }
  }

  /** Putting `x` in front of a sorted list of documents that are each `d`
      (which `x` precedes) or an element of `rest` keeps it sorted. */
  lemma SortedCons(f: string, x: Doc, rest: seq<Doc>, t: seq<Doc>, d: Doc)
    requires Sorted(f, [x] + rest) && Sorted(f, t)
    requires multiset(t) == multiset(rest) + multiset{d} && Before(f, x, d)
    ensures Sorted(f, [x] + t)
  {
    var r := [x] + t;
    forall j | 0 < j < |r| ensures !Before(f, r[j], x) {
      assert r[j] == t[j - 1];
      assert r[j] in multiset(t);
      if r[j] == d {
        BeforeAsymmetric(f, x, d);
      } else {
        assert r[j] in rest;
        var k :| 0 <= k < |rest| && rest[k] == r[j];
        assert ([x] + rest)[k + 1] == r[j] && ([x] + rest)[0] == x;
      }
    }
    forall i, j | 0 < i < j < |r| ensures !Before(f, r[j], r[i]) {
      assert r[i] == t[i - 1] && r[j] == t[j - 1];
    }
  }

  lemma InsertFront(f: string, d: Doc, ds: seq<Doc>)
    requires Sorted(f, ds) && ds != [] && !Before(f, ds[0], d)
    ensures Sorted(f, [d] + ds)
  {
    var r := [d] + ds;
    forall j | 0 < j < |r| ensures !Before(f, r[j], d) {
      assert r[j] == ds[j - 1];
      if j > 1 { NotBeforeTransitive(f, d, ds[0], ds[j - 1]); }
    }
    forall i, j | 0 < i < j < |r| ensures !Before(f, r[j], r[i]) {
      assert r[i] == ds[i - 1] && r[j] == ds[j - 1];
    }
  }

  /** Sorting orders a list and keeps its elements. */
  lemma {:induction false} SortByCorrect(f: string, ds: seq<Doc>)
    ensures Sorted(f, SortBy(f, ds))
    ensures multiset(SortBy(f, ds)) == multiset(ds)
  {
    if ds != [] {
      SortByCorrect(f, ds[1..]);
      InsertSorted(f, ds[0], SortBy(f, ds[1..]));
      InsertMultiset(f, ds[0], SortBy(f, ds[1..]));
      assert ds == [ds[0]] + ds[1..];
    }
  }

  lemma {:induction false} FilterComplete(q: Query, ds: seq<Doc>, d: Doc)
    requires d in ds && Matches(q, d)
    ensures d in Filter(q, ds)
  {
    if ds[0] != d {
      FilterComplete(q, ds[1..], d);
    }
  }

  /** What a successful query returns: at most `limit` documents of the
      collection, each matching the filter, in the store's order, and every
      matching document when fewer than `limit` came back. */
  lemma ExecuteResult(c: Collection, q: Query)
    requires Execute(c, q).Ok?
    ensures var r := Execute(c, q).docs;
      && |r| <= q.limit
      && (forall d :: d in r ==> d in c.docs && Matches(q, d))
      && Sorted(q.field, r)
      && (|r| < q.limit ==> forall d :: d in c.docs && Matches(q, d) ==> d in r)
  {
    ExecuteMembers(c, q);
    ExecuteSorted(c, q);
    if |Execute(c, q).docs| < q.limit {
      ExecuteComplete(c, q);
    }
  }

  lemma ExecuteMembers(c: Collection, q: Query)
    requires Execute(c, q).Ok?
    ensures |Execute(c, q).docs| <= q.limit
    ensures forall d :: d in Execute(c, q).docs ==> d in c.docs && Matches(q, d)
  {
    var fs := Filter(q, c.docs);
    var s := SortBy(q.field, fs);
    SortByCorrect(q.field, fs);
    forall d | d in Take(s, q.limit) ensures d in c.docs && Matches(q, d) {
      assert d in multiset(s);
    }
  }

  lemma ExecuteSorted(c: Collection, q: Query)
    requires Execute(c, q).Ok?
    ensures Sorted(q.field, Execute(c, q).docs)
  {
    var s := SortBy(q.field, Filter(q, c.docs));
    SortByCorrect(q.field, Filter(q, c.docs));
    var r := Take(s, q.limit);
    forall i, j | 0 <= i < j < |r| ensures !Before(q.field, r[j], r[i]) {
      assert r[i] == s[i] && r[j] == s[j];
    }
  }

  lemma ExecuteComplete(c: Collection, q: Query)
    requires Execute(c, q).Ok? && |Execute(c, q).docs| < q.limit
    ensures forall d :: d in c.docs && Matches(q, d) ==> d in Execute(c, q).docs
  {
    var fs := Filter(q, c.docs);
    SortByCorrect(q.field, fs);
    forall d | d in c.docs && Matches(q, d) ensures d in Execute(c, q).docs {
      FilterComplete(q, c.docs, d);
      assert d in multiset(fs);
    }
  }

  /** A query that no document matches finds nothing (or fails). */
  lemma ExecuteNone(c: Collection, q: Query)
    requires forall d :: d in c.docs ==> !Matches(q, d)
    ensures Execute(c, q) in {Failed, Ok([])}
  {
    FilterNone(q, c.docs);
  }

  lemma {:induction false} FilterNone(q: Query, ds: seq<Doc>)
    requires forall d :: d in ds ==> !Matches(q, d)
    ensures Filter(q, ds) == []
  {
    if ds != [] {
      assert ds[0] in ds;
      FilterNone(q, ds[1..]);
    }
  }

  /** In a sorted list the last document's value is the largest. */
  lemma SortedLastMax(f: string, ds: seq<Doc>, i: nat)
    requires Sorted(f, ds) && i < |ds|
    ensures Le(Field(ds[i], f), Field(ds[|ds| - 1], f))
  {
    if i < |ds| - 1 {
      assert !Before(f, ds[|ds| - 1], ds[i]);
    } else {
      KeyLtIrreflexive(KeyOf(Field(ds[i], f)));
    }
  }

  /** Failure is exactly a limit below 1 or a failing query. */
  lemma ExecuteFails(c: Collection, q: Query)
    ensures Execute(c, q).Failed? <==> q.limit < 1 || q in c.failing
  {
  }

  /** An equality query returns its documents in id order. */
  lemma EqualById(c: Collection, f: string, w: Value, n: int)
    requires Execute(c, Equal(f, w, n)).Ok?
    ensures var r := Execute(c, Equal(f, w, n)).docs;
      forall i, j :: 0 <= i < j < |r| ==> !StrLt(r[j].id, r[i].id)
  {
    var r := Execute(c, Equal(f, w, n)).docs;
    ExecuteResult(c, Equal(f, w, n));
    forall i, j | 0 <= i < j < |r| ensures !StrLt(r[j].id, r[i].id) {
      assert Matches(Equal(f, w, n), r[i]) && Matches(Equal(f, w, n), r[j]);
    }
  }

  // ---------------------------------------------------------------
  // Distinct ids in answers
  // ---------------------------------------------------------------

  /** Putting a document in front of a list without its id keeps ids distinct. */
  lemma ConsDistinct(x: Doc, t: seq<Doc>)
    requires DistinctIds(t) && forall e :: e in t ==> e.id != x.id
    ensures DistinctIds([x] + t)
  {
    var r := [x] + t;
    forall i, j | 0 <= i < j < |r| ensures r[i].id != r[j].id {
      assert r[j] == t[j - 1] && r[j] in t;
      if i > 0 { assert r[i] == t[i - 1]; }
    }
  }

  lemma {:induction false} FilterDistinct(q: Query, ds: seq<Doc>)
    requires DistinctIds(ds)
    ensures DistinctIds(Filter(q, ds))
  {
    if ds != [] {
      var t := ds[1..];
      assert DistinctIds(t) by {
        forall i, j | 0 <= i < j < |t| ensures t[i].id != t[j].id {
          assert t[i] == ds[i + 1] && t[j] == ds[j + 1];
        }
      }
      FilterDistinct(q, t);
      if Matches(q, ds[0]) {
        forall e | e in Filter(q, t) ensures e.id != ds[0].id {
          var k :| 0 <= k < |t| && t[k] == e;
          assert ds[k + 1] == e;
        }
        ConsDistinct(ds[0], Filter(q, t));
      } else {
        assert Filter(q, ds) == Filter(q, t);
      }
    }
  }

  lemma {:induction false} InsertDistinct(f: string, d: Doc, ds: seq<Doc>)
    requires DistinctIds(ds) && forall e :: e in ds ==> e.id != d.id
    ensures DistinctIds(Insert(f, d, ds))
  {
    if ds == [] {
    } else if Before(f, ds[0], d) {
      var t := ds[1..];
      assert DistinctIds(t) by {
        forall i, j | 0 <= i < j < |t| ensures t[i].id != t[j].id {
          assert t[i] == ds[i + 1] && t[j] == ds[j + 1];
        }
      }
      InsertDistinct(f, d, t);
      InsertMultiset(f, d, t);
      forall e | e in Insert(f, d, t) ensures e.id != ds[0].id {
        assert e in multiset(Insert(f, d, t));
        if e != d {
          var k :| 0 <= k < |t| && t[k] == e;
          assert ds[k + 1] == e;
        }
      }
      ConsDistinct(ds[0], Insert(f, d, t));
    } else {
      ConsDistinct(d, ds);
    }
  }

  lemma {:induction false} SortByDistinct(f: string, ds: seq<Doc>)
    requires DistinctIds(ds)
    ensures DistinctIds(SortBy(f, ds))
  {
    if ds != [] {
      var t := ds[1..];
      assert DistinctIds(t) by {
        forall i, j | 0 <= i < j < |t| ensures t[i].id != t[j].id {
          assert t[i] == ds[i + 1] && t[j] == ds[j + 1];
        }
      }
      SortByDistinct(f, t);
      SortByCorrect(f, t);
      forall e | e in SortBy(f, t) ensures e.id != ds[0].id {
        assert e in multiset(SortBy(f, t));
        var k :| 0 <= k < |t| && t[k] == e;
        assert ds[k + 1] == e;
      }
      InsertDistinct(f, ds[0], SortBy(f, t));
    }
  }

  /** A query over a collection with distinct ids answers distinct ids. */
  lemma ExecuteDistinct(c: Collection, q: Query)
    requires DistinctIds(c.docs) && Execute(c, q).Ok?
    ensures DistinctIds(Execute(c, q).docs)
  {
    var fs := Filter(q, c.docs);
    FilterDistinct(q, c.docs);
    SortByDistinct(q.field, fs);
    var s := SortBy(q.field, fs);
    var r := Execute(c, q).docs;
    forall i, j | 0 <= i < j < |r| ensures r[i].id != r[j].id {
      assert r[i] == s[i] && r[j] == s[j];
    }
  }

  /** In a list with distinct ids, a document is determined by its id. */
  lemma SameIdSameDoc(ds: seq<Doc>, a: Doc, b: Doc)
    requires DistinctIds(ds) && a in ds && b in ds && a.id == b.id
    ensures a == b
  {
    var i :| 0 <= i < |ds| && ds[i] == a;
    var j :| 0 <= j < |ds| && ds[j] == b;
  }

  /** A list has at least as many documents as ids, and exactly as many when
      its ids are distinct. */
  lemma {:induction false} IdsCard(ds: seq<Doc>)
    ensures |Ids(ds)| <= |ds|
    ensures DistinctIds(ds) ==> |Ids(ds)| == |ds|
  {
    if ds != [] {
      var init := ds[..|ds| - 1];
      var d := ds[|ds| - 1];
      IdsCard(init);
      if DistinctIds(ds) {
        assert DistinctIds(init) by {
          forall i, j | 0 <= i < j < |init| ensures init[i].id != init[j].id {
            assert init[i] == ds[i] && init[j] == ds[j];
          }
        }
        IdsMember(init, d.id);
      }
    }
  }

  lemma {:induction false} SubsetCard<T>(a: set<T>, b: set<T>)
    requires a <= b
    ensures |a| <= |b|
    decreases a
  {
    if a != {} {
      var x :| x in a;
      SubsetCard(a - {x}, b - {x});
    }
  }

  // ---------------------------------------------------------------
  // Merge writes: setDoc(ref, patch, { merge: true })
  // ---------------------------------------------------------------

  /** A patch value replaces the stored one, except that a non-empty map is
      merged field by field into the stored map (or into nothing). */
  function MergeValue(stored: Value, v: Value): Value
    decreases v
  {
    if v.Obj? && v.entries != [] then
      Obj(MergeEntries(if stored.Obj? then stored.entries else [], v.entries))
    else v
  }

  /** Each patch field, in order, merged into the stored fields. */
  function MergeEntries(stored: seq<Entry>, patch: seq<Entry>): (r: seq<Entry>)
    ensures Keys(r) == Keys(stored) + Keys(patch)
    ensures forall k :: k !in Keys(patch) ==> Lookup(r, k) == Lookup(stored, k)
    ensures DistinctKeys(stored) ==> DistinctKeys(r)
    decreases patch, 0
  {
    if patch == [] then stored
    else
      var k := patch[0].key;
      var mid := Assign(stored, k, MergeValue(Lookup(stored, k), patch[0].val));
      KeysCons(patch);
      MergeEntries(mid, patch[1..])
  }

  /** A patch field whose value is not a non-empty map is stored as given,
      when the patch has distinct keys. */
  lemma {:induction false} MergeLeaf(stored: seq<Entry>, patch: seq<Entry>, i: nat)
    requires DistinctKeys(patch) && i < |patch|
    requires !(patch[i].val.Obj? && patch[i].val.entries != [])
    ensures Lookup(MergeEntries(stored, patch), patch[i].key) == patch[i].val
    decreases patch
  {
    var k := patch[0].key;
    var mid := Assign(stored, k, MergeValue(Lookup(stored, k), patch[0].val));
    DistinctKeysCons(patch);
    if i == 0 {
      assert Lookup(mid, k) == patch[0].val;
    } else {
      assert patch[1..][i - 1] == patch[i];
      MergeLeaf(mid, patch[1..], i - 1);
    }
  }

  /** The documents after a merge write of `patch` to id `id`: the stored
      document is updated in place, or a new one is appended. */
  function SetMerge(docs: seq<Doc>, id: string, patch: seq<Entry>): (r: seq<Doc>)
    ensures Ids(r) == Ids(docs) + {id}
  {
    if docs == [] then [Doc(id, MergeEntries([], patch))]
    else
      var last := docs[|docs| - 1];
      var init := docs[..|docs| - 1];
      if last.id == id then
        assert (init + [Doc(id, MergeEntries(last.data, patch))])[..|docs| - 1] == init;
        init + [Doc(id, MergeEntries(last.data, patch))]
      else
        var r := SetMerge(init, id, patch) + [last];
        assert r[..|r| - 1] == SetMerge(init, id, patch);
        r
  }

  /** `deleteDoc`: the documents with another id, order kept. */
  function DeleteDoc(docs: seq<Doc>, id: string): (r: seq<Doc>)
    ensures Ids(r) == Ids(docs) - {id}
    ensures forall d :: d in r <==> d in docs && d.id != id
  {
    if docs == [] then []
    else
      var init := DeleteDoc(docs[..|docs| - 1], id);
      var last := docs[|docs| - 1];
      assert docs == docs[..|docs| - 1] + [last];
      if last.id == id then init
      else
        var r := init + [last];
        assert r[..|r| - 1] == init;
        r
  }

  /** `getDoc`: the first document with that id. */
  function FindDoc(docs: seq<Doc>, id: string): (r: Option<Doc>)
    ensures r.Some? <==> id in Ids(docs)
    ensures r.Some? ==> r.value in docs && r.value.id == id
  {
    if docs == [] then None
    else
      var init := docs[..|docs| - 1];
      var found := FindDoc(init, id);
      assert docs == init + [docs[|docs| - 1]];
      if found.Some? then found
      else if docs[|docs| - 1].id == id then Some(docs[|docs| - 1])
      else None
  }

  // ---------------------------------------------------------------
  // Writes keep ids distinct
  // ---------------------------------------------------------------

  lemma {:induction false} IdsMember(ds: seq<Doc>, x: string)
    ensures x in Ids(ds) <==> exists i :: 0 <= i < |ds| && ds[i].id == x
  {
    if ds != [] {
      var init := ds[..|ds| - 1];
      IdsMember(init, x);
      if x in Ids(init) {
        var i :| 0 <= i < |init| && init[i].id == x;
        assert ds[i].id == x;
      }
      if exists i :: 0 <= i < |ds| && ds[i].id == x {
        var i :| 0 <= i < |ds| && ds[i].id == x;
        if i < |ds| - 1 { assert init[i].id == x; }
      }
    }
  }

  /** Appending a document whose id is new keeps ids distinct. */
  lemma AppendFresh(docs: seq<Doc>, d: Doc)
    requires DistinctIds(docs) && d.id !in Ids(docs)
    ensures DistinctIds(docs + [d])
  {
    var r := docs + [d];
    forall i, j | 0 <= i < j < |r| ensures r[i].id != r[j].id {
      if j == |docs| {
        assert r[i] == docs[i];
        IdsMember(docs, d.id);
      } else {
        assert r[i] == docs[i] && r[j] == docs[j];
      }
    }
  }

  /** After appending a document with a new id, reading that id finds it,
      and every other id reads what it read before. */
  lemma AppendFind(docs: seq<Doc>, d: Doc)
    requires d.id !in Ids(docs)
    ensures FindDoc(docs + [d], d.id) == Some(d)
    ensures forall k :: k != d.id ==> FindDoc(docs + [d], k) == FindDoc(docs, k)
  {
    var r := docs + [d];
    assert r[..|r| - 1] == docs;
    FindDocAbsent(docs, d.id);
  }

  /** A merge write keeps ids distinct and touches only the document with
      its id: that one now holds the patch merged into its old fields (or
      into nothing, when it was absent); every other document is unchanged. */
  lemma {:induction false} SetMergeEffect(docs: seq<Doc>, id: string, patch: seq<Entry>)
    requires DistinctIds(docs)
    ensures DistinctIds(SetMerge(docs, id, patch))
    ensures FindDoc(SetMerge(docs, id, patch), id) == Some(Doc(id, MergeEntries(StoredData(docs, id), patch)))
    ensures forall k :: k != id ==> FindDoc(SetMerge(docs, id, patch), k) == FindDoc(docs, k)
  {
    if docs != [] {
      var last := docs[|docs| - 1];
      var init := docs[..|docs| - 1];
      DropLast(docs);
      if last.id == id {
        var r := init + [Doc(id, MergeEntries(last.data, patch))];
        assert r[..|r| - 1] == init;
        AppendFresh(init, Doc(id, MergeEntries(last.data, patch)));
        FindDocAbsent(init, id);
        forall k | k != id ensures FindDoc(r, k) == FindDoc(docs, k) {
        }
      } else {
        SetMergeEffect(init, id, patch);
        var m := SetMerge(init, id, patch);
        var r := m + [last];
        assert r[..|r| - 1] == m;
        AppendFresh(m, last);
        if FindDoc(init, id).None? { FindDocAbsent(init, id); }
      }
    }
  }

  /** The fields a merge write to `id` starts from: the stored document's,
      or none when there is no document with that id. */
  function StoredData(docs: seq<Doc>, id: string): seq<Entry> {
    if FindDoc(docs, id).Some? then FindDoc(docs, id).value.data else []
  }

  /** After a merge write, every document is an old one or the merged one. */
  lemma {:induction false} SetMergeMembers(docs: seq<Doc>, id: string, patch: seq<Entry>)
    requires DistinctIds(docs)
    ensures forall d :: d in SetMerge(docs, id, patch) ==>
      d in docs || d == Doc(id, MergeEntries(StoredData(docs, id), patch))
  {
    if docs != [] {
      var last := docs[|docs| - 1];
      var init := docs[..|docs| - 1];
      DropLast(docs);
      assert docs == init + [last];
      if last.id == id {
        FindDocAbsent(init, id);
      } else {
        SetMergeMembers(init, id, patch);
        assert StoredData(docs, id) == StoredData(init, id);
      }
    }
  }

  /** Without its last document, a collection with distinct ids still has
      them, and none of the rest shares the last one's id. */
  lemma DropLast(docs: seq<Doc>)
    requires DistinctIds(docs) && docs != []
    ensures DistinctIds(docs[..|docs| - 1])
    ensures docs[|docs| - 1].id !in Ids(docs[..|docs| - 1])
  {
    var init := docs[..|docs| - 1];
    forall i, j | 0 <= i < j < |init| ensures init[i].id != init[j].id {
      assert init[i] == docs[i] && init[j] == docs[j];
    }
    forall i | 0 <= i < |init| ensures init[i].id != docs[|docs| - 1].id {
      assert init[i] == docs[i];
    }
    IdsMember(init, docs[|docs| - 1].id);
  }

  lemma FindDocAbsent(docs: seq<Doc>, id: string)
    requires id !in Ids(docs)
    ensures FindDoc(docs, id) == None
  {
  }

  /** Deleting keeps ids distinct. */
  lemma DeleteDocDistinct(docs: seq<Doc>, id: string)
    requires DistinctIds(docs)
    ensures DistinctIds(DeleteDoc(docs, id))
    ensures FindDoc(DeleteDoc(docs, id), id) == None
  {
    var r := DeleteDoc(docs, id);
    forall i, j | 0 <= i < j < |r| ensures r[i].id != r[j].id {
      DeleteDocOrder(docs, id, i, j);
    }
  }

  /** Deleting one id leaves what every other id reads. */
  lemma {:induction false} DeleteDocFind(docs: seq<Doc>, id: string, k: string)
    requires k != id
    ensures FindDoc(DeleteDoc(docs, id), k) == FindDoc(docs, k)
  {
    if docs != [] {
      var init := docs[..|docs| - 1];
      var last := docs[|docs| - 1];
      DeleteDocFind(init, id, k);
      if last.id != id {
        var r := DeleteDoc(init, id) + [last];
        assert r[..|r| - 1] == DeleteDoc(init, id);
      }
    }
  }

  /** The order of the documents a deletion keeps is their old order. */
  lemma {:induction false} DeleteDocOrder(docs: seq<Doc>, id: string, i: nat, j: nat)
    requires DistinctIds(docs) && i < j < |DeleteDoc(docs, id)|
    ensures DeleteDoc(docs, id)[i].id != DeleteDoc(docs, id)[j].id
  {
    var init := docs[..|docs| - 1];
    var last := docs[|docs| - 1];
    var r := DeleteDoc(docs, id);
    var t := DeleteDoc(init, id);
    DropLast(docs);
    if last.id == id || j < |t| {
      assert r[i] == t[i] && r[j] == t[j];
      DeleteDocOrder(init, id, i, j);
    } else {
      assert r[j] == last && r[i] == t[i];
      assert t[i] in init;
      var k :| 0 <= k < |init| && init[k] == t[i];
      assert docs[k] == t[i];
    }
  }

  /** The longest id, plus one, bounds every id's length. */
  function IdBound(docs: seq<Doc>): (n: nat)
    ensures forall d :: d in docs ==> |d.id| < n
  {
    if docs == [] then 0
    else
      var m := IdBound(docs[1..]);
      assert forall d :: d in docs ==> d == docs[0] || d in docs[1..];
      if |docs[0].id| < m then m else |docs[0].id| + 1
  }

  /** The id `addDoc` assigns: any id the collection does not hold yet; here
      a run of 'x' longer than every id. */
  function FreshId(docs: seq<Doc>): (id: string)
    ensures id !in Ids(docs)
  {
    var id := seq(IdBound(docs), _ => 'x');
    IdsMember(docs, id);
    id
  }
}
