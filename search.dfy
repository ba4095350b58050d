/**
 * The accumulation both tolerant searches share: each tier's documents are
 * pushed as rows (the id, then the data) unless their id was seen; after a tier
 * that ran, the search returns the unsliced accumulator once it holds
 * `pageSize` rows; a failing tier before the last is skipped, a failing last
 * tier throws; the last tier's accumulator is sliced to `pageSize`.
 */
module Search {
  import opened Values
  import opened Store

  type Row = seq<Entry>

  /** A document as a row: its id under `id`, then its data spread over it. */
  function RowOf(d: Doc): Row {
    Spread([Entry("id", Str(d.id))], d.data)
  }

  function Rows(ds: seq<Doc>): (r: seq<Row>)
    ensures |r| == |ds| && forall i :: 0 <= i < |ds| ==> r[i] == RowOf(ds[i])
  {
    seq(|ds|, i requires 0 <= i < |ds| => RowOf(ds[i]))
  }

  /** One step of a tier's loop: `d` is pushed unless its id was seen. */
  function Step(acc: seq<Doc>, d: Doc): seq<Doc> {
    if d.id in Ids(acc) then acc else acc + [d]
  }

  /** A tier's loop over its documents `ds`. */
  function Absorb(acc: seq<Doc>, ds: seq<Doc>): seq<Doc> {
    if ds == [] then acc else Step(Absorb(acc, ds[..|ds| - 1]), ds[|ds| - 1])
  }

  /** The first `n` elements of `xs` (array slicing); a negative `n` counts from the end. */
  function SliceTo<T>(xs: seq<T>, n: int): (r: seq<T>)
    ensures r <= xs
    ensures 0 <= n ==> |r| == if n < |xs| then n else |xs|
  {
    if n >= |xs| then xs
    else if n >= 0 then xs[..n]
    else if |xs| + n <= 0 then []
    else xs[..|xs| + n]
  }

  /** A tolerant search over the outcomes of its tiers: `tiers` are the
      tiers inside `try`, `last` the final one. */
  function Tiered(tiers: seq<Outcome>, last: Outcome, pageSize: int, acc: seq<Doc>): Result<seq<Doc>> {
    if tiers == [] then
      if last.Failed? then Failure("query failed")
      else Success(SliceTo(Absorb(acc, last.docs), pageSize))
    else if tiers[0].Failed? then Tiered(tiers[1..], last, pageSize, acc)
    else
      var next := Absorb(acc, tiers[0].docs);
      if |next| >= pageSize then Success(next)
      else Tiered(tiers[1..], last, pageSize, next)
  }

  /** Every tier's documents absorbed in tier order, with no early return
      and no slicing: the order the search's answer is a prefix of. */
  function AllAbsorbed(tiers: seq<Outcome>, last: Outcome, acc: seq<Doc>): seq<Doc> {
    if tiers == [] then (if last.Failed? then acc else Absorb(acc, last.docs))
    else AllAbsorbed(tiers[1..], last, if tiers[0].Failed? then acc else Absorb(acc, tiers[0].docs))
  }

  /** A search's answer as the rows the caller receives. */
  function RowsOf(r: Result<seq<Doc>>): Result<seq<Row>> {
    match r
    case Success(ds) => Success(Rows(ds))
    case Failure(e) => Failure(e)
  }

  // ---------------------------------------------------------------
  // A tier's loop
  // ---------------------------------------------------------------

  /** A tier's loop: each document whose id is not in `seen` has its id added
      and its row pushed onto `out`; `out` and `seen` are the rows and ids of
      `acc`. */
  method AbsorbRows(out0: seq<Row>, seen0: set<string>, ghost acc0: seq<Doc>, docs: seq<Doc>)
    returns (out: seq<Row>, seen: set<string>, ghost acc: seq<Doc>)
    requires out0 == Rows(acc0) && seen0 == Ids(acc0)
    ensures acc == Absorb(acc0, docs)
    ensures out == Rows(Absorb(acc0, docs)) && seen == Ids(Absorb(acc0, docs))
  {
    out, seen, acc := out0, seen0, acc0;
    for i := 0 to |docs|
      invariant acc == Absorb(acc0, docs[..i])
      invariant out == Rows(acc) && seen == Ids(acc)
    {
      var d := docs[i];
      assert docs[..i + 1][..i] == docs[..i];
      if d.id !in seen {
        seen := seen + {d.id};
        out := out + [RowOf(d)];
        RowsSnoc(acc, d);
        IdsSnoc(acc, d);
        acc := acc + [d];
      }
    }
    assert docs[..|docs|] == docs;
  }

  /** One guarded tier (query, loop, early return once `pageSize` rows are
      held, errors swallowed), given the tier's outcome `o`: a failed tier changes nothing; a
      tier that ran is absorbed, and `full` says the search returns now. */
  method TryTier(out0: seq<Row>, seen0: set<string>, ghost acc0: seq<Doc>, o: Outcome, pageSize: int)
    returns (out: seq<Row>, seen: set<string>, ghost acc: seq<Doc>, full: bool)
    requires out0 == Rows(acc0) && seen0 == Ids(acc0)
    ensures acc == (if o.Failed? then acc0 else Absorb(acc0, o.docs))
    ensures out == Rows(acc) && seen == Ids(acc)
    ensures full <==> o.Ok? && |acc| >= pageSize
    ensures o.Failed? ==> out == out0 && seen == seen0 && !full
  {
    out, seen, acc, full := out0, seen0, acc0, false;
    if o.Ok? {
      out, seen, acc := AbsorbRows(out, seen, acc, o.docs);
      full := |out| >= pageSize;
    }
  }

  // ---------------------------------------------------------------
  // Lemmas
  // ---------------------------------------------------------------

  lemma RowsSnoc(ds: seq<Doc>, d: Doc)
    ensures Rows(ds + [d]) == Rows(ds) + [RowOf(d)]
  {
  }

  lemma IdsSnoc(ds: seq<Doc>, d: Doc)
    ensures Ids(ds + [d]) == Ids(ds) + {d.id}
  {
    assert (ds + [d])[..|ds|] == ds;
  }

  /** A tier keeps what was gathered before it and adds only its own
      documents whose ids are new, in query order. */
  lemma {:induction false} AbsorbFacts(acc: seq<Doc>, ds: seq<Doc>)
    ensures var r := Absorb(acc, ds);
      && acc <= r
      && |r| <= |acc| + |ds|
      && (forall i :: |acc| <= i < |r| ==> r[i] in ds && r[i].id !in Ids(acc))
  {
    if ds != [] {
      var init := ds[..|ds| - 1];
      var d := ds[|ds| - 1];
      var m := Absorb(acc, init);
      AbsorbFacts(acc, init);
      assert ds == init + [d];
      if d.id !in Ids(m) {
        var r := m + [d];
        forall i | |acc| <= i < |r| ensures r[i] in ds && r[i].id !in Ids(acc) {
          if i < |m| {
            assert r[i] == m[i];
          } else {
            AbsorbIds(acc, init);
          }
        }
      }
    }
  }

  /** After a tier, the seen ids are the earlier ones and the tier's. */
  lemma {:induction false} AbsorbIds(acc: seq<Doc>, ds: seq<Doc>)
    ensures Ids(Absorb(acc, ds)) == Ids(acc) + Ids(ds)
  {
    if ds != [] {
      var init := ds[..|ds| - 1];
      var d := ds[|ds| - 1];
      var m := Absorb(acc, init);
      AbsorbIds(acc, init);
      assert Ids(ds) == Ids(init) + {d.id};
      assert Absorb(acc, ds) == Step(m, d);
      if d.id !in Ids(m) {
        IdsSnoc(m, d);
      }
    }
  }

  /** A tier never adds an id twice. */
  lemma {:induction false} AbsorbDistinct(acc: seq<Doc>, ds: seq<Doc>)
    requires DistinctIds(acc)
    ensures DistinctIds(Absorb(acc, ds))
  {
    if ds != [] {
      var init := ds[..|ds| - 1];
      var d := ds[|ds| - 1];
      var m := Absorb(acc, init);
      AbsorbDistinct(acc, init);
      if d.id !in Ids(m) {
        var r := m + [d];
        forall i, j | 0 <= i < j < |r| ensures r[i].id != r[j].id {
          if j == |m| {
            assert r[i] == m[i];
            IdsMember(m, d.id);
          } else {
            assert r[i] == m[i] && r[j] == m[j];
          }
        }
      }
    }
  }

  /** The answer, when there is one, is a prefix of everything the tiers
      return in tier order: an id keeps the place of the first tier that
      returned it. */
  lemma {:induction false} TieredPrefix(tiers: seq<Outcome>, last: Outcome, pageSize: int, acc: seq<Doc>)
    requires Tiered(tiers, last, pageSize, acc).Success?
    ensures Tiered(tiers, last, pageSize, acc).value <= AllAbsorbed(tiers, last, acc)
    decreases |tiers|
  {
    var r := Tiered(tiers, last, pageSize, acc).value;
    if tiers == [] {
      AbsorbFacts(acc, last.docs);
    } else {
      var next := if tiers[0].Failed? then acc else Absorb(acc, tiers[0].docs);
      if tiers[0].Ok? { AbsorbFacts(acc, tiers[0].docs); }
      AllAbsorbedGrows(tiers[1..], last, next);
      if tiers[0].Failed? || |next| < pageSize {
        TieredPrefix(tiers[1..], last, pageSize, next);
      }
    }
  }

  lemma {:induction false} AllAbsorbedGrows(tiers: seq<Outcome>, last: Outcome, acc: seq<Doc>)
    ensures acc <= AllAbsorbed(tiers, last, acc)
    ensures DistinctIds(acc) ==> DistinctIds(AllAbsorbed(tiers, last, acc))
    decreases |tiers|
  {
    if tiers == [] {
      if last.Ok? {
        AbsorbFacts(acc, last.docs);
        if DistinctIds(acc) { AbsorbDistinct(acc, last.docs); }
      }
    } else {
      var next := if tiers[0].Failed? then acc else Absorb(acc, tiers[0].docs);
      if tiers[0].Ok? {
        AbsorbFacts(acc, tiers[0].docs);
        if DistinctIds(acc) { AbsorbDistinct(acc, tiers[0].docs); }
      }
      AllAbsorbedGrows(tiers[1..], last, next);
    }
  }

  /** No id appears twice in the answer. */
  lemma TieredDistinct(tiers: seq<Outcome>, last: Outcome, pageSize: int, acc: seq<Doc>)
    requires DistinctIds(acc) && Tiered(tiers, last, pageSize, acc).Success?
    ensures DistinctIds(Tiered(tiers, last, pageSize, acc).value)
  {
    TieredPrefix(tiers, last, pageSize, acc);
    AllAbsorbedGrows(tiers, last, acc);
  }

  /** Only the last tier's failure propagates; it does unless an earlier
      tier already filled the page. */
  lemma {:induction false} TieredFailure(tiers: seq<Outcome>, last: Outcome, pageSize: int, acc: seq<Doc>)
    ensures Tiered(tiers, last, pageSize, acc).Failure? ==> last.Failed?
    ensures last.Failed? && |AllAbsorbed(tiers, last, acc)| < pageSize ==>
      Tiered(tiers, last, pageSize, acc).Failure?
    decreases |tiers|
  {
    if tiers != [] {
      var next := if tiers[0].Failed? then acc else Absorb(acc, tiers[0].docs);
      AllAbsorbedGrows(tiers[1..], last, next);
      TieredFailure(tiers[1..], last, pageSize, next);
    }
  }

  /** A tier inside `try` that throws is the same as one that finds
      nothing, while the page is not yet full. */
  lemma {:induction false} FailedTierSwallowed(tiers: seq<Outcome>, i: nat, last: Outcome, pageSize: int, acc: seq<Doc>)
    requires i < |tiers| && |acc| < pageSize
    ensures Tiered(tiers[i := Failed], last, pageSize, acc) == Tiered(tiers[i := Ok([])], last, pageSize, acc)
    decreases i
  {
    if i == 0 {
      assert tiers[i := Failed][1..] == tiers[1..] == tiers[i := Ok([])][1..];
    } else {
      var next := if tiers[0].Failed? then acc else Absorb(acc, tiers[0].docs);
      assert tiers[i := Failed][0] == tiers[0] == tiers[i := Ok([])][0];
      assert tiers[i := Failed][1..] == tiers[1..][i - 1 := Failed];
      assert tiers[i := Ok([])][1..] == tiers[1..][i - 1 := Ok([])];
      if tiers[0].Failed? || |next| < pageSize {
        FailedTierSwallowed(tiers[1..], i - 1, last, pageSize, next);
      }
    }
  }

  /** When each tier returns at most `pageSize` documents, the answer of the
      last tier holds at most `pageSize` rows, and an early answer fewer than
      `2 * pageSize`. */
  lemma {:induction false} TieredLength(tiers: seq<Outcome>, last: Outcome, pageSize: int, acc: seq<Doc>)
    requires |acc| < pageSize
    requires forall k :: 0 <= k < |tiers| && tiers[k].Ok? ==> |tiers[k].docs| <= pageSize
    requires Tiered(tiers, last, pageSize, acc).Success?
    ensures |Tiered(tiers, last, pageSize, acc).value| < 2 * pageSize
    ensures |AllAbsorbed(tiers, Ok([]), acc)| < pageSize ==> |Tiered(tiers, last, pageSize, acc).value| <= pageSize
    decreases |tiers|
  {
    if tiers != [] {
      var next := if tiers[0].Failed? then acc else Absorb(acc, tiers[0].docs);
      if tiers[0].Ok? { AbsorbFacts(acc, tiers[0].docs); }
      AllAbsorbedGrows(tiers[1..], Ok([]), next);
      assert Absorb(next, []) == next;
      if tiers[0].Failed? || |next| < pageSize {
        assert forall k :: 0 <= k < |tiers[1..]| ==> tiers[1..][k] == tiers[k + 1];
        TieredLength(tiers[1..], last, pageSize, next);
      }
    }
  }

  /** An early answer is not sliced: with a page of 2, a first tier that
      finds one document and a second that finds two others answer with
      three rows. */
  lemma EarlyAnswerExceedsPage(a: Doc, b: Doc, c: Doc, last: Outcome)
    requires a.id != b.id && a.id != c.id && b.id != c.id
    ensures Tiered([Ok([a]), Ok([b, c])], last, 2, []) == Success([a, b, c])
  {
    AbsorbOne(a);
    AbsorbTwoNew(a, b, c);
    assert [Ok([b, c])] == [Ok([b, c])] + [];
    TieredCons(Ok([b, c]), [], last, 2, [a]);
    assert Tiered([Ok([b, c])], last, 2, [a]) == Success([a, b, c]);
    assert [Ok([a]), Ok([b, c])] == [Ok([a])] + [Ok([b, c])];
    TieredCons(Ok([a]), [Ok([b, c])], last, 2, []);
  }

  /** A tier of one document pushes it onto an empty accumulator. */
  lemma AbsorbOne(a: Doc)
    ensures Absorb([], [a]) == [a]
  {
    assert [a][..0] == [];
  }

  /** A tier of two new documents pushes both, in order. */
  lemma AbsorbTwoNew(a: Doc, b: Doc, c: Doc)
    requires a.id != b.id && a.id != c.id && b.id != c.id
    ensures Absorb([a], [b, c]) == [a, b, c]
  {
    var ab := [a] + [b];
    assert Absorb([a], [b]) == ab by {
      assert [b][..0] == [];
      IdsSnoc([], a);
      assert [] + [a] == [a];
    }
    assert Absorb([a], [b, c]) == ab + [c] by {
      assert [b, c][..1] == [b];
      IdsSnoc([a], b);
    }
    assert ab + [c] == [a, b, c];
  }

  /** The first tier decides whether the search returns, and what it hands on. */
  lemma TieredCons(o: Outcome, rest: seq<Outcome>, last: Outcome, pageSize: int, acc: seq<Doc>)
    ensures Tiered([o] + rest, last, pageSize, acc) ==
      if o.Failed? then Tiered(rest, last, pageSize, acc)
      else if |Absorb(acc, o.docs)| >= pageSize then Success(Absorb(acc, o.docs))
      else Tiered(rest, last, pageSize, Absorb(acc, o.docs))
  {
    assert ([o] + rest)[0] == o && ([o] + rest)[1..] == rest;
  }

  /** A tier adds only its own documents. */
  lemma AbsorbFrom(acc: seq<Doc>, ds: seq<Doc>, d: Doc)
    requires d in Absorb(acc, ds)
    ensures d in acc || d in ds
  {
    var r := Absorb(acc, ds);
    AbsorbFacts(acc, ds);
    var i :| 0 <= i < |r| && r[i] == d;
    if i < |acc| { assert acc[i] == r[i]; }
  }

  /** Every document gathered came from the accumulator, from a tier that
      ran, or from the last tier. */
  lemma {:induction false} AllAbsorbedFrom(tiers: seq<Outcome>, last: Outcome, acc: seq<Doc>, d: Doc)
    requires d in AllAbsorbed(tiers, last, acc)
    ensures || d in acc
            || (exists k :: 0 <= k < |tiers| && tiers[k].Ok? && d in tiers[k].docs)
            || (last.Ok? && d in last.docs)
    decreases |tiers|
  {
    if tiers == [] {
      if last.Ok? { AbsorbFrom(acc, last.docs, d); }
    } else {
      var next := if tiers[0].Failed? then acc else Absorb(acc, tiers[0].docs);
      AllAbsorbedFrom(tiers[1..], last, next, d);
      if d in next && tiers[0].Ok? {
        AbsorbFrom(acc, tiers[0].docs, d);
      }
      if exists k :: 0 <= k < |tiers[1..]| && tiers[1..][k].Ok? && d in tiers[1..][k].docs {
        var k :| 0 <= k < |tiers[1..]| && tiers[1..][k].Ok? && d in tiers[1..][k].docs;
        assert tiers[k + 1] == tiers[1..][k];
      }
    }
  }

  /** Every document of the answer came from a tier that ran or from the
      last tier. */
  lemma TieredFrom(tiers: seq<Outcome>, last: Outcome, pageSize: int, d: Doc)
    requires Tiered(tiers, last, pageSize, []).Success? && d in Tiered(tiers, last, pageSize, []).value
    ensures || (exists k :: 0 <= k < |tiers| && tiers[k].Ok? && d in tiers[k].docs)
            || (last.Ok? && d in last.docs)
  {
    TieredPrefix(tiers, last, pageSize, []);
    AllAbsorbedFrom(tiers, last, [], d);
  }

  /** An answer shorter than the page hides nothing: it is every tier
      absorbed in order, the last one included, and the last tier ran. */
  lemma {:induction false} TieredShortIsAll(tiers: seq<Outcome>, last: Outcome, pageSize: int, acc: seq<Doc>)
    requires Tiered(tiers, last, pageSize, acc).Success?
    requires |Tiered(tiers, last, pageSize, acc).value| < pageSize
    ensures Tiered(tiers, last, pageSize, acc).value == AllAbsorbed(tiers, last, acc)
    ensures last.Ok?
    decreases |tiers|
  {
    if tiers != [] {
      var next := if tiers[0].Failed? then acc else Absorb(acc, tiers[0].docs);
      TieredShortIsAll(tiers[1..], last, pageSize, next);
    }
  }

  /** Every id of the accumulator, of a tier that ran and of the last tier
      (when it ran) is among the ids absorbed. */
  lemma {:induction false} AllAbsorbedIds(tiers: seq<Outcome>, last: Outcome, acc: seq<Doc>)
    ensures Ids(acc) <= Ids(AllAbsorbed(tiers, last, acc))
    ensures forall k :: 0 <= k < |tiers| && tiers[k].Ok? ==> Ids(tiers[k].docs) <= Ids(AllAbsorbed(tiers, last, acc))
    ensures last.Ok? ==> Ids(last.docs) <= Ids(AllAbsorbed(tiers, last, acc))
    decreases |tiers|
  {
    if tiers == [] {
      if last.Ok? { AbsorbIds(acc, last.docs); }
    } else {
      var next := if tiers[0].Failed? then acc else Absorb(acc, tiers[0].docs);
      if tiers[0].Ok? { AbsorbIds(acc, tiers[0].docs); }
      AllAbsorbedIds(tiers[1..], last, next);
      forall k | 1 <= k < |tiers| && tiers[k].Ok?
        ensures Ids(tiers[k].docs) <= Ids(AllAbsorbed(tiers, last, acc))
      {
        assert tiers[1..][k - 1] == tiers[k];
      }
    }
  }

  /** Rows of a slice are the slice of the rows. */
  lemma RowsSlice(ds: seq<Doc>, n: int)
    ensures Rows(SliceTo(ds, n)) == SliceTo(Rows(ds), n)
  {
  }

  /** A search whose every tier fails throws. */
  lemma {:induction false} TieredAllFailed(tiers: seq<Outcome>, last: Outcome, pageSize: int, acc: seq<Doc>)
    requires forall k :: 0 <= k < |tiers| ==> tiers[k].Failed?
    requires last.Failed?
    ensures Tiered(tiers, last, pageSize, acc) == Failure("query failed")
    decreases |tiers|
  {
    if tiers != [] {
      assert forall k :: 0 <= k < |tiers[1..]| ==> tiers[1..][k] == tiers[k + 1];
      TieredAllFailed(tiers[1..], last, pageSize, acc);
    }
  }

  /** Tiers that fail or find nothing leave the answer to the last tier,
      while the page is not full. */
  lemma {:induction false} TieredQuiet(tiers: seq<Outcome>, last: Outcome, pageSize: int, acc: seq<Doc>)
    requires |acc| < pageSize
    requires forall k :: 0 <= k < |tiers| ==> tiers[k] in {Failed, Ok([])}
    ensures Tiered(tiers, last, pageSize, acc) == Tiered([], last, pageSize, acc)
    decreases |tiers|
  {
    if tiers != [] {
      assert Absorb(acc, []) == acc;
      assert forall k :: 0 <= k < |tiers[1..]| ==> tiers[1..][k] == tiers[k + 1];
      TieredQuiet(tiers[1..], last, pageSize, acc);
    }
  }
}
