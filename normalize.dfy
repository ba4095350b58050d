/**
 * The write-side helpers of src/app/utils/normalize.ts: `inferHandleLower`,
 * `normalizeForWrite` (only the derived keys whose source is present) and
 * `cleanUndefined` (drop `undefined` at every depth).
 */
module Normalize {
  import opened Values
  import opened Text
  import opened KeywordIndex

  /** The handle fields `inferHandleLower` consults, in the order `||` tries them. */
  const HandleKeys: seq<string> := ["instagram", "tiktok", "youtube"]

  /** `inferHandleLower(handles)`: the lower-cased string of the first truthy
      handle; `None` stands for `undefined`. */
  function InferHandleLower(handles: Value): (r: Option<string>)
    ensures r.None? <==> forall k :: 0 <= k < |HandleKeys| ==> !Truthy(Prop(handles, HandleKeys[k]))
    ensures r.Some? ==>
      exists k :: 0 <= k < |HandleKeys| && Truthy(Prop(handles, HandleKeys[k])) &&
        (forall j :: 0 <= j < k ==> !Truthy(Prop(handles, HandleKeys[j]))) &&
        r.value == Lower(ToJsString(Prop(handles, HandleKeys[k])))
  {
    var ig, tt, yt := Prop(handles, "instagram"), Prop(handles, "tiktok"), Prop(handles, "youtube");
    assert ig == Prop(handles, HandleKeys[0]) && tt == Prop(handles, HandleKeys[1]) && yt == Prop(handles, HandleKeys[2]);
    var h := if Truthy(ig) then ig else if Truthy(tt) then tt else yt;
    if Truthy(h) then Some(Lower(ToJsString(h))) else None
  }

  /** `kw` as an array value. */
  function StrValues(kw: seq<string>): (r: seq<Value>)
    ensures |r| == |kw| && forall i :: 0 <= i < |kw| ==> r[i] == Str(kw[i])
  {
    seq(|kw|, i requires 0 <= i < |kw| => Str(kw[i]))
  }

  /** What `normalizeForWrite` derives from a present name `s`: `String(s)`
      lower-cased, its normalised text and its keywords. */
  datatype NameInfo = NameInfo(lower: string, searchName: string, keywords: seq<string>)

  /** The lower-cased text of a present email; nothing for a nullish one. */
  function EmailInfo(email: Value): Option<string> {
    if Nullish(email) then None else Some(Lower(ToJsString(email)))
  }

  /** The three values derived from `raw.name` when it is not nullish. */
  function NameInfoOf(name: Value): Option<NameInfo> {
    if Nullish(name) then None
    else
      var s := ToJsString(name);
      Some(NameInfo(Lower(s), NormalizeText(Some(s)), Keywords(Some(s))))
  }

  /** The inferred handle when it is truthy, i.e. a non-empty string. */
  function HandleInfo(handles: Value): Option<string> {
    var h := InferHandleLower(handles);
    if h.Some? && h.value != [] then h else None
  }

  /** The entries of `out`, given what was derived: `emailLower`, then
      `nameLower`, `search_name` and (when non-empty) `keywords`, then
      `handleLower`, each only when present. */
  function Derive(e: Option<string>, n: Option<NameInfo>, h: Option<string>): seq<Entry> {
    (if e.Some? then [Entry("emailLower", Str(e.value))] else [])
      + (if n.Some? then NameEntries(n.value) else [])
      + (if h.Some? then [Entry("handleLower", Str(h.value))] else [])
  }

  function NameEntries(n: NameInfo): seq<Entry> {
    [Entry("nameLower", Str(n.lower)), Entry("search_name", Str(n.searchName))]
      + (if n.keywords == [] then [] else [Entry("keywords", Arr(StrValues(n.keywords)))])
  }

  /** The object `normalizeForWrite(raw)` builds, as a list of entries. */
  function DerivedFields(raw: Value): seq<Entry> {
    Derive(EmailInfo(Prop(raw, "email")), NameInfoOf(Prop(raw, "name")), HandleInfo(Prop(raw, "handles")))
  }

  /** `normalizeForWrite(raw)`: the conditional assignments into the fresh
      object `out`. Each key is assigned at most once, so each assignment adds
      an entry at the end. */
  method NormalizeForWrite(raw: Value) returns (out: seq<Entry>)
    ensures out == DerivedFields(raw)
  {
    out := [];
    var email := Prop(raw, "email");
    ghost var e := EmailInfo(email);
    ghost var ep: seq<Entry> := if e.Some? then [Entry("emailLower", Str(e.value))] else [];
    if !Nullish(email) {
      out := out + [Entry("emailLower", Str(Lower(ToJsString(email))))];
    }
    assert out == ep;
    var name := Prop(raw, "name");
    ghost var nm := NameInfoOf(name);
    ghost var np: seq<Entry> := if nm.Some? then NameEntries(nm.value) else [];
    if !Nullish(name) {
      var n := NameFields(ToJsString(name));
      out := out + n;
    } else {
      assert out + [] == out;
    }
    assert out == ep + np;
    var handles := Prop(raw, "handles");
    ghost var h := HandleInfo(handles);
    ghost var hp: seq<Entry> := if h.Some? then [Entry("handleLower", Str(h.value))] else [];
    var hLower := InferHandleLower(handles);
    if hLower.Some? && hLower.value != [] {
      out := out + [Entry("handleLower", Str(hLower.value))];
    } else {
      assert out + [] == out;
    }
    assert out == ep + np + hp;
  }

  /** The assignments of `nameLower`, `search_name` and `keywords` for the name string `s`. */
  method NameFields(s: string) returns (out: seq<Entry>)
    ensures out == NameEntries(NameInfo(Lower(s), NormalizeText(Some(s)), Keywords(Some(s))))
  {
    out := [Entry("nameLower", Str(Lower(s)))];
    out := out + [Entry("search_name", Str(NormalizeText(Some(s))))];
    var kw := BuildKeywords(Some(s));
    if |kw| > 0 {
      out := out + [Entry("keywords", Arr(StrValues(kw)))];
    }
  }

  // ---------------------------------------------------------------
  // cleanUndefined
  // ---------------------------------------------------------------

  /** The items of `xs` that are not `undefined`, order kept. */
  function DropUndef(xs: seq<Value>): (r: seq<Value>)
    ensures Undef !in r
  {
    if xs == [] then []
    else (if xs[0] == Undef then [] else [xs[0]]) + DropUndef(xs[1..])
  }

  /** The own entries whose value is not `undefined`. */
  function DropUndefEntries(es: seq<Entry>): (r: seq<Entry>)
    ensures forall i :: 0 <= i < |r| ==> r[i].val != Undef
  {
    if es == [] then []
    else (if es[0].val == Undef then [] else [es[0]]) + DropUndefEntries(es[1..])
  }

  /** `cleanUndefined(v)`. The server-timestamp sentinel is kept as a leaf. */
  function Clean(v: Value): (r: Value)
    ensures r.Obj? <==> v.Obj?
    ensures r.Arr? <==> v.Arr?
    ensures r == Undef <==> v == Undef
    decreases v
  {
    match v
    case Arr(items) => Arr(DropUndef(CleanEach(items)))
    case Obj(es) => Obj(DropUndefEntries(CleanVals(es)))
    case _ => v
  }

  /** `items.map(cleanUndefined)` */
  function CleanEach(items: seq<Value>): (r: seq<Value>)
    ensures |r| == |items|
    decreases items, 0
  {
    if items == [] then [] else [Clean(items[0])] + CleanEach(items[1..])
  }

  /** Each entry's value passed through `cleanUndefined`. */
  function CleanVals(es: seq<Entry>): (r: seq<Entry>)
    ensures |r| == |es|
    decreases es, 0
  {
    if es == [] then [] else [Entry(es[0].key, Clean(es[0].val))] + CleanVals(es[1..])
  }

  /** `cleanUndefined(v)` as written: recursion, with a loop over the array
      elements and a loop over `Object.entries(v)`. */
  method CleanUndefined(v: Value) returns (r: Value)
    ensures r == Clean(v)
    decreases v
  {
    match v {
      case Arr(items) =>
        var out: seq<Value> := [];
        for i := 0 to |items|
          invariant out == DropUndef(CleanEach(items[..i]))
        {
          var c := CleanUndefined(items[i]);
          CleanEachSnoc(items[..i], items[i]);
          assert items[..i + 1] == items[..i] + [items[i]];
          DropUndefSnoc(CleanEach(items[..i]), c);
          if c != Undef {
            out := out + [c];
          }
        }
        assert items[..|items|] == items;
        r := Arr(out);
      case Obj(es) =>
        var o: seq<Entry> := [];
        for i := 0 to |es|
          invariant o == DropUndefEntries(CleanVals(es[..i]))
        {
          var c := CleanUndefined(es[i].val);
          CleanValsSnoc(es[..i], es[i]);
          assert es[..i + 1] == es[..i] + [es[i]];
          DropUndefEntriesSnoc(CleanVals(es[..i]), Entry(es[i].key, c));
          if c != Undef {
            o := o + [Entry(es[i].key, c)];
          }
        }
        assert es[..|es|] == es;
        r := Obj(o);
      case _ =>
        r := v;
    }
  }

  lemma CleanEachSnoc(items: seq<Value>, x: Value)
    ensures CleanEach(items + [x]) == CleanEach(items) + [Clean(x)]
  {
    if items != [] {
      assert (items + [x])[1..] == items[1..] + [x];
      CleanEachSnoc(items[1..], x);
    }
  }

  lemma CleanValsSnoc(es: seq<Entry>, e: Entry)
    ensures CleanVals(es + [e]) == CleanVals(es) + [Entry(e.key, Clean(e.val))]
  {
    if es != [] {
      assert (es + [e])[1..] == es[1..] + [e];
      CleanValsSnoc(es[1..], e);
    }
  }

  lemma DropUndefSnoc(xs: seq<Value>, x: Value)
    ensures DropUndef(xs + [x]) == DropUndef(xs) + (if x == Undef then [] else [x])
  {
    if xs != [] {
      assert (xs + [x])[1..] == xs[1..] + [x];
      DropUndefSnoc(xs[1..], x);
    }
  }

  lemma DropUndefEntriesSnoc(es: seq<Entry>, e: Entry)
    ensures DropUndefEntries(es + [e]) == DropUndefEntries(es) + (if e.val == Undef then [] else [e])
  {
    if es != [] {
      assert (es + [e])[1..] == es[1..] + [e];
      DropUndefEntriesSnoc(es[1..], e);
    }
  }

  // ---------------------------------------------------------------
  // Lemmas: normalizeForWrite
  // ---------------------------------------------------------------

  /** The keys of the derived object, each under its own condition, and no other;
      no key twice. */
  lemma DeriveKeys(e: Option<string>, n: Option<NameInfo>, h: Option<string>)
    ensures var out := Derive(e, n, h);
      && DistinctKeys(out)
      && ("emailLower" in Keys(out) <==> e.Some?)
      && ("nameLower" in Keys(out) <==> n.Some?)
      && ("search_name" in Keys(out) <==> n.Some?)
      && ("keywords" in Keys(out) <==> n.Some? && n.value.keywords != [])
      && ("handleLower" in Keys(out) <==> h.Some?)
      && Keys(out) <= {"emailLower", "nameLower", "search_name", "keywords", "handleLower"}
  {
    DeriveKeySet(e, n, h);
  }

  lemma DeriveKeySet(e: Option<string>, n: Option<NameInfo>, h: Option<string>)
    ensures DistinctKeys(Derive(e, n, h))
    ensures Keys(Derive(e, n, h)) ==
      (if e.Some? then {"emailLower"} else {})
      + (if n.Some? then {"nameLower", "search_name"} + (if n.value.keywords == [] then {} else {"keywords"}) else {})
      + (if h.Some? then {"handleLower"} else {})
  {
    var ep := if e.Some? then [Entry("emailLower", Str(e.value))] else [];
    var np := if n.Some? then NameEntries(n.value) else [];
    var hp := if h.Some? then [Entry("handleLower", Str(h.value))] else [];
    assert Derive(e, n, h) == ep + (np + hp);
    if e.Some? { SingleEntry(ep[0]); }
    NameHandleKeys(n, h);
    KeysConcat(ep, np + hp);
    DistinctKeysConcat(ep, np + hp);
  }

  lemma NameHandleKeys(n: Option<NameInfo>, h: Option<string>)
    ensures var np := if n.Some? then NameEntries(n.value) else [];
      var hp := if h.Some? then [Entry("handleLower", Str(h.value))] else [];
      && DistinctKeys(np + hp)
      && Keys(np + hp) ==
        (if n.Some? then {"nameLower", "search_name"} + (if n.value.keywords == [] then {} else {"keywords"}) else {})
        + (if h.Some? then {"handleLower"} else {})
  {
    var np := if n.Some? then NameEntries(n.value) else [];
    var hp := if h.Some? then [Entry("handleLower", Str(h.value))] else [];
    if n.Some? { NameEntriesKeys(n.value); }
    if h.Some? { SingleEntry(hp[0]); }
    KeysConcat(np, hp);
    DistinctKeysConcat(np, hp);
  }

  lemma SingleEntry(x: Entry)
    ensures Keys([x]) == {x.key} && DistinctKeys([x])
  {
    KeysCons([x]);
    assert [x][1..] == [];
  }

  lemma NameEntriesKeys(n: NameInfo)
    ensures DistinctKeys(NameEntries(n))
    ensures Keys(NameEntries(n)) == {"nameLower", "search_name"} + if n.keywords == [] then {} else {"keywords"}
  {
    var a := [Entry("nameLower", Str(n.lower)), Entry("search_name", Str(n.searchName))];
    var b := if n.keywords == [] then [] else [Entry("keywords", Arr(StrValues(n.keywords)))];
    assert Keys(a) == {"nameLower", "search_name"} by { KeysCons(a); SingleEntry(a[1]); assert a[1..] == [a[1]]; }
    assert DistinctKeys(a);
    if b != [] { SingleEntry(b[0]); }
    KeysConcat(a, b);
    DistinctKeysConcat(a, b);
  }

  lemma KeysConcat(a: seq<Entry>, b: seq<Entry>)
    ensures Keys(a + b) == Keys(a) + Keys(b)
  {
    if a == [] {
      assert a + b == b;
    } else {
      assert (a + b)[0] == a[0] && (a + b)[1..] == a[1..] + b;
      KeysConcat(a[1..], b);
      calc {
        Keys(a + b);
        { KeysCons(a + b); }
        Keys(a[1..] + b) + {a[0].key};
        Keys(a[1..]) + Keys(b) + {a[0].key};
        { KeysCons(a); }
        Keys(a) + Keys(b);
      }
    }
  }

  lemma DistinctKeysConcat(a: seq<Entry>, b: seq<Entry>)
    requires DistinctKeys(a) && DistinctKeys(b) && Keys(a) !! Keys(b)
    ensures DistinctKeys(a + b)
  {
    forall i, j | 0 <= i < j < |a + b| ensures (a + b)[i].key != (a + b)[j].key {
      if i < |a| && j >= |a| {
        KeyAt(a, i);
        KeyAt(b, j - |a|);
      }
    }
  }

  /** The value under each derived key, when present; every value is a
      string or an array of strings, never `undefined`. */
  lemma DeriveValues(e: Option<string>, n: Option<NameInfo>, h: Option<string>)
    ensures var out := Derive(e, n, h);
      && (forall i :: 0 <= i < |out| ==> out[i].val.Str? || (out[i].val.Arr? && out[i].key == "keywords"))
      && (e.Some? ==> Lookup(out, "emailLower") == Str(e.value))
      && (n.Some? ==> Lookup(out, "nameLower") == Str(n.value.lower))
      && (n.Some? ==> Lookup(out, "search_name") == Str(n.value.searchName))
      && (n.Some? && n.value.keywords != [] ==> Lookup(out, "keywords") == Arr(StrValues(n.value.keywords)))
      && (h.Some? ==> Lookup(out, "handleLower") == Str(h.value))
  {
    var out := Derive(e, n, h);
    DeriveKeys(e, n, h);
    var k := if e.Some? then 1 else 0;
    var m := if n.Some? then |NameEntries(n.value)| else 0;
    if e.Some? {
      LookupDistinct(out, 0);
    }
    if n.Some? {
      assert out[k].key == "nameLower" && out[k + 1].key == "search_name";
      LookupDistinct(out, k);
      LookupDistinct(out, k + 1);
      if n.value.keywords != [] {
        assert out[k + 2].key == "keywords";
        LookupDistinct(out, k + 2);
      }
    }
    if h.Some? {
      assert out[k + m].key == "handleLower";
      LookupDistinct(out, k + m);
    }
  }

  /** `normalizeForWrite(raw)` has exactly the keys whose source is present:
      `emailLower` iff `raw.email != null`, `nameLower` and `search_name` iff
      `raw.name != null`, `keywords` iff moreover the name has keywords,
      `handleLower` iff a handle is inferred and non-empty; no key twice, and
      no other key. */
  lemma DerivedKeys(raw: Value)
    ensures var out := DerivedFields(raw);
      var email, name := Prop(raw, "email"), Prop(raw, "name");
      var h := InferHandleLower(Prop(raw, "handles"));
      && DistinctKeys(out)
      && ("emailLower" in Keys(out) <==> !Nullish(email))
      && ("nameLower" in Keys(out) <==> !Nullish(name))
      && ("search_name" in Keys(out) <==> !Nullish(name))
      && ("keywords" in Keys(out) <==> !Nullish(name) && Keywords(Some(ToJsString(name))) != [])
      && ("handleLower" in Keys(out) <==> h.Some? && h.value != [])
      && Keys(out) <= {"emailLower", "nameLower", "search_name", "keywords", "handleLower"}
  {
    DeriveKeys(EmailInfo(Prop(raw, "email")), NameInfoOf(Prop(raw, "name")), HandleInfo(Prop(raw, "handles")));
  }

  /** The values `normalizeForWrite(raw)` stores: `String(email)` and
      `String(name)` lower-cased, the normalised name, its keywords as an
      array, the inferred handle. */
  lemma DerivedValues(raw: Value)
    ensures var out := DerivedFields(raw);
      var email, name := Prop(raw, "email"), Prop(raw, "name");
      var h := InferHandleLower(Prop(raw, "handles"));
      && (forall i :: 0 <= i < |out| ==> out[i].val != Undef)
      && (!Nullish(email) ==> Lookup(out, "emailLower") == Str(Lower(ToJsString(email))))
      && (!Nullish(name) ==> Lookup(out, "nameLower") == Str(Lower(ToJsString(name))))
      && (!Nullish(name) ==> Lookup(out, "search_name") == Str(NormalizeText(Some(ToJsString(name)))))
      && (!Nullish(name) && Keywords(Some(ToJsString(name))) != [] ==>
            Lookup(out, "keywords") == Arr(StrValues(Keywords(Some(ToJsString(name))))))
      && (h.Some? && h.value != [] ==> Lookup(out, "handleLower") == Str(h.value))
  {
    DeriveValues(EmailInfo(Prop(raw, "email")), NameInfoOf(Prop(raw, "name")), HandleInfo(Prop(raw, "handles")));
  }

  /** Every derived value is defined all the way down. */
  lemma DeriveDefined(e: Option<string>, n: Option<NameInfo>, h: Option<string>)
    ensures forall i :: 0 <= i < |Derive(e, n, h)| ==> Defined(Derive(e, n, h)[i].val)
  {
    var out := Derive(e, n, h);
    DeriveValues(e, n, h);
    forall i | 0 <= i < |out| ensures Defined(out[i].val) {
      if out[i].val.Arr? {
        assert out[i].val == Arr(StrValues(n.value.keywords)) by {
          DeriveKeys(e, n, h);
          LookupDistinct(out, i);
        }
      }
    }
  }

  lemma DerivedDefined(raw: Value)
    ensures forall i :: 0 <= i < |DerivedFields(raw)| ==> Defined(DerivedFields(raw)[i].val)
  {
    DeriveDefined(EmailInfo(Prop(raw, "email")), NameInfoOf(Prop(raw, "name")), HandleInfo(Prop(raw, "handles")));
  }

  /** `normalizeForWrite` of a bare string: no property is present, so `{}`. */
  lemma DerivedFieldsOfString(s: string)
    ensures DerivedFields(Str(s)) == []
  {
    assert InferHandleLower(Undef) == None;
  }

  /** A truthy handle can still stringify to "": an empty array makes
      `inferHandleLower` return "", which `normalizeForWrite` then omits. */
  lemma EmptyArrayHandle()
    ensures InferHandleLower(Obj([Entry("instagram", Arr([]))])) == Some("")
    ensures HandleInfo(Obj([Entry("instagram", Arr([]))])) == None
  {
    var hs := Obj([Entry("instagram", Arr([]))]);
    assert Prop(hs, "instagram") == Arr([]);
  }

  /** `inferHandleLower` prefers instagram, then tiktok, then youtube, and skips "". */
  lemma InferHandleOrder(a: string, b: string)
    requires b != []
    ensures InferHandleLower(Obj([Entry("instagram", Str("")), Entry("tiktok", Str(b)),
                                  Entry("youtube", Str(a))])) == Some(Lower(b))
  {
    var es := [Entry("instagram", Str("")), Entry("tiktok", Str(b)), Entry("youtube", Str(a))];
    assert Lookup(es, "instagram") == Str("");
    assert Lookup(es, "tiktok") == Str(b) by { assert es[1..][0].key == "tiktok"; }
  }

  // ---------------------------------------------------------------
  // Lemmas: cleanUndefined
  // ---------------------------------------------------------------

  /** No `undefined` at any depth. */
  predicate Defined(v: Value)
    decreases v
  {
    match v
    case Undef => false
    case Arr(items) => forall i :: 0 <= i < |items| ==> Defined(items[i])
    case Obj(es) => forall i :: 0 <= i < |es| ==> Defined(es[i].val)
    case _ => true
  }

  /** `cleanUndefined` yields `undefined` only for `undefined`, and otherwise
      leaves no `undefined` anywhere inside. */
  lemma {:induction false} CleanDefined(v: Value)
    ensures Clean(v) == Undef <==> v == Undef
    ensures v != Undef ==> Defined(Clean(v))
    decreases v
  {
    match v {
      case Arr(items) =>
        forall x | x in DropUndef(CleanEach(items)) ensures Defined(x) {
          DropUndefIn(CleanEach(items), x);
          var i :| 0 <= i < |items| && CleanEach(items)[i] == x;
          CleanEachAt(items, i);
          CleanDefined(items[i]);
        }
      case Obj(es) =>
        var r := DropUndefEntries(CleanVals(es));
        forall j | 0 <= j < |r| ensures Defined(r[j].val) {
          DropUndefEntriesIn(CleanVals(es), r[j]);
          var i :| 0 <= i < |es| && CleanVals(es)[i] == r[j];
          CleanValsAt(es, i);
          CleanDefined(es[i].val);
        }
      case _ =>
    }
  }

  lemma CleanEachAt(items: seq<Value>, i: nat)
    requires i < |items|
    ensures CleanEach(items)[i] == Clean(items[i])
  {
    if i > 0 { CleanEachAt(items[1..], i - 1); }
  }

  lemma CleanValsAt(es: seq<Entry>, i: nat)
    requires i < |es|
    ensures CleanVals(es)[i] == Entry(es[i].key, Clean(es[i].val))
  {
    if i > 0 { CleanValsAt(es[1..], i - 1); }
  }

  lemma DropUndefIn(xs: seq<Value>, x: Value)
    ensures x in DropUndef(xs) <==> x in xs && x != Undef
  {
    if xs != [] { DropUndefIn(xs[1..], x); }
  }

  lemma DropUndefEntriesIn(es: seq<Entry>, e: Entry)
    ensures e in DropUndefEntries(es) <==> e in es && e.val != Undef
  {
    if es != [] { DropUndefEntriesIn(es[1..], e); }
  }

  /** On a value with no `undefined` inside, `cleanUndefined` is the identity. */
  lemma {:induction false} CleanDefinedIdentity(v: Value)
    requires Defined(v)
    ensures Clean(v) == v
    decreases v
  {
    match v {
      case Arr(items) =>
        forall i | 0 <= i < |items| ensures CleanEach(items)[i] == items[i] {
          CleanEachAt(items, i);
          CleanDefinedIdentity(items[i]);
        }
        assert CleanEach(items) == items;
        DropUndefNone(items);
      case Obj(es) =>
        forall i | 0 <= i < |es| ensures CleanVals(es)[i] == es[i] {
          CleanValsAt(es, i);
          CleanDefinedIdentity(es[i].val);
        }
        assert CleanVals(es) == es;
        DropUndefEntriesNone(es);
      case _ =>
    }
  }

  lemma DropUndefNone(xs: seq<Value>)
    requires Undef !in xs
    ensures DropUndef(xs) == xs
  {
    if xs != [] { DropUndefNone(xs[1..]); }
  }

  lemma DropUndefEntriesNone(es: seq<Entry>)
    requires forall i :: 0 <= i < |es| ==> es[i].val != Undef
    ensures DropUndefEntries(es) == es
  {
    if es != [] { DropUndefEntriesNone(es[1..]); }
  }

  /** `cleanUndefined` is idempotent. */
  lemma CleanIdempotent(v: Value)
    ensures Clean(Clean(v)) == Clean(v)
  {
    CleanDefined(v);
    if v != Undef {
      CleanDefinedIdentity(Clean(v));
    }
  }

  /** `a` is `b` with some elements removed, order kept. */
  predicate Subsequence<T(==)>(a: seq<T>, b: seq<T>)
    decreases |b|
  {
    if a == [] then true
    else if b == [] then false
    else if a[0] == b[0] then Subsequence(a[1..], b[1..])
    else Subsequence(a, b[1..])
  }

  /** On an array, the cleaned elements that are not `undefined` survive, in
      their original relative order, each as often as before; `undefined`
      ones are gone. */
  lemma CleanArray(items: seq<Value>)
    ensures Clean(Arr(items)).Arr?
    ensures Subsequence(Clean(Arr(items)).items, CleanEach(items))
    ensures multiset(Clean(Arr(items)).items) == multiset(CleanEach(items))[Undef := 0]
  {
    DropUndefShape(CleanEach(items));
  }

  lemma {:induction false} DropUndefShape(xs: seq<Value>)
    ensures Subsequence(DropUndef(xs), xs)
    ensures multiset(DropUndef(xs)) == multiset(xs)[Undef := 0]
  {
    if xs != [] {
      DropUndefShape(xs[1..]);
      assert xs == [xs[0]] + xs[1..];
      var t := DropUndef(xs[1..]);
      if xs[0] == Undef {
        assert DropUndef(xs) == t;
      } else {
        assert DropUndef(xs) == [xs[0]] + t;
        assert ([xs[0]] + t)[1..] == t;
      }
    }
  }

  /** On an object with distinct keys, each key reads the cleaned value of
      the original one, and exactly the keys whose value was `undefined` are
      gone. */
  lemma {:induction false} CleanObject(es: seq<Entry>)
    requires DistinctKeys(es)
    ensures Clean(Obj(es)).Obj?
    ensures DistinctKeys(Clean(Obj(es)).entries)
    ensures forall k :: Lookup(Clean(Obj(es)).entries, k) == Clean(Lookup(es, k))
    ensures forall k :: k in Keys(Clean(Obj(es)).entries) <==> k in Keys(es) && Lookup(es, k) != Undef
    decreases |es|
  {
    if es != [] {
      DistinctKeysCons(es);
      KeysCons(es);
      CleanObject(es[1..]);
      var t := DropUndefEntries(CleanVals(es[1..]));
      assert Clean(Obj(es[1..])).entries == t;
      var c := Clean(es[0].val);
      CleanDefined(es[0].val);
      var r := DropUndefEntries(CleanVals(es));
      assert CleanVals(es)[1..] == CleanVals(es[1..]);
      assert r == (if c == Undef then [] else [Entry(es[0].key, c)]) + t;
      if c == Undef {
        assert r == t;
      } else {
        assert r[0].key == es[0].key && r[1..] == t;
        DistinctKeysCons(r);
        KeysCons(r);
      }
      forall k ensures Lookup(r, k) == Clean(Lookup(es, k)) {
        if k == es[0].key {
          assert Lookup(es, k) == es[0].val;
          if c == Undef {
            assert k !in Keys(t);
          }
        } else {
          assert Lookup(es, k) == Lookup(es[1..], k);
          assert Lookup(r, k) == Lookup(t, k);
        }
      }
      forall k ensures k in Keys(r) <==> k in Keys(es) && Lookup(es, k) != Undef {
        if k == es[0].key {
          assert Lookup(es, k) == es[0].val;
          if c == Undef { assert k !in Keys(t); }
        } else {
          assert Lookup(es, k) == Lookup(es[1..], k);
        }
      }
    }
  }

  /** {a: 1, b: undefined, c: {d: undefined, e: [undefined, 2]}} cleans to {a: 1, c: {e: [2]}}. */
  lemma CleanExample()
    ensures Clean(Obj([Entry("a", Num(1)), Entry("b", Undef),
                       Entry("c", Obj([Entry("d", Undef), Entry("e", Arr([Undef, Num(2)]))]))]))
         == Obj([Entry("a", Num(1)), Entry("c", Obj([Entry("e", Arr([Num(2)]))]))])
  {
    assert CleanEach([Undef, Num(2)]) == [Undef, Num(2)];
    assert DropUndef([Undef, Num(2)]) == [Num(2)];
    var inner := [Entry("d", Undef), Entry("e", Arr([Undef, Num(2)]))];
    assert Clean(Obj(inner)) == Obj([Entry("e", Arr([Num(2)]))]);
  }
}
