/**
 * JavaScript-like values as the normaliser and the repository see them:
 * the `undefined` marker, `null`, booleans, (integral) numbers, strings,
 * arrays, plain objects with their own enumerable keys in insertion order
 * (JavaScript's listing of integer-like keys first is not modelled),
 * and the store's server-timestamp sentinel as an opaque leaf.
 */
module Values {

  datatype Option<T> = None | Some(value: T) {
    function GetOr(default: T): (r: T) {
      match this
      case Some(v) => v
      case None => default
    }
  }

  /** The outcome of an operation that may throw: its value, or the error. */
  datatype Result<T> = Success(value: T) | Failure(error: string)

  datatype Value =
    | Undef
    | Null
    | Bool(b: bool)
    | Num(n: int)
    | Str(s: string)
    | Arr(items: seq<Value>)
    | Obj(entries: seq<Entry>)
    | ServerTime

  /** One own property of an object: its key and its value. */
  datatype Entry = Entry(key: string, val: Value)

  /** The keys of an object's entries. */
  function Keys(es: seq<Entry>): set<string> {
    if es == [] then {} else {es[0].key} + Keys(es[1..])
  }

  /** A JavaScript object never holds the same key twice. */
  predicate DistinctKeys(es: seq<Entry>) {
    forall i, j :: 0 <= i < j < |es| ==> es[i].key != es[j].key
  }

  lemma KeysCons(es: seq<Entry>)
    requires es != []
    ensures Keys(es) == {es[0].key} + Keys(es[1..])
  {
  }

  /** Membership in `Keys` is having an entry with that key. */
  lemma KeysMember(es: seq<Entry>, k: string)
    ensures k in Keys(es) <==> exists i :: 0 <= i < |es| && es[i].key == k
  {
    if es != [] {
      KeysMember(es[1..], k);
      if k in Keys(es[1..]) {
        var i :| 0 <= i < |es[1..]| && es[1..][i].key == k;
        assert es[i + 1].key == k;
      }
      if exists i :: 0 <= i < |es| && es[i].key == k {
        var i :| 0 <= i < |es| && es[i].key == k;
        if i > 0 { assert es[1..][i - 1].key == k; }
      }
    }
  }

  lemma KeyAt(es: seq<Entry>, i: nat)
    requires i < |es|
    ensures es[i].key in Keys(es)
  {
    if i > 0 { KeyAt(es[1..], i - 1); }
  }

  /** A list of entries has distinct keys when its head key is not in its
      tail and its tail has distinct keys. */
  lemma DistinctKeysCons(es: seq<Entry>)
    requires es != []
    ensures DistinctKeys(es) <==> es[0].key !in Keys(es[1..]) && DistinctKeys(es[1..])
  {
    KeysMember(es[1..], es[0].key);
    if es[0].key !in Keys(es[1..]) && DistinctKeys(es[1..]) {
      forall i, j | 0 <= i < j < |es| ensures es[i].key != es[j].key {
        if i == 0 { assert es[1..][j - 1].key == es[j].key; }
        else { assert es[1..][i - 1] == es[i] && es[1..][j - 1] == es[j]; }
      }
    }
    if DistinctKeys(es) {
      assert DistinctKeys(es[1..]) by {
        forall i, j | 0 <= i < j < |es[1..]| ensures es[1..][i].key != es[1..][j].key {
          assert es[1..][i] == es[i + 1] && es[1..][j] == es[j + 1];
        }
      }
    }
  }

  /** `o[k]` on an object: the value under `k`, or `undefined` when `k` is missing. */
  function Lookup(es: seq<Entry>, k: string): (v: Value)
    ensures k !in Keys(es) ==> v == Undef
  {
    if es == [] then Undef
    else if es[0].key == k then es[0].val
    else Lookup(es[1..], k)
  }

  /** A present key reads the value of its first entry. */
  lemma LookupFound(es: seq<Entry>, k: string)
    requires k in Keys(es)
    ensures exists i :: 0 <= i < |es| && es[i].key == k && es[i].val == Lookup(es, k)
  {
    if es[0].key != k {
      LookupFound(es[1..], k);
      var i :| 0 <= i < |es[1..]| && es[1..][i].key == k && es[1..][i].val == Lookup(es[1..], k);
      assert es[i + 1] == es[1..][i];
    }
  }

  lemma LookupDistinct(es: seq<Entry>, i: nat)
    requires DistinctKeys(es) && i < |es|
    ensures Lookup(es, es[i].key) == es[i].val
  {
    if i > 0 {
      assert es[0].key != es[i].key;
      assert DistinctKeys(es[1..]) by { DistinctKeysCons(es); }
      LookupDistinct(es[1..], i - 1);
    }
  }

  /** `v?.k`: property access that yields `undefined` on anything but an object. */
  function Prop(v: Value, k: string): (r: Value)
    ensures !v.Obj? ==> r == Undef
  {
    if v.Obj? then Lookup(v.entries, k) else Undef
  }

  /** `o[k] = v`: overwrite the value in place when `k` is present, else append the key. */
  function Assign(es: seq<Entry>, k: string, v: Value): (r: seq<Entry>)
    ensures Keys(r) == Keys(es) + {k}
    ensures forall j :: Lookup(r, j) == if j == k then v else Lookup(es, j)
    ensures DistinctKeys(es) ==> DistinctKeys(r)
  {
    if es == [] then [Entry(k, v)]
    else if es[0].key == k then
      var r := [Entry(k, v)] + es[1..];
      assert r[1..] == es[1..];
      assert DistinctKeys(es) ==> DistinctKeys(r) by {
        if DistinctKeys(es) { DistinctKeysCons(es); DistinctKeysCons(r); }
      }
      r
    else
      var tail := Assign(es[1..], k, v);
      var r := [es[0]] + tail;
      assert r[1..] == tail;
      assert DistinctKeys(es) ==> DistinctKeys(r) by {
        if DistinctKeys(es) { DistinctKeysCons(es); DistinctKeysCons(r); }
      }
      r
  }

  /** Spreading `more` over `es`: every entry of `more`, in order, assigned onto `es`. */
  function AssignAll(es: seq<Entry>, more: seq<Entry>): (r: seq<Entry>)
    ensures Keys(r) == Keys(es) + Keys(more)
    ensures DistinctKeys(es) ==> DistinctKeys(r)
    ensures DistinctKeys(more) ==>
      forall j :: Lookup(r, j) == if j in Keys(more) then Lookup(more, j) else Lookup(es, j)
    decreases |more|
  {
    if more == [] then es
    else
      var mid := Assign(es, more[0].key, more[0].val);
      var r := AssignAll(mid, more[1..]);
      assert DistinctKeys(more) ==> DistinctKeys(more[1..]) by {
        if DistinctKeys(more) { DistinctKeysCons(more); }
      }
      assert DistinctKeys(more) ==> more[0].key !in Keys(more[1..]) by {
        if DistinctKeys(more) { DistinctKeysCons(more); }
      }
      r
  }

  /** An object literal spreading `a`, then `b`. */
  function Spread(a: seq<Entry>, b: seq<Entry>): seq<Entry> {
    AssignAll(AssignAll([], a), b)
  }

  /** Rest destructuring without key `k`: the entries of `o` without key `k`, order kept. */
  function RemoveKey(es: seq<Entry>, k: string): (r: seq<Entry>)
    ensures Keys(r) == Keys(es) - {k}
    ensures forall j :: Lookup(r, j) == if j == k then Undef else Lookup(es, j)
    ensures DistinctKeys(es) ==> DistinctKeys(r)
  {
    if es == [] then []
    else
      var tail := RemoveKey(es[1..], k);
      if es[0].key == k then
        assert DistinctKeys(es) ==> DistinctKeys(tail) && k !in Keys(es[1..]) by {
          if DistinctKeys(es) { DistinctKeysCons(es); }
        }
        tail
      else
        var r := [es[0]] + tail;
        assert r[1..] == tail;
        assert DistinctKeys(es) ==> DistinctKeys(r) by {
          if DistinctKeys(es) { DistinctKeysCons(es); DistinctKeysCons(r); }
        }
        r
  }

  /** `v == null` in JavaScript: true of `null` and of `undefined`. */
  predicate Nullish(v: Value) {
    v.Undef? || v.Null?
  }

  /** JavaScript truthiness; objects, arrays and the sentinel are always truthy. */
  predicate Truthy(v: Value) {
    match v
    case Undef => false
    case Null => false
    case Bool(b) => b
    case Num(n) => n != 0
    case Str(s) => s != ""
    case _ => true
  }

  /** The decimal numeral of an integer, as `String(n)` writes it. */
  function Decimal(n: int): (r: string)
    ensures r != []
    decreases if n < 0 then 1 - n else n
  {
    if n < 0 then "-" + Decimal(-n)
    else if n < 10 then [Digit(n)]
    else Decimal(n / 10) + [Digit(n % 10)]
  }

  function Digit(d: int): char
    requires 0 <= d < 10
  {
    "0123456789"[d]
  }

  /** `String(v)`: arrays are joined with "," (null and undefined elements as ""),
      objects and the sentinel print as "[object Object]". */
  function ToJsString(v: Value): string {
    match v
    case Undef => "undefined"
    case Null => "null"
    case Bool(b) => if b then "true" else "false"
    case Num(n) => Decimal(n)
    case Str(s) => s
    case Arr(items) => JoinItems(items)
    case Obj(_) => "[object Object]"
    case ServerTime => "[object Object]"
  }

  function JoinItems(items: seq<Value>): string {
    if items == [] then ""
    else
      var head := if Nullish(items[0]) then "" else ToJsString(items[0]);
      if |items| == 1 then head else head + "," + JoinItems(items[1..])
  }
}
