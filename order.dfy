/**
 * The order in which the document store sorts field values: first by type
 * (null, booleans, numbers, timestamps, strings, arrays, maps), then within
 * booleans, numbers and strings by value; strings compare code point by
 * code point.
 */
module Order {
  import opened Values

  /** Where a value's type sits in the store's order of types. `undefined`
      never reaches the store; it ranks with `null`. */
  function Rank(v: Value): nat {
    match v
    case Undef => 0
    case Null => 0
    case Bool(_) => 1
    case Num(_) => 2
    case ServerTime => 3
    case Str(_) => 4
    case Arr(_) => 8
    case Obj(_) => 9
  }

  /** What the order compares: the type's rank, then a number (booleans as
      0 and 1, numbers as themselves), then a string. */
  datatype SortKey = SortKey(rank: nat, num: int, str: string)

  function KeyOf(v: Value): SortKey {
    match v
    case Bool(b) => SortKey(1, if b then 1 else 0, "")
    case Num(n) => SortKey(2, n, "")
    case Str(s) => SortKey(4, 0, s)
    case _ => SortKey(Rank(v), 0, "")
  }

  /** Lexicographic order of strings, code point by code point. */
  predicate StrLt(a: string, b: string) {
    if a == [] then b != []
    else if b == [] then false
    else if a[0] != b[0] then a[0] < b[0]
    else StrLt(a[1..], b[1..])
  }

  predicate KeyLt(x: SortKey, y: SortKey) {
    || x.rank < y.rank
    || (x.rank == y.rank && x.num < y.num)
    || (x.rank == y.rank && x.num == y.num && StrLt(x.str, y.str))
  }

  /** `a` sorts strictly before `b`. */
  predicate Lt(a: Value, b: Value) {
    KeyLt(KeyOf(a), KeyOf(b))
  }

  /** `a` sorts at or before `b`. */
  predicate Le(a: Value, b: Value) {
    !Lt(b, a)
  }

  // ---------------------------------------------------------------
  // Strings
  // ---------------------------------------------------------------

  lemma {:induction false} StrLtIrreflexive(a: string)
    ensures !StrLt(a, a)
  {
    if a != [] { StrLtIrreflexive(a[1..]); }
  }

  lemma {:induction false} StrLtTransitive(a: string, b: string, c: string)
    requires StrLt(a, b) && StrLt(b, c)
    ensures StrLt(a, c)
  {
    if a != [] && b != [] && c != [] && a[0] == b[0] && b[0] == c[0] {
      StrLtTransitive(a[1..], b[1..], c[1..]);
    }
  }

  lemma {:induction false} StrLtTotal(a: string, b: string)
    ensures a == b || StrLt(a, b) || StrLt(b, a)
  {
    if a != [] && b != [] && a[0] == b[0] {
      StrLtTotal(a[1..], b[1..]);
      if a[1..] == b[1..] {
        assert a == [a[0]] + a[1..] && b == [b[0]] + b[1..];
      }
    }
  }

  /** No string sorts before itself or on both sides of another. */
  lemma StrLtAsymmetric(a: string, b: string)
    ensures !(StrLt(a, b) && StrLt(b, a))
  {
    if StrLt(a, b) && StrLt(b, a) {
      StrLtTransitive(a, b, a);
      StrLtIrreflexive(a);
    }
  }

  /** A proper extension sorts after the string it extends. */
  lemma {:induction false} StrLtExtension(a: string, w: string)
    requires w != []
    ensures StrLt(a, a + w)
  {
    if a != [] {
      assert (a + w)[0] == a[0] && (a + w)[1..] == a[1..] + w;
      StrLtExtension(a[1..], w);
    }
  }

  /** Shared prefixes do not change the order. */
  lemma {:induction false} StrLtCommonPrefix(p: string, a: string, b: string)
    ensures StrLt(p + a, p + b) <==> StrLt(a, b)
  {
    if p == [] {
      assert p + a == a && p + b == b;
    } else {
      assert (p + a)[0] == p[0] && (p + a)[1..] == p[1..] + a;
      assert (p + b)[0] == p[0] && (p + b)[1..] == p[1..] + b;
      StrLtCommonPrefix(p[1..], a, b);
    }
  }

  // ---------------------------------------------------------------
  // Sort keys and values
  // ---------------------------------------------------------------

  lemma KeyLtIrreflexive(x: SortKey)
    ensures !KeyLt(x, x)
  {
    StrLtIrreflexive(x.str);
  }

  lemma KeyLtTransitive(x: SortKey, y: SortKey, z: SortKey)
    requires KeyLt(x, y) && KeyLt(y, z)
    ensures KeyLt(x, z)
  {
    if x.rank == y.rank == z.rank && x.num == y.num == z.num {
      StrLtTransitive(x.str, y.str, z.str);
    }
  }

  lemma KeyLtTotal(x: SortKey, y: SortKey)
    ensures x == y || KeyLt(x, y) || KeyLt(y, x)
  {
    StrLtTotal(x.str, y.str);
  }

  /** `Lt` is a strict order, and two values are unordered by it exactly
      when they have the same sort key. */
  lemma LtStrictWeakOrder(a: Value, b: Value, c: Value)
    ensures !Lt(a, a)
    ensures Lt(a, b) && Lt(b, c) ==> Lt(a, c)
    ensures !Lt(a, b) && !Lt(b, a) <==> KeyOf(a) == KeyOf(b)
  {
    KeyLtIrreflexive(KeyOf(a));
    if Lt(a, b) && Lt(b, c) { KeyLtTransitive(KeyOf(a), KeyOf(b), KeyOf(c)); }
    KeyLtTotal(KeyOf(a), KeyOf(b));
    if Lt(a, b) && Lt(b, a) { KeyLtTransitive(KeyOf(a), KeyOf(b), KeyOf(a)); }
  }

  /** `Le` is a total preorder. */
  lemma LeTotalPreorder(a: Value, b: Value, c: Value)
    ensures Le(a, a)
    ensures Le(a, b) || Le(b, a)
    ensures Le(a, b) && Le(b, c) ==> Le(a, c)
  {
    KeyLtIrreflexive(KeyOf(a));
    if Lt(a, b) && Lt(b, a) { KeyLtTransitive(KeyOf(a), KeyOf(b), KeyOf(a)); }
    if Le(a, b) && Le(b, c) && Lt(c, a) {
      KeyLtTotal(KeyOf(b), KeyOf(c));
      KeyLtTotal(KeyOf(a), KeyOf(b));
      if KeyOf(b) == KeyOf(c) {
      } else {
        KeyLtTransitive(KeyOf(b), KeyOf(c), KeyOf(a));
      }
    }
  }

  /** A value at or before `b`, which sorts before `c`, sorts before `c`. */
  lemma LeLtTransitive(a: Value, b: Value, c: Value)
    requires Le(a, b) && Lt(b, c)
    ensures Lt(a, c)
  {
    KeyLtTotal(KeyOf(a), KeyOf(b));
    if KeyOf(a) != KeyOf(b) { KeyLtTransitive(KeyOf(a), KeyOf(b), KeyOf(c)); }
  }

  /** Two strings sort as their text does, after every value of a lower type
      and before every array and map. */
  lemma StrOrder(s: string, t: string, v: Value)
    ensures Lt(Str(s), Str(t)) <==> StrLt(s, t)
    ensures Rank(v) < 4 ==> Lt(v, Str(s))
    ensures (v.Arr? || v.Obj?) ==> Lt(Str(s), v)
  {
  }

  // ---------------------------------------------------------------
  // Prefix ranges: [key, key + "\U{F8FF}"]
  // ---------------------------------------------------------------

  /** The code point the prefix searches append to close their range. */
  const RangeEnd: char := '\U{F8FF}'

  /** `v` lies in the inclusive range from `key` to `key + "\U{F8FF}"`. */
  predicate InPrefixRange(key: string, v: Value) {
    Le(Str(key), v) && Le(v, Str(key + [RangeEnd]))
  }

  /** Everything in a prefix range is a string that begins with the key. */
  lemma {:induction false} PrefixRangeSound(key: string, v: Value)
    requires InPrefixRange(key, v)
    ensures v.Str? && key <= v.s
  {
    assert v.Str?;
    StrRangePrefix(key, v.s);
  }

  lemma {:induction false} StrRangePrefix(key: string, s: string)
    requires !StrLt(s, key) && !StrLt(key + [RangeEnd], s)
    ensures key <= s
  {
    if key != [] {
      assert s != [];
      assert (key + [RangeEnd])[0] == key[0] && (key + [RangeEnd])[1..] == key[1..] + [RangeEnd];
      assert s[0] == key[0];
      StrRangePrefix(key[1..], s[1..]);
    }
  }

  /** Every extension of the key by text whose first code point is below
      U+F8FF lies in the prefix range, and so does the key itself. */
  lemma PrefixRangeComplete(key: string, w: string)
    requires w == [] || w[0] < RangeEnd
    ensures InPrefixRange(key, Str(key + w))
  {
    if w == [] {
      assert key + w == key;
      StrLtIrreflexive(key);
      StrLtExtension(key, [RangeEnd]);
      StrLtAsymmetric(key, key + [RangeEnd]);
    } else {
      StrLtExtension(key, w);
      StrLtAsymmetric(key, key + w);
      StrLtCommonPrefix(key, w, [RangeEnd]);
      assert StrLt(w, [RangeEnd]);
      StrLtAsymmetric(key + w, key + [RangeEnd]);
    }
  }

  /** A name that continues the key with a code point above U+F8FF is missed
      by the prefix range. */
  lemma PrefixRangeMisses()
    ensures !InPrefixRange("a", Str("a\U{FFFF}"))
  {
    assert "a" + "\U{FFFF}" == "a\U{FFFF}";
    StrLtCommonPrefix("a", [RangeEnd], "\U{FFFF}");
    assert StrLt([RangeEnd], "\U{FFFF}");
  }

  /** No value lies between a map and a string: a range that starts at `{}`
      and ends at a string is empty. */
  lemma MapToStringRangeEmpty(s: string, v: Value)
    ensures !(Le(Obj([]), v) && Le(v, Str(s)))
  {
  }
}
