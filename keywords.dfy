/**
 * `buildKeywords` of src/app/utils/normalize.ts: the distinct tokens of the
 * normalised name, followed by the distinct prefixes of length 1 to 8 of
 * each token, in insertion order. There is no overall cap, and a short token
 * shows up both as a token and as its own longest prefix.
 */
module KeywordIndex {
  import opened Values
  import opened Text

  /** The longest prefix `buildKeywords` takes of a token. */
  const MaxPrefixLen: nat := 8

  function Min(a: nat, b: nat): nat {
    if a < b then a else b
  }

  /** The non-empty strings of `xs`, order kept. */
  function NonEmpty(xs: seq<string>): (r: seq<string>)
    ensures forall k :: 0 <= k < |r| ==> r[k] != [] && r[k] in xs
    ensures (forall k :: 0 <= k < |xs| ==> xs[k] != []) ==> r == xs
  {
    if xs == [] then []
    else if xs[0] == [] then NonEmpty(xs[1..])
    else [xs[0]] + NonEmpty(xs[1..])
  }

  /** Deduplication through a set: each element at its first occurrence, in order. */
  function Distinct<T(==)>(xs: seq<T>): seq<T>
    decreases |xs|
  {
    if xs == [] then []
    else
      var d := Distinct(xs[..|xs| - 1]);
      if xs[|xs| - 1] in d then d else d + [xs[|xs| - 1]]
  }

  predicate NoDuplicates<T(==)>(xs: seq<T>) {
    forall i, j :: 0 <= i < j < |xs| ==> xs[i] != xs[j]
  }

  /** The index of the first occurrence of `x` in `xs`. */
  function FirstIndex<T(==)>(xs: seq<T>, x: T): (i: nat)
    requires x in xs
    ensures i < |xs| && xs[i] == x && x !in xs[..i]
  {
    if xs[0] == x then 0 else 1 + FirstIndex(xs[1..], x)
  }

  /** The prefixes of `tok` of lengths 1 to `n`, in that order. */
  function PrefixesOf(tok: string, n: nat): (r: seq<string>)
    requires n <= |tok|
    ensures |r| == n && forall i :: 0 <= i < n ==> r[i] == tok[..i + 1]
  {
    if n == 0 then [] else PrefixesOf(tok, n - 1) + [tok[..n]]
  }

  /** Every prefix the nested loop adds to `pref`, in order. */
  function AllPrefixes(toks: seq<string>): seq<string>
    decreases |toks|
  {
    if toks == [] then []
    else
      var tok := toks[|toks| - 1];
      AllPrefixes(toks[..|toks| - 1]) + PrefixesOf(tok, Min(|tok|, MaxPrefixLen))
  }

  /** The tokens of `t`: its non-empty space-separated parts, each kept once. */
  function Tokens(t: string): seq<string> {
    Distinct(NonEmpty(Split(t, ' ')))
  }

  /** `buildKeywords(name)`; `None` stands for an undefined name. */
  function Keywords(name: Option<string>): seq<string> {
    var t := NormalizeText(Some(name.GetOr([])));
    if t == [] then []
    else
      var toks := Tokens(t);
      toks + Distinct(AllPrefixes(toks))
  }

  /** `buildKeywords(name)` as written: the tokens, then the insertion-ordered set `pref`. */
  method BuildKeywords(name: Option<string>) returns (kw: seq<string>)
    ensures kw == Keywords(name)
  {
    var t := NormalizeText(Some(name.GetOr([])));
    if t == [] {
      return [];
    }
    var toks := Tokens(t);
    var pref := CollectPrefixes(toks);
    kw := toks + pref;
  }

  /** The nested loop of `buildKeywords` that fills the set `pref`. */
  method CollectPrefixes(toks: seq<string>) returns (pref: seq<string>)
    ensures pref == Distinct(AllPrefixes(toks))
  {
    pref := [];
    for j := 0 to |toks|
      invariant pref == Distinct(AllPrefixes(toks[..j]))
    {
      pref := AddPrefixes(pref, AllPrefixes(toks[..j]), toks[j]);
      assert toks[..j + 1][..j] == toks[..j];
    }
    assert toks[..|toks|] == toks;
  }

  /** The inner loop: the prefix of `tok` of length `i` added to `pref` for `i = 1 .. min(|tok|, 8)`,
      where `pref` already holds the distinct elements of `done`. */
  method AddPrefixes(pref0: seq<string>, ghost done: seq<string>, tok: string) returns (pref: seq<string>)
    requires pref0 == Distinct(done)
    ensures pref == Distinct(done + PrefixesOf(tok, Min(|tok|, MaxPrefixLen)))
  {
    pref := pref0;
    var m := Min(|tok|, MaxPrefixLen);
    assert done + PrefixesOf(tok, 0) == done;
    for i := 1 to m + 1
      invariant pref == Distinct(done + PrefixesOf(tok, i - 1))
    {
      PrefixStep(done, tok, i);
      if tok[..i] !in pref {
        pref := pref + [tok[..i]];
      }
    }
  }

  /** One turn of the inner loop adds `tok[..i]` unless it is already there. */
  lemma PrefixStep(done: seq<string>, tok: string, i: nat)
    requires 1 <= i <= |tok|
    ensures var d := Distinct(done + PrefixesOf(tok, i - 1));
      Distinct(done + PrefixesOf(tok, i)) == if tok[..i] in d then d else d + [tok[..i]]
  {
    assert done + PrefixesOf(tok, i) == done + PrefixesOf(tok, i - 1) + [tok[..i]];
    DistinctSnoc(done + PrefixesOf(tok, i - 1), tok[..i]);
  }

  // ---------------------------------------------------------------
  // Lemmas about Distinct
  // ---------------------------------------------------------------

  lemma DistinctSnoc<T>(xs: seq<T>, x: T)
    ensures Distinct(xs + [x]) == if x in Distinct(xs) then Distinct(xs) else Distinct(xs) + [x]
  {
    assert (xs + [x])[..|xs + [x]| - 1] == xs;
  }

  /** Deduplication keeps every element and only those. */
  lemma {:induction false} DistinctMembers<T>(xs: seq<T>)
    ensures forall x :: x in Distinct(xs) <==> x in xs
    decreases |xs|
  {
    if xs != [] {
      var init := xs[..|xs| - 1];
      DistinctMembers(init);
      assert xs == init + [xs[|xs| - 1]];
    }
  }

  /** Deduplication holds no element twice. */
  lemma {:induction false} DistinctNoDuplicates<T>(xs: seq<T>)
    ensures NoDuplicates(Distinct(xs))
    decreases |xs|
  {
    if xs != [] {
      DistinctNoDuplicates(xs[..|xs| - 1]);
    }
  }

  /** Deduplication lists elements in the order of their first occurrence. */
  lemma {:induction false} DistinctFirstOccurrenceOrder<T>(xs: seq<T>)
    ensures forall x :: x in Distinct(xs) ==> x in xs
    ensures forall i, j :: 0 <= i < j < |Distinct(xs)| ==>
      FirstIndex(xs, Distinct(xs)[i]) < FirstIndex(xs, Distinct(xs)[j])
    decreases |xs|
  {
    DistinctMembers(xs);
    if xs != [] {
      var init, x := xs[..|xs| - 1], xs[|xs| - 1];
      assert xs == init + [x];
      DistinctFirstOccurrenceOrder(init);
      DistinctMembers(init);
      var d, r := Distinct(init), Distinct(xs);
      forall i, j | 0 <= i < j < |r| ensures FirstIndex(xs, r[i]) < FirstIndex(xs, r[j]) {
        assert r[i] == d[i];
        FirstIndexAppend(init, [x], d[i]);
        if j < |d| {
          assert r[j] == d[j];
          FirstIndexAppend(init, [x], d[j]);
        } else {
          assert r[j] == x && x !in init;
          FirstIndexNotIn(init, x);
        }
      }
    }
  }

  lemma FirstIndexNotIn<T>(xs: seq<T>, x: T)
    requires x !in xs
    ensures FirstIndex(xs + [x], x) == |xs|
  {
    if xs != [] {
      var ys := xs + [x];
      assert ys[0] == xs[0] != x;
      assert ys[1..] == xs[1..] + [x];
      FirstIndexNotIn(xs[1..], x);
      assert FirstIndex(ys, x) == 1 + FirstIndex(ys[1..], x);
    }
  }

  lemma FirstIndexAppend<T>(xs: seq<T>, ys: seq<T>, x: T)
    requires x in xs
    ensures FirstIndex(xs + ys, x) == FirstIndex(xs, x)
  {
    if xs[0] != x {
      assert (xs + ys)[1..] == xs[1..] + ys;
      FirstIndexAppend(xs[1..], ys, x);
    }
  }

  // ---------------------------------------------------------------
  // Lemmas about the keywords
  // ---------------------------------------------------------------

  /** Which strings the nested loop adds: exactly the prefixes of length
      1 .. min(|tok|, 8) of the tokens. */
  lemma AllPrefixesMembers(toks: seq<string>, x: string)
    ensures x in AllPrefixes(toks) <==>
      exists k, i :: 0 <= k < |toks| && 1 <= i <= Min(|toks[k]|, MaxPrefixLen) && x == toks[k][..i]
  {
    if x in AllPrefixes(toks) {
      AllPrefixesSound(toks, x);
    }
    if exists k, i :: 0 <= k < |toks| && 1 <= i <= Min(|toks[k]|, MaxPrefixLen) && x == toks[k][..i] {
      var k, i :| 0 <= k < |toks| && 1 <= i <= Min(|toks[k]|, MaxPrefixLen) && x == toks[k][..i];
      AllPrefixesComplete(toks, k, i);
    }
  }

  lemma {:induction false} AllPrefixesSound(toks: seq<string>, x: string)
    requires x in AllPrefixes(toks)
    ensures exists k, i :: 0 <= k < |toks| && 1 <= i <= Min(|toks[k]|, MaxPrefixLen) && x == toks[k][..i]
    decreases |toks|
  {
    var init, tok := toks[..|toks| - 1], toks[|toks| - 1];
    var p := PrefixesOf(tok, Min(|tok|, MaxPrefixLen));
    if x in AllPrefixes(init) {
      AllPrefixesSound(init, x);
      var k, i :| 0 <= k < |init| && 1 <= i <= Min(|init[k]|, MaxPrefixLen) && x == init[k][..i];
      assert toks[k] == init[k];
    } else {
      assert x in p;
      var i :| 0 <= i < |p| && p[i] == x;
      assert x == toks[|toks| - 1][..i + 1];
    }
  }

  lemma {:induction false} AllPrefixesComplete(toks: seq<string>, k: nat, i: nat)
    requires k < |toks| && 1 <= i <= Min(|toks[k]|, MaxPrefixLen)
    ensures toks[k][..i] in AllPrefixes(toks)
    decreases |toks|
  {
    var init, tok := toks[..|toks| - 1], toks[|toks| - 1];
    var p := PrefixesOf(tok, Min(|tok|, MaxPrefixLen));
    assert AllPrefixes(toks) == AllPrefixes(init) + p;
    if k < |init| {
      assert init[k] == toks[k];
      AllPrefixesComplete(init, k, i);
    } else {
      assert p[i - 1] == toks[k][..i];
    }
  }

  /** The tokens of a normalised name are its words, each kept once. */
  lemma TokensAreWords(name: string)
    ensures NormalizeText(Some(name)) != [] ==>
      Tokens(NormalizeText(Some(name))) == Distinct(Words(Fold(name)))
    ensures NormalizeText(Some(name)) != [] ==> Tokens(NormalizeText(Some(name))) != []
  {
    var ws := Words(Fold(name));
    NormalizeTextShape(Some(name));
    if NormalizeText(Some(name)) != [] {
      assert NormalizeText(Some(name)) == Join(ws, ' ');
      TokensOfJoin(ws);
    }
  }

  lemma TokensOfJoin(ws: seq<string>)
    requires ws != [] && forall k :: 0 <= k < |ws| ==> IsWord(ws[k])
    ensures Tokens(Join(ws, ' ')) == Distinct(ws) && Distinct(ws) != []
  {
    forall k | 0 <= k < |ws| ensures ' ' !in ws[k] {
      assert IsWord(ws[k]) && IsSpace(' ');
    }
    SplitJoin(ws, ' ');
    DistinctMembers(ws);
    assert ws[0] in Distinct(ws);
  }

  /** Every keyword is a word: non-empty, without any white space. */
  lemma KeywordsAreWords(name: Option<string>)
    ensures Keywords(name) == [] <==> NormalizeText(Some(name.GetOr([]))) == []
    ensures forall k :: 0 <= k < |Keywords(name)| ==> IsWord(Keywords(name)[k])
  {
    var n := name.GetOr([]);
    var t := NormalizeText(Some(n));
    if t != [] {
      TokensAreWords(n);
      var ws := Words(Fold(n));
      var toks := Distinct(ws);
      var pref := Distinct(AllPrefixes(toks));
      assert Keywords(name) == toks + pref;
      DistinctMembers(ws);
      DistinctMembers(AllPrefixes(toks));
      forall x | x in pref ensures IsWord(x) {
        KeywordPrefixIsWord(toks, ws, x);
      }
      forall x | x in toks ensures IsWord(x) {
        assert x in ws;
      }
    }
  }

  lemma KeywordPrefixIsWord(toks: seq<string>, ws: seq<string>, x: string)
    requires forall k :: 0 <= k < |ws| ==> IsWord(ws[k])
    requires forall w :: w in toks ==> w in ws
    requires x in AllPrefixes(toks)
    ensures IsWord(x)
  {
    AllPrefixesMembers(toks, x);
    var j, i :| 0 <= j < |toks| && 1 <= i <= Min(|toks[j]|, MaxPrefixLen) && x == toks[j][..i];
    assert toks[j] in ws;
    assert IsWord(toks[j]);
  }

  /** The first part of `buildKeywords` for a non-empty normalised name: the
      distinct words, once each; nothing caps the total count. */
  lemma KeywordsTokens(name: Option<string>)
    requires NormalizeText(Some(name.GetOr([]))) != []
    ensures var ws := Words(Fold(name.GetOr([])));
            var toks := Distinct(ws);
            && Keywords(name) == toks + Distinct(AllPrefixes(toks))
            && |Keywords(name)| == |toks| + |Distinct(AllPrefixes(toks))|
            && NoDuplicates(toks)
            && (forall w :: w in ws <==> w in Keywords(name)[..|toks|])
  {
    var n := name.GetOr([]);
    TokensAreWords(n);
    var ws := Words(Fold(n));
    var toks := Distinct(ws);
    assert Keywords(name)[..|toks|] == toks;
    DistinctMembers(ws);
    DistinctNoDuplicates(ws);
  }

  /** The second part of `buildKeywords` (after the tokens `toks`): each prefix
      of length 1 .. min(|tok|, 8) of each token, once. */
  lemma PrefixPart(toks: seq<string>)
    ensures NoDuplicates(Distinct(AllPrefixes(toks)))
    ensures forall x :: x in Distinct(AllPrefixes(toks)) <==>
      exists k, i :: 0 <= k < |toks| && 1 <= i <= Min(|toks[k]|, MaxPrefixLen) && x == toks[k][..i]
  {
    DistinctNoDuplicates(AllPrefixes(toks));
    DistinctMembers(AllPrefixes(toks));
    forall x ensures x in AllPrefixes(toks) <==>
      exists k, i :: 0 <= k < |toks| && 1 <= i <= Min(|toks[k]|, MaxPrefixLen) && x == toks[k][..i]
    {
      AllPrefixesMembers(toks, x);
    }
  }

  /** Every keyword is a prefix (`<=`) of some token of the normalised name. */
  lemma KeywordsArePrefixes(name: Option<string>)
    ensures var toks := Distinct(Words(Fold(name.GetOr([]))));
            forall x :: x in Keywords(name) ==> exists k :: 0 <= k < |toks| && x <= toks[k]
  {
    var n := name.GetOr([]);
    if NormalizeText(Some(n)) != [] {
      TokensAreWords(n);
      var toks := Distinct(Words(Fold(n)));
      var pref := Distinct(AllPrefixes(toks));
      DistinctMembers(AllPrefixes(toks));
      forall x | x in toks + pref ensures exists k :: 0 <= k < |toks| && x <= toks[k] {
        if x in toks {
          var k :| 0 <= k < |toks| && toks[k] == x;
          assert x <= toks[k];
        } else {
          AllPrefixesMembers(toks, x);
          var k, i :| 0 <= k < |toks| && 1 <= i <= Min(|toks[k]|, MaxPrefixLen) && x == toks[k][..i];
          assert x <= toks[k];
        }
      }
    }
  }

  /** A string that is already one lower-case, decomposed word normalises to itself. */
  lemma NormalizeWord(w: string)
    requires IsWord(w)
    requires forall i :: 0 <= i < |w| ==> Decomposed(w[i]) && !IsDiacritic(w[i]) && !IsUpper(w[i])
    ensures NormalizeText(Some(w)) == w
  {
    DecomposeIdentity(w);
    StripIdentity(w);
    assert Fold(w) == w;
    NormalizeTextShape(Some(w));
    WordsOfJoin([w]);
  }

  /** No global de-duplication: a token of at most 8 characters is also its own
      longest prefix, so "ab" yields ["ab", "a", "ab"]. */
  lemma ShortTokenRepeats()
    ensures Keywords(Some("ab")) == ["ab", "a", "ab"]
  {
    NormalizeWord("ab");
    AbTokens();
    AbPrefixes();
  }

  lemma AbTokens()
    ensures Tokens("ab") == ["ab"]
  {
    SplitNoSep("ab", ' ');
    assert NonEmpty(["ab"]) == ["ab"];
    assert ["ab"][..0] == [];
  }

  lemma AbPrefixes()
    ensures Distinct(AllPrefixes(["ab"])) == ["a", "ab"]
  {
    var toks := ["ab"];
    assert AllPrefixes(toks) == ["a", "ab"] by {
      assert toks[..0] == [];
      assert "ab"[..1] == "a" && "ab"[..2] == "ab";
      assert PrefixesOf("ab", 2) == ["a", "ab"];
    }
    assert Distinct(["a", "ab"]) == ["a", "ab"] by {
      assert ["a", "ab"][..1] == ["a"];
      assert ["a"][..0] == [];
    }
  }
}
