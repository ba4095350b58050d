/**
 * `normalizeText` of src/app/utils/normalize.ts: decompose, drop diacritics,
 * lowercase, replace every white-space run by one space, trim.
 *
 * The white-space, run-collapsing and trimming stages are exact (the
 * character class is ECMAScript's WhiteSpace plus LineTerminator, which is
 * what both `\s` and `String.prototype.trim` use). Canonical decomposition,
 * the Diacritic property and case mapping are given on the ASCII and
 * Latin-1 letters and the combining-mark block only.
 */
module Text {
  import opened Values

  // ---------------------------------------------------------------
  // Character classes and case mapping
  // ---------------------------------------------------------------

  /** ECMAScript white space and line terminators. */
  predicate IsSpace(c: char) {
    c == '\t' || c == '\n' || c == '\U{000B}' || c == '\U{000C}' || c == '\r' ||
    c == ' ' || c == '\U{00A0}' || c == '\U{1680}' || ('\U{2000}' <= c <= '\U{200A}') ||
    c == '\U{2028}' || c == '\U{2029}' || c == '\U{202F}' || c == '\U{205F}' ||
    c == '\U{3000}' || c == '\U{FEFF}'
  }

  /** Characters with the Unicode Diacritic property that this model knows:
      the ASCII and Latin-1 spacing accents and the combining marks of U+0300–U+0362. */
  predicate IsDiacritic(c: char) {
    c == '^' || c == '`' || c == '\U{00A8}' || c == '\U{00AF}' || c == '\U{00B4}' ||
    c == '\U{00B7}' || c == '\U{00B8}' ||
    ('\U{0300}' <= c <= '\U{034E}') || ('\U{0350}' <= c <= '\U{0357}') ||
    ('\U{035D}' <= c <= '\U{0362}')
  }

  /** Upper-case ASCII and Latin-1 letters that have a one-character lower case. */
  predicate IsUpper(c: char) {
    ('A' <= c <= 'Z') || ('\U{00C0}' <= c <= '\U{00DE}' && c != '\U{00D7}')
  }

  /** Lower-case ASCII and Latin-1 letters that have a one-character upper case. */
  predicate IsLower(c: char) {
    ('a' <= c <= 'z') || ('\U{00E0}' <= c <= '\U{00FE}' && c != '\U{00F7}')
  }

  function LowerChar(c: char): (r: char)
    ensures IsUpper(c) ==> IsLower(r)
    ensures !IsUpper(c) ==> r == c
  {
    if IsUpper(c) then (c as int + 32) as char else c
  }

  /** The three Latin-1 lower-case letters whose upper case is not a Latin-1
      letter 32 code points below: sharp s, y with diaeresis and micro sign. */
  predicate IsSpecialLower(c: char) {
    c == '\U{00DF}' || c == '\U{00FF}' || c == '\U{00B5}'
  }

  /** A character that upper-casing changes. */
  predicate HasUpperCase(c: char) {
    IsLower(c) || IsSpecialLower(c)
  }

  /** The upper case of one character: sharp s becomes "SS", y with
      diaeresis U+0178, the micro sign U+039C (Greek capital mu), and the
      other Latin-1 lower-case letters the letter 32 code points below. */
  function UpperChar(c: char): (r: string)
    ensures 1 <= |r| <= 2
    ensures forall i :: 0 <= i < |r| ==> !HasUpperCase(r[i])
    ensures !HasUpperCase(c) ==> r == [c]
    ensures IsLower(c) ==> |r| == 1 && IsUpper(r[0])
  {
    if c == '\U{00DF}' then "SS"
    else if c == '\U{00FF}' then "\U{0178}"
    else if c == '\U{00B5}' then "\U{039C}"
    else if IsLower(c) then [(c as int - 32) as char]
    else [c]
  }

  /** Lower-casing, character by character. */
  function Lower(s: string): (r: string)
    ensures |r| == |s| && forall i :: 0 <= i < |s| ==> r[i] == LowerChar(s[i])
    ensures forall i :: 0 <= i < |r| ==> !IsUpper(r[i])
    ensures (forall i :: 0 <= i < |s| ==> !IsUpper(s[i])) ==> r == s
  {
    seq(|s|, i requires 0 <= i < |s| => LowerChar(s[i]))
  }

  /** Upper-casing: each character replaced by its upper case, which for
      sharp s is two characters. */
  function Upper(s: string): (r: string)
    ensures |s| <= |r| <= 2 * |s|
    ensures forall i :: 0 <= i < |r| ==> !HasUpperCase(r[i])
    ensures (forall i :: 0 <= i < |s| ==> !HasUpperCase(s[i])) ==> r == s
  {
    if s == [] then []
    else
      var h, t := UpperChar(s[0]), Upper(s[1..]);
      assert forall i :: |h| <= i < |h + t| ==> (h + t)[i] == t[i - |h|];
      assert s == [s[0]] + s[1..];
      h + t
  }

  /** Upper-casing the sharp s lengthens the string. */
  lemma UpperSharpS()
    ensures Upper("\U{00DF}mith") == "SSMITH"
  {
  }

  // ---------------------------------------------------------------
  // Canonical decomposition and diacritic removal
  // ---------------------------------------------------------------

  /** Canonical decomposition of the precomposed upper-case Latin-1 letters
      U+00C0–U+00DD into a base letter and a combining mark. */
  function UpperDecomposition(c: char): Option<(char, char)> {
    match c
    case 'À' => Some(('A', '\U{0300}'))
    case 'Á' => Some(('A', '\U{0301}'))
    case 'Â' => Some(('A', '\U{0302}'))
    case 'Ã' => Some(('A', '\U{0303}'))
    case 'Ä' => Some(('A', '\U{0308}'))
    case 'Å' => Some(('A', '\U{030A}'))
    case 'Ç' => Some(('C', '\U{0327}'))
    case 'È' => Some(('E', '\U{0300}'))
    case 'É' => Some(('E', '\U{0301}'))
    case 'Ê' => Some(('E', '\U{0302}'))
    case 'Ë' => Some(('E', '\U{0308}'))
    case 'Ì' => Some(('I', '\U{0300}'))
    case 'Í' => Some(('I', '\U{0301}'))
    case 'Î' => Some(('I', '\U{0302}'))
    case 'Ï' => Some(('I', '\U{0308}'))
    case 'Ñ' => Some(('N', '\U{0303}'))
    case 'Ò' => Some(('O', '\U{0300}'))
    case 'Ó' => Some(('O', '\U{0301}'))
    case 'Ô' => Some(('O', '\U{0302}'))
    case 'Õ' => Some(('O', '\U{0303}'))
    case 'Ö' => Some(('O', '\U{0308}'))
    case 'Ù' => Some(('U', '\U{0300}'))
    case 'Ú' => Some(('U', '\U{0301}'))
    case 'Û' => Some(('U', '\U{0302}'))
    case 'Ü' => Some(('U', '\U{0308}'))
    case 'Ý' => Some(('Y', '\U{0301}'))
    case _ => None
  }

  /** Canonical decomposition of the precomposed Latin-1 letters. The lower-case
      letters U+00E0–U+00FD mirror the upper-case ones 32 code points below. */
  function Decomposition(c: char): (d: Option<(char, char)>)
    ensures d.Some? ==> 'A' <= d.value.0 <= 'z' && '\U{0300}' <= d.value.1 <= '\U{0327}'
    ensures d.Some? ==> '\U{00C0}' <= c <= '\U{00FF}'
  {
    if '\U{00C0}' <= c <= '\U{00DD}' then UpperDecomposition(c)
    else if '\U{00E0}' <= c <= '\U{00FD}' then
      match UpperDecomposition((c as int - 32) as char)
      case Some((b, m)) => Some(((b as int + 32) as char, m))
      case None => None
    else if c == 'ÿ' then Some(('y', '\U{0308}'))
    else None
  }

  /** Canonical decomposition of the four combining marks of U+0300–U+0362
      that are canonically equivalent to other marks. */
  function MarkDecomposition(c: char): Option<string> {
    match c
    case '\U{0340}' => Some("\U{0300}")
    case '\U{0341}' => Some("\U{0301}")
    case '\U{0343}' => Some("\U{0313}")
    case '\U{0344}' => Some("\U{0308}\U{0301}")
    case _ => None
  }

  /** A character that canonical decomposition leaves alone. */
  predicate Decomposed(c: char) {
    Decomposition(c).None? && MarkDecomposition(c).None?
  }

  function DecomposeChar(c: char): (r: string)
    ensures forall i :: 0 <= i < |r| ==> Decomposed(r[i])
    ensures Decomposed(c) ==> r == [c]
  {
    match Decomposition(c)
    case Some((b, m)) => [b, m]
    case None =>
      match MarkDecomposition(c)
      case Some(d) => d
      case None => [c]
  }

  /** Canonical decomposition of a string, character by character. The
      canonical reordering of adjacent combining marks that NFD also performs
      is not part of this model. */
  function Decompose(s: string): string {
    if s == [] then [] else DecomposeChar(s[0]) + Decompose(s[1..])
  }

  /** Removal of every character with the Diacritic property. */
  function StripDiacritics(s: string): string {
    if s == [] then []
    else if IsDiacritic(s[0]) then StripDiacritics(s[1..])
    else [s[0]] + StripDiacritics(s[1..])
  }

  /** After decomposition every character is one that does not decompose further. */
  lemma {:induction false} DecomposeClean(s: string)
    ensures forall i :: 0 <= i < |Decompose(s)| ==> Decomposed(Decompose(s)[i])
  {
    if s != [] {
      DecomposeClean(s[1..]);
      var head, tail := DecomposeChar(s[0]), Decompose(s[1..]);
      assert forall i :: 0 <= i < |head + tail| ==>
        (head + tail)[i] == if i < |head| then head[i] else tail[i - |head|];
    }
  }

  /** Decomposition leaves an already decomposed string unchanged. */
  lemma {:induction false} DecomposeIdentity(s: string)
    requires forall i :: 0 <= i < |s| ==> Decomposed(s[i])
    ensures Decompose(s) == s
  {
    if s != [] {
      DecomposeIdentity(s[1..]);
      assert [s[0]] + s[1..] == s;
    }
  }

  /** The marks that are canonical equivalents of other marks decompose to them. */
  lemma DecomposeMarks()
    ensures Decompose("\U{0341}\U{0344}") == "\U{0301}\U{0308}\U{0301}"
  {
  }

  /** Removing the marks leaves no mark and only characters of the input. */
  lemma {:induction false} StripClean(s: string)
    ensures forall i :: 0 <= i < |StripDiacritics(s)| ==>
      !IsDiacritic(StripDiacritics(s)[i]) && StripDiacritics(s)[i] in s
  {
    if s != [] {
      StripClean(s[1..]);
      assert forall c :: c in s[1..] ==> c in s;
    }
  }

  /** Removing the marks leaves a string without marks unchanged. */
  lemma {:induction false} StripIdentity(s: string)
    requires forall i :: 0 <= i < |s| ==> !IsDiacritic(s[i])
    ensures StripDiacritics(s) == s
  {
    if s != [] {
      StripIdentity(s[1..]);
      assert [s[0]] + s[1..] == s;
    }
  }

  // ---------------------------------------------------------------
  // White space: runs, trimming, words
  // ---------------------------------------------------------------

  /** Length of the leading run of white space. */
  function SpaceRun(s: string): (n: nat)
    ensures n <= |s|
    ensures forall i :: 0 <= i < n ==> IsSpace(s[i])
    ensures n < |s| ==> !IsSpace(s[n])
  {
    if s == [] || !IsSpace(s[0]) then 0 else 1 + SpaceRun(s[1..])
  }

  /** Length of the leading run of non-white-space characters. */
  function WordLen(s: string): (n: nat)
    ensures n <= |s|
    ensures forall i :: 0 <= i < n ==> !IsSpace(s[i])
    ensures n < |s| ==> IsSpace(s[n])
  {
    if s == [] || IsSpace(s[0]) then 0 else 1 + WordLen(s[1..])
  }

  /** Squeezing: each maximal white-space run becomes one ' '. */
  function Collapse(s: string): string
    decreases |s|
  {
    if s == [] then []
    else if IsSpace(s[0]) then [' '] + Collapse(s[SpaceRun(s)..])
    else [s[0]] + Collapse(s[1..])
  }

  function TrimStart(s: string): string {
    if s != [] && IsSpace(s[0]) then TrimStart(s[1..]) else s
  }

  function TrimEnd(s: string): string {
    if s != [] && IsSpace(s[|s| - 1]) then TrimEnd(s[..|s| - 1]) else s
  }

  /** Removal of white space at both ends. */
  function Trim(s: string): string {
    TrimEnd(TrimStart(s))
  }

  /** The white-space stage of `normalizeText`: squeeze, then trim. */
  function Squeeze(s: string): string {
    Trim(Collapse(s))
  }

  predicate NoSpace(w: string) {
    forall i :: 0 <= i < |w| ==> !IsSpace(w[i])
  }

  /** A word: a non-empty run of non-white-space characters. */
  predicate IsWord(w: string) {
    w != [] && NoSpace(w)
  }

  /** The maximal runs of non-white-space characters of `s`, in order: the
      independent description of what the white-space stage keeps. */
  function Words(s: string): (ws: seq<string>)
    ensures forall k :: 0 <= k < |ws| ==> IsWord(ws[k])
    decreases |s|
  {
    if s == [] then []
    else if IsSpace(s[0]) then Words(s[1..])
    else
      var n := WordLen(s);
      [s[..n]] + Words(s[n..])
  }

  /** The elements of `ws` joined with `sep` between them. */
  function Join(ws: seq<string>, sep: char): string {
    if ws == [] then []
    else if |ws| == 1 then ws[0]
    else ws[0] + [sep] + Join(ws[1..], sep)
  }

  /** JavaScript string splitting on a one-character separator. */
  function Split(s: string, sep: char): (r: seq<string>)
    ensures |r| >= 1
    ensures forall k :: 0 <= k < |r| ==> sep !in r[k]
  {
    if s == [] then [[]]
    else if s[0] == sep then [[]] + Split(s[1..], sep)
    else
      var rest := Split(s[1..], sep);
      [[s[0]] + rest[0]] + rest[1..]
  }

  // ---------------------------------------------------------------
  // normalizeText
  // ---------------------------------------------------------------

  /** A string with no white space at either end, no white space other than
      ' ', and no two spaces in a row. */
  predicate Squeezed(t: string) {
    && (t != [] ==> !IsSpace(t[0]) && !IsSpace(t[|t| - 1]))
    && (forall i :: 0 <= i < |t| && IsSpace(t[i]) ==> t[i] == ' ')
    && (forall i :: 0 <= i < |t| - 1 ==> !(t[i] == ' ' && t[i + 1] == ' '))
  }

  /** The stages of `normalizeText` before the white-space stage. */
  function Fold(s: string): string {
    Lower(StripDiacritics(Decompose(s)))
  }

  /** `normalizeText(s)`: `None` stands for a null or undefined argument. */
  function NormalizeText(s: Option<string>): (t: string)
    ensures s.None? ==> t == []
  {
    Squeeze(Fold(s.GetOr([])))
  }

  /** `normalizeText` keeps exactly the words of the folded input, joined by
      one space each: no white space at either end, only ' ' inside, and no
      two spaces in a row. */
  lemma NormalizeTextShape(s: Option<string>)
    ensures NormalizeText(s) == Join(Words(Fold(s.GetOr([]))), ' ')
    ensures Squeezed(NormalizeText(s))
  {
    NormalizedShape(s.GetOr([]));
  }

  /** `normalizeText` leaves no combining mark, no upper-case letter and no
      precomposed character. */
  lemma NormalizeTextChars(s: Option<string>)
    ensures var t := NormalizeText(s);
      forall i :: 0 <= i < |t| ==> !IsDiacritic(t[i]) && !IsUpper(t[i]) && Decomposed(t[i])
  {
    NormalizedShape(s.GetOr([]));
    NormalizedChars(s.GetOr([]));
  }

  // ---------------------------------------------------------------
  // Lemmas
  // ---------------------------------------------------------------

  lemma NormalizedShape(s: string)
    ensures Squeeze(Fold(s)) == Join(Words(Fold(s)), ' ')
    ensures Squeezed(Squeeze(Fold(s)))
  {
    var x := Fold(s);
    SqueezeIsJoinedWords(x);
    JoinSqueezed(Words(x));
  }

  lemma NormalizedChars(s: string)
    ensures forall i :: 0 <= i < |Join(Words(Fold(s)), ' ')| ==>
      var c := Join(Words(Fold(s)), ' ')[i]; !IsDiacritic(c) && !IsUpper(c) && Decomposed(c)
  {
    var x := Fold(s);
    FoldClean(s);
    WordsChars(x);
    JoinChars(Words(x), x);
  }

  lemma CollapseNoSpacePrefix(w: string, r: string)
    requires NoSpace(w)
    ensures Collapse(w + r) == w + Collapse(r)
  {
    if w != [] {
      var s := w + r;
      assert s[0] == w[0] && !IsSpace(s[0]);
      assert s[1..] == w[1..] + r;
      CollapseNoSpacePrefix(w[1..], r);
      calc {
        Collapse(s);
        [s[0]] + Collapse(s[1..]);
        [w[0]] + (w[1..] + Collapse(r));
        ([w[0]] + w[1..]) + Collapse(r);
        { assert [w[0]] + w[1..] == w; }
        w + Collapse(r);
      }
    } else {
      assert w + r == r;
    }
  }

  lemma WordsAllSpace(s: string)
    requires Words(s) == []
    ensures forall i :: 0 <= i < |s| ==> IsSpace(s[i])
    decreases |s|
  {
    if s != [] {
      WordsAllSpace(s[1..]);
      forall i | 1 <= i < |s| ensures IsSpace(s[i]) { assert s[1..][i - 1] == s[i]; }
    }
  }

  lemma WordsSkipSpaces(s: string, n: nat)
    requires n <= |s| && forall i :: 0 <= i < n ==> IsSpace(s[i])
    ensures Words(s) == Words(s[n..])
    decreases n
  {
    if n > 0 {
      WordsSkipSpaces(s[1..], n - 1);
      assert s[1..][n - 1..] == s[n..];
    }
  }

  /** What `Collapse` produces, in terms of the words of its input. */
  lemma {:induction false} CollapseShape(s: string)
    ensures Words(s) == [] ==> Collapse(s) == (if s == [] then [] else [' '])
    ensures Words(s) != [] ==>
      Collapse(s) == (if IsSpace(s[0]) then [' '] else []) + Join(Words(s), ' ') +
                     (if IsSpace(s[|s| - 1]) then [' '] else [])
  {
    if s == [] {
    } else if IsSpace(s[0]) {
      CollapseLeadingSpace(s);
    } else {
      CollapseLeadingWord(s);
    }
  }

  lemma {:induction false} CollapseLeadingSpace(s: string)
    requires s != [] && IsSpace(s[0])
    ensures Words(s) == [] ==> Collapse(s) == [' ']
    ensures Words(s) != [] ==>
      Collapse(s) == [' '] + Join(Words(s), ' ') + (if IsSpace(s[|s| - 1]) then [' '] else [])
    decreases |s|
  {
    var n := SpaceRun(s);
    var t := s[n..];
    assert Collapse(s) == [' '] + Collapse(t);
    WordsSkipSpaces(s, n);
    if t != [] {
      CollapseLeadingWord(t);
      assert t[|t| - 1] == s[|s| - 1];
    }
  }

  lemma {:induction false} CollapseLeadingWord(s: string)
    requires s != [] && !IsSpace(s[0])
    ensures Words(s) != []
    ensures Collapse(s) == Join(Words(s), ' ') + (if IsSpace(s[|s| - 1]) then [' '] else [])
    decreases |s|
  {
    var n := WordLen(s);
    var w, r := s[..n], s[n..];
    assert s == w + r;
    CollapseNoSpacePrefix(w, r);
    assert Words(s) == [w] + Words(r);
    if r == [] {
      assert Collapse(s) == w;
    } else {
      CollapseLeadingSpace(r);
      assert r[|r| - 1] == s[|s| - 1];
      if Words(r) == [] {
        WordsAllSpace(r);
      } else {
        assert Join([w] + Words(r), ' ') == w + [' '] + Join(Words(r), ' ');
      }
    }
  }

  lemma JoinEdges(ws: seq<string>)
    requires ws != [] && forall k :: 0 <= k < |ws| ==> IsWord(ws[k])
    ensures |Join(ws, ' ')| > 0
    ensures !IsSpace(Join(ws, ' ')[0]) && !IsSpace(Join(ws, ' ')[|Join(ws, ' ')| - 1])
  {
    assert IsWord(ws[0]);
    if |ws| > 1 {
      JoinEdges(ws[1..]);
      var t := Join(ws[1..], ' ');
      assert Join(ws, ' ') == ws[0] + [' '] + t;
      assert (ws[0] + [' '] + t)[|ws[0] + [' '] + t| - 1] == t[|t| - 1];
    }
  }

  lemma TrimStartNonSpace(s: string)
    requires s == [] || !IsSpace(s[0])
    ensures TrimStart(s) == s
  {
  }

  lemma TrimEndNonSpace(s: string)
    requires s == [] || !IsSpace(s[|s| - 1])
    ensures TrimEnd(s) == s
  {
  }

  lemma TrimAllSpace(s: string)
    requires forall i :: 0 <= i < |s| ==> IsSpace(s[i])
    ensures TrimStart(s) == []
  {
    if s != [] {
      TrimAllSpace(s[1..]);
    }
  }

  /** The white-space stage of `normalizeText` keeps exactly the words of its
      input, joined by one space each. */
  lemma {:induction false} SqueezeIsJoinedWords(s: string)
    ensures Squeeze(s) == Join(Words(s), ' ')
  {
    CollapseShape(s);
    var ws := Words(s);
    if ws == [] {
      if s != [] {
        assert TrimStart([' ']) == TrimStart([]);
      }
    } else {
      var j := Join(ws, ' ');
      JoinEdges(ws);
      var lead: string := if IsSpace(s[0]) then [' '] else [];
      var trail: string := if IsSpace(s[|s| - 1]) then [' '] else [];
      assert Collapse(s) == lead + j + trail;
      TrimFramed(lead, j, trail);
    }
  }

  /** Trimming a non-blank-edged string framed by at most one space on each side. */
  lemma TrimFramed(lead: string, j: string, trail: string)
    requires lead == [] || lead == [' ']
    requires trail == [] || trail == [' ']
    requires j != [] && !IsSpace(j[0]) && !IsSpace(j[|j| - 1])
    ensures Trim(lead + j + trail) == j
  {
    assert TrimStart(lead + j + trail) == j + trail by {
      if lead != [] {
        assert (lead + j + trail)[1..] == j + trail;
      }
      TrimStartNonSpace(j + trail);
    }
    assert TrimEnd(j + trail) == j by {
      if trail != [] {
        assert (j + trail)[..|j + trail| - 1] == j;
      }
      TrimEndNonSpace(j);
    }
  }

  /** Words joined by single spaces form a squeezed string. */
  lemma {:induction false} JoinSqueezed(ws: seq<string>)
    requires forall k :: 0 <= k < |ws| ==> IsWord(ws[k])
    ensures Squeezed(Join(ws, ' '))
  {
    if |ws| == 1 {
    } else if |ws| > 1 {
      JoinSqueezed(ws[1..]);
      JoinEdges(ws[1..]);
      var w, t := ws[0], Join(ws[1..], ' ');
      var j := w + [' '] + t;
      assert Join(ws, ' ') == j;
      forall i | 0 <= i < |j| && IsSpace(j[i]) ensures j[i] == ' ' {
        if i > |w| { assert j[i] == t[i - |w| - 1]; }
      }
      forall i | 0 <= i < |j| - 1 ensures !(j[i] == ' ' && j[i + 1] == ' ') {
        if i > |w| { assert j[i] == t[i - |w| - 1] && j[i + 1] == t[i - |w|]; }
        else if i == |w| { assert j[i + 1] == t[0]; }
        else if i + 1 == |w| { assert j[i] == w[i]; }
        else { assert j[i] == w[i]; }
      }
    }
  }

  /** Every character of the joined words is a character of `s` or the separator. */
  lemma JoinChars(ws: seq<string>, s: string)
    requires forall k, i :: 0 <= k < |ws| && 0 <= i < |ws[k]| ==> ws[k][i] in s
    ensures forall i :: 0 <= i < |Join(ws, ' ')| ==> Join(ws, ' ')[i] in s || Join(ws, ' ')[i] == ' '
  {
    if |ws| > 1 {
      JoinChars(ws[1..], s);
      var w, t := ws[0], Join(ws[1..], ' ');
      forall i | 0 <= i < |w + [' '] + t| ensures (w + [' '] + t)[i] in s || (w + [' '] + t)[i] == ' ' {
        if i > |w| { assert (w + [' '] + t)[i] == t[i - |w| - 1]; }
        else if i < |w| { assert (w + [' '] + t)[i] == ws[0][i]; }
      }
    }
  }

  lemma WordsChars(s: string)
    ensures forall k, i :: 0 <= k < |Words(s)| && 0 <= i < |Words(s)[k]| ==> Words(s)[k][i] in s
    decreases |s|
  {
    if s != [] {
      if IsSpace(s[0]) {
        WordsChars(s[1..]);
      } else {
        var n := WordLen(s);
        WordsChars(s[n..]);
        var ws := Words(s);
        forall k, i | 0 <= k < |ws| && 0 <= i < |ws[k]| ensures ws[k][i] in s {
          if k == 0 { assert ws[0][i] == s[i]; }
          else { assert ws[k] == Words(s[n..])[k - 1]; assert ws[k][i] in s[n..]; }
        }
      }
    }
  }

  /** Decomposition, diacritic removal and lowercasing leave only decomposed,
      diacritic-free, non-upper-case characters. */
  lemma FoldClean(s: string)
    ensures forall i :: 0 <= i < |Fold(s)| ==>
      !IsDiacritic(Fold(s)[i]) && !IsUpper(Fold(s)[i]) && Decomposed(Fold(s)[i])
    ensures forall k, i :: 0 <= k < |Words(Fold(s))| && 0 <= i < |Words(Fold(s))[k]| ==>
      var c := Words(Fold(s))[k][i]; !IsDiacritic(c) && !IsUpper(c) && Decomposed(c)
  {
    var d := Decompose(s);
    var st := StripDiacritics(d);
    DecomposeClean(s);
    StripClean(d);
    forall i | 0 <= i < |st| ensures Decomposed(st[i]) {
      var j :| 0 <= j < |d| && d[j] == st[i];
    }
    forall i | 0 <= i < |st| ensures Decomposed(LowerChar(st[i])) && !IsDiacritic(LowerChar(st[i])) {
      LowerKeepsDecomposed(st[i]);
    }
    WordsChars(Fold(s));
  }

  lemma LowerKeepsDecomposed(c: char)
    requires Decomposed(c) && !IsDiacritic(c)
    ensures Decomposed(LowerChar(c)) && !IsDiacritic(LowerChar(c))
  {
    if IsUpper(c) && '\U{00C0}' <= c {
      var l := LowerChar(c);
      assert l as int == c as int + 32;
      if c <= '\U{00DD}' {
        assert (l as int - 32) as char == c;
      }
    }
  }

  /** The words of single-space-joined words are those words. */
  lemma {:induction false} WordsOfJoin(ws: seq<string>)
    requires forall k :: 0 <= k < |ws| ==> IsWord(ws[k])
    ensures Words(Join(ws, ' ')) == ws
  {
    if ws == [] {
    } else {
      var w := ws[0];
      var rest: string := if |ws| == 1 then [] else [' '] + Join(ws[1..], ' ');
      assert Join(ws, ' ') == w + rest;
      WordLenOf(w, rest);
      assert (w + rest)[..|w|] == w && (w + rest)[|w|..] == rest;
      if |ws| > 1 {
        WordsOfJoin(ws[1..]);
        assert rest[1..] == Join(ws[1..], ' ');
      }
    }
  }

  lemma WordLenOf(w: string, rest: string)
    requires NoSpace(w) && (rest == [] || IsSpace(rest[0]))
    ensures WordLen(w + rest) == |w|
  {
    if w != [] {
      assert (w + rest)[1..] == w[1..] + rest;
      WordLenOf(w[1..], rest);
    }
  }

  /** The white-space stage of `normalizeText` is idempotent. */
  lemma SqueezeIdempotent(s: string)
    ensures Squeeze(Squeeze(s)) == Squeeze(s)
  {
    SqueezeIsJoinedWords(s);
    SqueezeIsJoinedWords(Squeeze(s));
    WordsOfJoin(Words(s));
  }

  /** `normalizeText` is idempotent: a normalised string normalises to itself. */
  lemma NormalizeTextIdempotent(s: Option<string>)
    ensures NormalizeText(Some(NormalizeText(s))) == NormalizeText(s)
  {
    var t := NormalizeText(s);
    NormalizeTextShape(s);
    NormalizeTextShape(Some(t));
    NormalizeTextChars(s);
    DecomposeIdentity(t);
    StripIdentity(t);
    assert Lower(t) == t;
    assert Fold(t) == t;
    WordsOfJoin(Words(Fold(s.GetOr([]))));
  }

  lemma {:induction false} SplitWordThenSep(w: string, sep: char, r: string)
    requires sep !in w
    ensures Split(w + [sep] + r, sep) == [w] + Split(r, sep)
  {
    if w == [] {
      assert w + [sep] + r == [sep] + r;
    } else {
      assert (w + [sep] + r)[0] == w[0] != sep;
      assert (w + [sep] + r)[1..] == w[1..] + [sep] + r;
      SplitWordThenSep(w[1..], sep, r);
      assert [w[0]] + w[1..] == w;
    }
  }

  lemma {:induction false} SplitNoSep(w: string, sep: char)
    requires sep !in w
    ensures Split(w, sep) == [w]
  {
    if w != [] {
      assert w[0] != sep;
      SplitNoSep(w[1..], sep);
      assert [w[0]] + w[1..] == w;
    }
  }

  /** Splitting words joined by single spaces gives back the words when none holds a space. */
  lemma {:induction false} SplitJoin(ws: seq<string>, sep: char)
    requires ws != [] && forall k :: 0 <= k < |ws| ==> sep !in ws[k]
    ensures Split(Join(ws, sep), sep) == ws
  {
    if |ws| == 1 {
      SplitNoSep(ws[0], sep);
    } else {
      SplitWordThenSep(ws[0], sep, Join(ws[1..], sep));
      SplitJoin(ws[1..], sep);
    }
  }

  /** Joining the parts of a split with its separator gives back the string. */
  lemma {:induction false} JoinSplit(s: string, sep: char)
    ensures Join(Split(s, sep), sep) == s
  {
    if s == [] {
    } else if s[0] == sep {
      JoinSplit(s[1..], sep);
    } else {
      JoinSplit(s[1..], sep);
      var rest := Split(s[1..], sep);
      if |rest| > 1 {
        assert Join(rest, sep) == rest[0] + [sep] + Join(rest[1..], sep);
      }
    }
  }
}
