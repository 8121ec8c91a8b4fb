/**
 Arabic text helpers of the search page: the normalizer (`normalize_ar`) and
 the whitespace tokenizer (`tokenize_ar`). Strings are sequences of Unicode
 scalar values; every regular-expression class the normalizer uses is a
 character predicate below.
 */
module ArabicText {

  // ---------------------------------------------------------------------
  // Character classes
  // ---------------------------------------------------------------------

  /** Python's whitespace test (`str.isspace`), which is also what the regex
      class `\s` and the argument-less `str.split()` and `str.strip()` use. */
  predicate IsSpace(c: char) {
    var n := c as int;
    (0x09 <= n <= 0x0D) || (0x1C <= n <= 0x20) || n == 0x85 || n == 0xA0
    || n == 0x1680 || (0x2000 <= n <= 0x200A) || n == 0x2028 || n == 0x2029
    || n == 0x202F || n == 0x205F || n == 0x3000
  }

  /** The class `AR_DIACRITICS`: U+0617..U+061A, U+064B..U+0652, U+0670 and
      U+06D6..U+06ED. */
  predicate IsDiacritic(c: char) {
    var n := c as int;
    (0x0617 <= n <= 0x061A) || (0x064B <= n <= 0x0652) || n == 0x0670
    || (0x06D6 <= n <= 0x06ED)
  }

  /** The range `؀-ۿ` of the punctuation filter. */
  predicate InArabicBlock(c: char) {
    0x0600 <= c as int <= 0x06FF
  }

  /** The regex class `\w`: alphanumeric characters and the underscore.
      Exact for code points up to U+00FF; see the README for the rest. */
  predicate IsWordChar(c: char) {
    var n := c as int;
    c == '_' || ('0' <= c <= '9') || ('A' <= c <= 'Z') || ('a' <= c <= 'z')
    || n == 0xAA || n == 0xB2 || n == 0xB3 || n == 0xB5 || n == 0xB9 || n == 0xBA
    || (0xBC <= n <= 0xBE) || (0xC0 <= n <= 0xD6) || (0xD8 <= n <= 0xF6)
    || (0xF8 <= n <= 0xFF)
  }

  /** A character the punctuation filter keeps: `\w`, `\s` or the Arabic block. */
  predicate IsKept(c: char) {
    IsWordChar(c) || IsSpace(c) || InArabicBlock(c)
  }

  const Alef: char := '\U{0627}'
  const AlefMadda: char := '\U{0622}'
  const AlefHamzaAbove: char := '\U{0623}'
  const AlefHamzaBelow: char := '\U{0625}'
  const AlefMaksura: char := '\U{0649}'
  const Yaa: char := '\U{064A}'
  const TaaMarbuta: char := '\U{0629}'
  const Haa: char := '\U{0647}'

  /** The five letters the normalizer rewrites. */
  predicate IsFoldable(c: char) {
    c == AlefHamzaAbove || c == AlefHamzaBelow || c == AlefMadda
    || c == AlefMaksura || c == TaaMarbuta
  }

  /** A character that can appear in normalized text. */
  predicate IsClean(c: char) {
    IsKept(c) && !IsDiacritic(c) && !IsFoldable(c)
  }

  /** The letter rewriting of one character: the three hamza/madda alefs
      become bare alef, alef maksura becomes yaa, taa marbuta becomes haa. */
  function FoldLetter(c: char): (d: char)
    ensures !IsFoldable(d)
    ensures !IsFoldable(c) ==> d == c
    ensures c == AlefHamzaAbove || c == AlefHamzaBelow || c == AlefMadda ==> d == Alef
    ensures c == AlefMaksura ==> d == Yaa
    ensures c == TaaMarbuta ==> d == Haa
    ensures IsDiacritic(d) == IsDiacritic(c)
  {
    if c == AlefHamzaAbove || c == AlefHamzaBelow || c == AlefMadda then Alef
    else if c == AlefMaksura then Yaa
    else if c == TaaMarbuta then Haa
    else c
  }

  // ---------------------------------------------------------------------
  // Shapes of strings
  // ---------------------------------------------------------------------

  /** No leading and no trailing whitespace. */
  predicate Trimmed(s: string) {
    s == [] || (!IsSpace(s[0]) && !IsSpace(s[|s| - 1]))
  }

  /** Every whitespace character is a plain space and no two are adjacent. */
  predicate SingleSpaced(s: string) {
    && (forall i :: 0 <= i < |s| && IsSpace(s[i]) ==> s[i] == ' ')
    && (forall i, j :: 0 <= i < |s| && 0 <= j < |s| && j == i + 1 ==> !(IsSpace(s[i]) && IsSpace(s[j])))
  }

  /** Every character of `s` satisfies `p`. */
  predicate CharsSatisfy(s: string, p: char -> bool) {
    forall i :: 0 <= i < |s| ==> p(s[i])
  }

  predicate AllClean(s: string) {
    CharsSatisfy(s, IsClean)
  }

  /** The shape of every string `normalize_ar` returns. */
  predicate IsNormalForm(s: string) {
    Trimmed(s) && SingleSpaced(s) && AllClean(s)
  }

  // ---------------------------------------------------------------------
  // The five steps of the normalizer
  // ---------------------------------------------------------------------

  /** Step 1: delete every character of `AR_DIACRITICS`. */
  function RemoveDiacritics(s: string): (r: string)
    ensures forall i :: 0 <= i < |r| ==> !IsDiacritic(r[i])
    ensures (forall i :: 0 <= i < |s| ==> !IsDiacritic(s[i])) ==> r == s
  {
    if s == [] then []
    else if IsDiacritic(s[0]) then RemoveDiacritics(s[1..])
    else [s[0]] + RemoveDiacritics(s[1..])
  }

  /** Step 1 deletes nothing else: every other character keeps its number
      of occurrences. */
  lemma {:induction false} RemoveDiacriticsKeepsOthers(s: string)
    ensures forall c :: !IsDiacritic(c) ==> multiset(RemoveDiacritics(s))[c] == multiset(s)[c]
  {
    if s != [] {
      assert s == [s[0]] + s[1..];
      RemoveDiacriticsKeepsOthers(s[1..]);
    }
  }

  /** Step 1 works character by character and keeps the order: removing
      from a concatenation is concatenating the removals, and a single
      character is dropped exactly when it is a diacritic. */
  lemma {:induction false} RemoveDiacriticsAppend(a: string, b: string)
    ensures RemoveDiacritics(a + b) == RemoveDiacritics(a) + RemoveDiacritics(b)
    ensures |a| == 1 ==> RemoveDiacritics(a) == (if IsDiacritic(a[0]) then [] else a)
  {
    if a == [] {
      assert a + b == b;
    } else {
      assert (a + b)[0] == a[0] && (a + b)[1..] == a[1..] + b;
      RemoveDiacriticsAppend(a[1..], b);
    }
  }

  /** Steps 2 and 3: the letter rewriting, character by character. */
  function FoldLetters(s: string): (r: string)
    ensures |r| == |s|
    ensures forall i :: 0 <= i < |s| ==> !IsFoldable(r[i])
    ensures forall i :: 0 <= i < |s| && !IsFoldable(s[i]) ==> r[i] == s[i]
    ensures forall i :: 0 <= i < |s| ==> IsDiacritic(r[i]) == IsDiacritic(s[i])
  {
    seq(|s|, i requires 0 <= i < |s| => FoldLetter(s[i]))
  }

  /** Step 4: every character that is neither `\w`, `\s` nor in the Arabic
      block becomes a space. */
  function ReplaceForeign(s: string): (r: string)
    ensures |r| == |s|
    ensures forall i :: 0 <= i < |s| ==> IsKept(r[i])
    ensures forall i :: 0 <= i < |s| ==> r[i] == (if IsKept(s[i]) then s[i] else ' ')
  {
    seq(|s|, i requires 0 <= i < |s| => if IsKept(s[i]) then s[i] else ' ')
  }

  /** Drops the whitespace at the front (`str.lstrip()`). */
  function SkipSpaces(s: string): (r: string)
    ensures |r| <= |s| && r == s[|s| - |r|..]
    ensures r == [] || !IsSpace(r[0])
    ensures forall i :: 0 <= i < |s| - |r| ==> IsSpace(s[i])
  {
    if s != [] && IsSpace(s[0]) then SkipSpaces(s[1..]) else s
  }

  /** Drops the whitespace at the end (`str.rstrip()`). */
  function TrimEnd(s: string): (r: string)
    ensures |r| <= |s| && r == s[..|r|]
    ensures r == [] || !IsSpace(r[|r| - 1])
    ensures forall i :: |r| <= i < |s| ==> IsSpace(s[i])
  {
    if s != [] && IsSpace(s[|s| - 1]) then TrimEnd(s[..|s| - 1]) else s
  }

  /** Step 5a: `re.sub(r"\s+", " ", s)`, every maximal run of whitespace
      becomes one plain space. */
  function CollapseSpaces(s: string): (r: string)
    ensures SingleSpaced(r)
    ensures r == [] <==> s == []
    ensures r != [] ==> (IsSpace(r[0]) <==> IsSpace(s[0]))
    decreases |s|
  {
    if s == [] then []
    else if IsSpace(s[0]) then
      var r := CollapseSpaces(SkipSpaces(s[1..]));
      ConsSingleSpaced(' ', r);
      [' '] + r
    else
      var r := CollapseSpaces(s[1..]);
      ConsSingleSpaced(s[0], r);
      [s[0]] + r
  }

  /** Putting one character in front of a single-spaced string keeps it
      single-spaced when that character is no space, or is a plain space
      followed by no space. */
  lemma ConsSingleSpaced(c: char, s: string)
    requires SingleSpaced(s)
    requires IsSpace(c) ==> c == ' ' && (s == [] || !IsSpace(s[0]))
    ensures SingleSpaced([c] + s)
  {
    var t := [c] + s;
    forall i, j | 0 <= i < |t| && 0 <= j < |t| && j == i + 1
      ensures !(IsSpace(t[i]) && IsSpace(t[j]))
    {
      if i > 0 {
        assert t[i] == s[i - 1] && t[j] == s[j - 1];
      }
    }
    forall i | 0 <= i < |t| && IsSpace(t[i])
      ensures t[i] == ' '
    {
      if i > 0 {
        assert t[i] == s[i - 1];
      }
    }
  }

  /** Step 5b: `str.strip()`, the longest slice without whitespace at
      either end. */
  function Strip(s: string): (r: string)
    ensures Trimmed(r)
    ensures exists i, j :: (0 <= i <= j <= |s| && r == s[i..j]
      && (forall k :: 0 <= k < i ==> IsSpace(s[k]))
      && (forall k :: j <= k < |s| ==> IsSpace(s[k])))
  {
    var t := SkipSpaces(s);
    var r := TrimEnd(t);
    assert r == s[|s| - |t|..|s| - |t| + |r|];
    r
  }

  /** `normalize_ar`: empty input gives the empty string, otherwise the five
      steps in order. */
  function Normalize(text: string): (r: string)
    ensures text == [] ==> r == []
  {
    if text == [] then []
    else Strip(CollapseSpaces(ReplaceForeign(FoldLetters(RemoveDiacritics(text)))))
  }

  // ---------------------------------------------------------------------
  // Properties of the normalizer
  // ---------------------------------------------------------------------

  /** A suffix of a single-spaced string is single-spaced. */
  lemma DropKeepsSingleSpaced(s: string, n: int)
    requires 0 <= n <= |s| && SingleSpaced(s)
    ensures SingleSpaced(s[n..])
  {
    var t := s[n..];
    forall k, l | 0 <= k && l == k + 1 && l < |t|
      ensures !(IsSpace(t[k]) && IsSpace(t[l]))
    {
      assert t[k] == s[n + k] && t[l] == s[n + l];
    }
  }

  /** A prefix of a single-spaced string is single-spaced. */
  lemma TakeKeepsSingleSpaced(s: string, n: int)
    requires 0 <= n <= |s| && SingleSpaced(s)
    ensures SingleSpaced(s[..n])
  {
    var t := s[..n];
    forall k, l | 0 <= k && l == k + 1 && l < |t|
      ensures !(IsSpace(t[k]) && IsSpace(t[l]))
    {
      assert t[k] == s[k] && t[l] == s[l];
    }
  }

  lemma DropSatisfies(s: string, n: int, p: char -> bool)
    requires 0 <= n <= |s| && CharsSatisfy(s, p)
    ensures CharsSatisfy(s[n..], p)
  {
    forall k | 0 <= k < |s| - n
      ensures p(s[n..][k])
    {
      assert s[n..][k] == s[n + k];
    }
  }

  lemma TakeSatisfies(s: string, n: int, p: char -> bool)
    requires 0 <= n <= |s| && CharsSatisfy(s, p)
    ensures CharsSatisfy(s[..n], p)
  {
    forall k | 0 <= k < n
      ensures p(s[..n][k])
    {
      assert s[..n][k] == s[k];
    }
  }

  lemma ConsSatisfies(w: string, ws: seq<string>, p: char -> bool)
    requires CharsSatisfy(w, p)
    requires forall k :: 0 <= k < |ws| ==> CharsSatisfy(ws[k], p)
    ensures forall k :: 0 <= k < |[w] + ws| ==> CharsSatisfy(([w] + ws)[k], p)
  {
  }

  /** The whitespace collapse only adds plain spaces: any property of all
      characters that the space has too survives it. */
  lemma {:induction false} CollapseKeepsChars(s: string, p: char -> bool)
    requires CharsSatisfy(s, p) && p(' ')
    ensures CharsSatisfy(CollapseSpaces(s), p)
    decreases |s|
  {
    if s != [] {
      DropSatisfies(s, 1, p);
      if IsSpace(s[0]) {
        var rest := SkipSpaces(s[1..]);
        DropSatisfies(s[1..], |s[1..]| - |rest|, p);
        CollapseKeepsChars(rest, p);
      } else {
        CollapseKeepsChars(s[1..], p);
      }
    }
  }

  /** Every result of the normalizer is trimmed, single-spaced and made of
      clean characters only: no diacritic, no hamza/madda alef, no alef
      maksura, no taa marbuta and nothing outside `\w`, `\s` and the Arabic
      block. */
  lemma {:induction false} NormalizeIsNormalForm(text: string)
    ensures IsNormalForm(Normalize(text))
  {
    if text != [] {
      var a := RemoveDiacritics(text);
      var b := FoldLetters(a);
      var c := ReplaceForeign(b);
      assert AllClean(c);
      assert IsClean(' ');
      CollapseKeepsChars(c, IsClean);
      StripKeepsShape(CollapseSpaces(c));
    }
  }

  /** Trimming a single-spaced string of clean characters gives a normal
      form. */
  lemma StripKeepsShape(d: string)
    requires SingleSpaced(d) && AllClean(d)
    ensures IsNormalForm(Strip(d))
  {
    var t := SkipSpaces(d);
    DropKeepsSingleSpaced(d, |d| - |t|);
    DropSatisfies(d, |d| - |t|, IsClean);
    var r := TrimEnd(t);
    TakeKeepsSingleSpaced(t, |r|);
    TakeSatisfies(t, |r|, IsClean);
  }

  /** A single-spaced string is left alone by the whitespace collapse. */
  lemma {:induction false} CollapseKeepsSingleSpaced(s: string)
    requires SingleSpaced(s)
    ensures CollapseSpaces(s) == s
    decreases |s|
  {
    if s != [] {
      DropKeepsSingleSpaced(s, 1);
      if IsSpace(s[0]) {
        assert s[1..] == [] || !IsSpace(s[1]);
        assert SkipSpaces(s[1..]) == s[1..];
      }
      CollapseKeepsSingleSpaced(s[1..]);
    }
  }

  /** The strings the normalizer leaves unchanged are exactly its normal
      forms. */
  lemma {:induction false} NormalizeFixesNormalForms(t: string)
    ensures Normalize(t) == t <==> IsNormalForm(t)
  {
    if IsNormalForm(t) && t != [] {
      assert RemoveDiacritics(t) == t;
      assert FoldLetters(t) == t;
      assert ReplaceForeign(t) == t;
      CollapseKeepsSingleSpaced(t);
      assert SkipSpaces(t) == t;
      assert TrimEnd(t) == t;
    }
    NormalizeIsNormalForm(t);
  }

  /** Normalizing twice is normalizing once, so the query normalized before
      the search loop and normalized again inside the matcher gives the
      same text. */
  lemma NormalizeIdempotent(text: string)
    ensures Normalize(Normalize(text)) == Normalize(text)
  {
    NormalizeIsNormalForm(text);
    NormalizeFixesNormalForms(Normalize(text));
  }

  // ---------------------------------------------------------------------
  // The tokenizer
  // ---------------------------------------------------------------------

  /** A token: non-empty and free of whitespace. */
  predicate IsToken(w: string) {
    w != [] && forall i :: 0 <= i < |w| ==> !IsSpace(w[i])
  }

  /** The longest whitespace-free prefix. */
  function TakeWord(s: string): (w: string)
    ensures |w| <= |s| && w == s[..|w|]
    ensures forall i :: 0 <= i < |w| ==> !IsSpace(w[i])
    ensures |w| == |s| || IsSpace(s[|w|])
  {
    if s == [] || IsSpace(s[0]) then [] else [s[0]] + TakeWord(s[1..])
  }

  /** `str.split()` without arguments: the maximal whitespace-free runs, in
      order. */
  function Split(s: string): (ws: seq<string>)
    ensures forall k :: 0 <= k < |ws| ==> IsToken(ws[k])
    decreases |s|
  {
    var t := SkipSpaces(s);
    if t == [] then []
    else
      var w := TakeWord(t);
      assert w != [] by {
        assert |w| == |t| || IsSpace(t[|w|]);
      }
      var ws := Split(t[|w|..]);
      ConsTokens(w, ws);
      [w] + ws
  }

  lemma ConsTokens(w: string, ws: seq<string>)
    requires IsToken(w)
    requires forall k :: 0 <= k < |ws| ==> IsToken(ws[k])
    ensures forall k :: 0 <= k < |[w] + ws| ==> IsToken(([w] + ws)[k])
  {
  }

  /** Every character of every token is a character of the split string, so
      any property of all characters of the string holds of the tokens. */
  lemma {:induction false} SplitKeepsChars(s: string, p: char -> bool)
    requires CharsSatisfy(s, p)
    ensures forall k :: 0 <= k < |Split(s)| ==> CharsSatisfy(Split(s)[k], p)
    decreases |s|
  {
    var t := SkipSpaces(s);
    if t != [] {
      var w := TakeWord(t);
      var rest := t[|w|..];
      DropSatisfies(s, |s| - |t|, p);
      TakeSatisfies(t, |w|, p);
      DropSatisfies(t, |w|, p);
      SplitKeepsChars(rest, p);
      ConsSatisfies(w, Split(rest), p);
      assert Split(s) == [w] + Split(rest);
    }
  }

  /** `tokenize_ar`: the normalized text split on whitespace. */
  function Tokenize(text: string): (ws: seq<string>)
    ensures text == [] ==> ws == []
    ensures forall k :: 0 <= k < |ws| ==> IsToken(ws[k])
    ensures forall k :: 0 <= k < |ws| ==> AllClean(ws[k])
  {
    NormalizeIsNormalForm(text);
    assert CharsSatisfy(Normalize(text), IsClean);
    SplitKeepsChars(Normalize(text), IsClean);
    Split(Normalize(text))
  }

  /** `" ".join(ws)`. */
  function JoinSpaces(ws: seq<string>): string {
    if ws == [] then []
    else if |ws| == 1 then ws[0]
    else ws[0] + [' '] + JoinSpaces(ws[1..])
  }

  lemma SplitAtWord(s: string)
    requires s != [] && !IsSpace(s[0])
    ensures Split(s) == [TakeWord(s)] + Split(s[|TakeWord(s)|..])
  {
    assert SkipSpaces(s) == s;
  }

  lemma SplitAtSpace(r: string)
    requires |r| >= 2 && IsSpace(r[0]) && !IsSpace(r[1])
    ensures Split(r) == Split(r[1..])
  {
    assert SkipSpaces(r[1..]) == r[1..];
    assert SkipSpaces(r) == r[1..];
  }

  lemma JoinCons(w: string, ws: seq<string>)
    requires ws != []
    ensures JoinSpaces([w] + ws) == w + [' '] + JoinSpaces(ws)
  {
    assert ([w] + ws)[1..] == ws;
  }

  lemma SplitAround(s: string, n: nat)
    requires n + 1 < |s| && s[n] == ' '
    ensures s == s[..n] + [' '] + s[n + 1..]
  {
  }

  /** In a trimmed, single-spaced string, a first word that is not all of
      it is followed by one plain space and then by a character that is no
      space. */
  lemma WordThenSpace(s: string)
    requires s != [] && Trimmed(s) && SingleSpaced(s) && |TakeWord(s)| < |s|
    ensures var n := |TakeWord(s)|;
      n + 1 < |s| && s[n] == ' ' && !IsSpace(s[n + 1])
  {
    assert !IsSpace(s[|s| - 1]);
  }

  /** One step of the split of a trimmed, single-spaced string: the first
      word, one space, and a shorter string of the same shape. */
  lemma SplitNormalStep(s: string)
    requires s != [] && Trimmed(s) && SingleSpaced(s) && |TakeWord(s)| < |s|
    ensures var w := TakeWord(s); var s' := s[|w| + 1..];
      && Split(s) == [w] + Split(s')
      && s == w + [' '] + s'
      && Trimmed(s') && SingleSpaced(s') && Split(s') != []
  {
    var w := TakeWord(s);
    var s' := s[|w| + 1..];
    WordThenSpace(s);
    assert Split(s) == [w] + Split(s') by {
      SplitAtWord(s);
      var rest := s[|w|..];
      assert rest[1..] == s' && rest[1] == s[|w| + 1];
      SplitAtSpace(rest);
    }
    assert Trimmed(s') && SingleSpaced(s') by {
      DropKeepsSingleSpaced(s, |w| + 1);
    }
    assert Split(s') != [] by {
      SplitAtWord(s');
    }
    SplitAround(s, |w|);
  }

  /** On a trimmed, single-spaced string, joining the split with single
      spaces gives the string back. */
  lemma {:induction false} JoinSplit(s: string)
    requires Trimmed(s) && SingleSpaced(s)
    ensures JoinSpaces(Split(s)) == s
    decreases |s|
  {
    if s != [] {
      var w := TakeWord(s);
      if |w| == |s| {
        SplitAtWord(s);
        assert s[|w|..] == [];
        assert w == s;
      } else {
        SplitNormalStep(s);
        var s' := s[|w| + 1..];
        JoinSplit(s');
        JoinCons(w, Split(s'));
      }
    }
  }

  /** Leading whitespace does not change the split. */
  lemma SplitSkip(s: string)
    ensures Split(SkipSpaces(s)) == Split(s)
  {
    var t := SkipSpaces(s);
    assert SkipSpaces(t) == t;
  }

  /** A non-space character in front of a text that is empty or starts with
      whitespace is a word of its own. */
  lemma SplitConsSpace(c: char, x: string)
    requires !IsSpace(c) && (x == [] || IsSpace(x[0]))
    ensures Split([c] + x) == [[c]] + Split(x)
  {
    var y := [c] + x;
    SplitAtWord(y);
    assert y[1..] == x;
    assert TakeWord(y) == [c] by {
      assert TakeWord(x) == [];
    }
  }

  /** A non-space character in front of a word joins that word. */
  lemma SplitConsWord(c: char, x: string)
    requires !IsSpace(c) && x != [] && !IsSpace(x[0])
    ensures Split(x) != [] && Split([c] + x) == [[c] + Split(x)[0]] + Split(x)[1..]
  {
    var y := [c] + x;
    SplitAtWord(x);
    SplitAtWord(y);
    assert y[1..] == x;
    var w := TakeWord(x);
    assert TakeWord(y) == [c] + w;
    assert y[|[c] + w|..] == x[|w|..];
  }

  /** `r` has the words of `s`, in order, and ends with whitespace exactly
      when `s` does. */
  predicate KeepsWords(s: string, r: string) {
    && Split(r) == Split(s)
    && (r != [] ==> s != [] && (IsSpace(r[|r| - 1]) <==> IsSpace(s[|s| - 1])))
  }

  /** The whitespace collapse keeps every word, in order, and keeps
      trailing whitespace exactly when there was some: it only shortens
      whitespace runs. */
  lemma {:induction false} CollapseKeepsWords(s: string)
    ensures KeepsWords(s, CollapseSpaces(s))
    decreases |s|
  {
    if s != [] {
      var r := CollapseSpaces(s);
      if IsSpace(s[0]) {
        var u := SkipSpaces(s[1..]);
        var cu := CollapseSpaces(u);
        CollapseKeepsWords(u);
        assert r == [' '] + cu;
        AfterSpaceRun(s);
        CollapseSpaceStep(s, u, cu, r);
      } else {
        var cx := CollapseSpaces(s[1..]);
        CollapseKeepsWords(s[1..]);
        assert r == [s[0]] + cx;
        CollapseWordStep(s, s[1..], cx, r);
      }
    }
  }

  /** The collapse step at a whitespace run, where `u` is what follows the
      run. */
  lemma CollapseSpaceStep(s: string, u: string, cu: string, r: string)
    requires s != [] && Split(s) == Split(u)
    requires u != [] ==> u[|u| - 1] == s[|s| - 1]
    requires u == [] ==> IsSpace(s[|s| - 1])
    requires KeepsWords(u, cu) && (cu == [] <==> u == []) && (cu != [] ==> !IsSpace(cu[0]))
    requires r == [' '] + cu
    ensures KeepsWords(s, r)
  {
    SplitSpaceFront(r, cu);
    assert Split(r) == Split(s);
    if cu != [] {
      assert r[|r| - 1] == cu[|cu| - 1];
    }
  }

  /** What follows a leading whitespace run has the same split and the same
      last character; if nothing follows, the string ends with whitespace. */
  lemma AfterSpaceRun(s: string)
    requires s != [] && IsSpace(s[0])
    ensures var u := SkipSpaces(s[1..]);
      && Split(s) == Split(u)
      && (u != [] ==> u[|u| - 1] == s[|s| - 1])
      && (u == [] ==> IsSpace(s[|s| - 1]))
  {
    var u := SkipSpaces(s[1..]);
    assert SkipSpaces(s) == u;
    SplitSkip(s);
    SkipSpacesLast(s[1..]);
    if |s| > 1 {
      assert s[1..][|s| - 2] == s[|s| - 1];
    }
  }

  /** The last character survives `SkipSpaces`, and a string it empties
      ends with whitespace. */
  lemma SkipSpacesLast(x: string)
    ensures var t := SkipSpaces(x);
      && (t != [] ==> t[|t| - 1] == x[|x| - 1])
      && (t == [] && x != [] ==> IsSpace(x[|x| - 1]))
  {
    var t := SkipSpaces(x);
    if t != [] {
      assert t == x[|x| - |t|..];
    }
  }

  /** One space in front of a text that does not start with whitespace
      does not change its split. */
  lemma SplitSpaceFront(r: string, cu: string)
    requires r == [' '] + cu && (cu == [] || !IsSpace(cu[0]))
    ensures Split(r) == Split(cu)
  {
    assert r[1..] == cu;
    assert SkipSpaces(cu) == cu;
    assert SkipSpaces(r) == cu;
    SplitSkip(r);
  }

  /** The collapse step at a character that is no whitespace. */
  lemma CollapseWordStep(s: string, x: string, cx: string, r: string)
    requires s != [] && !IsSpace(s[0]) && x == s[1..]
    requires KeepsWords(x, cx) && (cx == [] <==> x == []) && r == [s[0]] + cx
    requires cx != [] ==> (IsSpace(cx[0]) <==> IsSpace(x[0]))
    ensures KeepsWords(s, r)
  {
    assert s == [s[0]] + x;
    if x == [] {
      assert r == s;
    } else {
      if IsSpace(x[0]) {
        SplitConsSpace(s[0], cx);
        SplitConsSpace(s[0], x);
      } else {
        SplitConsWord(s[0], cx);
        SplitConsWord(s[0], x);
      }
      assert r[|r| - 1] == cx[|cx| - 1] && s[|s| - 1] == x[|x| - 1];
    }
  }

  /** Joining the tokens with single spaces reproduces the normalized text. */
  lemma TokenizeJoin(text: string)
    ensures JoinSpaces(Tokenize(text)) == Normalize(text)
  {
    NormalizeIsNormalForm(text);
    JoinSplit(Normalize(text));
  }

  /** Tokenizing the normalized text gives the same tokens as tokenizing the
      raw text. */
  lemma TokenizeNormalized(text: string)
    ensures Tokenize(Normalize(text)) == Tokenize(text)
  {
    NormalizeIdempotent(text);
  }
}
