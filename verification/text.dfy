/** Character classes, ASCII case mapping, substring search and the text
    cleaning of the matcher (`clean_text`, knowledge_base.py:83-89), together
    with Python's argument-less `str.split()` and `str.strip()`. */
module Text {

  /** Python's `str.isspace()`: the characters that `\s`, `split()` and
      `strip()` treat as whitespace. */
  predicate IsSpace(c: char) {
    || '\t' <= c <= '\r'
    || '\U{001C}' <= c <= ' '
    || c == '\U{0085}' || c == '\U{00A0}' || c == '\U{1680}'
    || '\U{2000}' <= c <= '\U{200A}'
    || c == '\U{2028}' || c == '\U{2029}' || c == '\U{202F}'
    || c == '\U{205F}' || c == '\U{3000}'
  }

  /** The characters `clean_text` keeps: `[a-z0-9]`. */
  predicate IsLowerAlnum(c: char) {
    ('a' <= c <= 'z') || ('0' <= c <= '9')
  }

  predicate IsUpperAscii(c: char) {
    'A' <= c <= 'Z'
  }

  function LowerChar(c: char): (r: char)
    ensures IsSpace(r) <==> IsSpace(c)
    ensures !IsUpperAscii(r)
    ensures !IsUpperAscii(c) ==> r == c
  {
    if IsUpperAscii(c) then (c as int + 32) as char else c
  }

  function UpperChar(c: char): (r: char)
    ensures IsSpace(r) <==> IsSpace(c)
    ensures LowerChar(r) == LowerChar(c)
    ensures !('a' <= r <= 'z')
  {
    if 'a' <= c <= 'z' then (c as int - 32) as char else c
  }

  /** `str.lower()`, restricted to the ASCII letters. */
  function Lower(s: string): (r: string)
    ensures |r| == |s|
    ensures forall i :: 0 <= i < |s| ==> r[i] == LowerChar(s[i])
  {
    seq(|s|, i requires 0 <= i < |s| => LowerChar(s[i]))
  }

  /** Lowering is idempotent. */
  lemma LowerIdempotent(s: string)
    ensures Lower(Lower(s)) == Lower(s)
  {
  }

  /** A string without upper-case ASCII letters is its own lower-case form. */
  lemma LowerOfLowerCase(s: string)
    requires forall i :: 0 <= i < |s| ==> !IsUpperAscii(s[i])
    ensures Lower(s) == s
  {
  }

  predicate IsPrefix(p: string, s: string) {
    |p| <= |s| && s[..|p|] == p
  }

  /** Python's `p in s` on strings. */
  predicate IsSubstring(p: string, s: string)
    decreases |s|
  {
    IsPrefix(p, s) || (|s| > 0 && IsSubstring(p, s[1..]))
  }

  /** `p` occurs in `s` starting at position `i`. */
  predicate OccursAt(p: string, s: string, i: int) {
    0 <= i <= |s| - |p| && s[i..i + |p|] == p
  }

  /** `IsSubstring` holds exactly when `p` occurs at some position of `s`. */
  lemma {:induction false} SubstringIffOccurs(p: string, s: string)
    ensures IsSubstring(p, s) <==> exists i :: OccursAt(p, s, i)
    decreases |s|
  {
    if IsSubstring(p, s) {
      if IsPrefix(p, s) {
        assert OccursAt(p, s, 0);
      } else {
        SubstringIffOccurs(p, s[1..]);
        var i :| OccursAt(p, s[1..], i);
        assert s[1..][i..i + |p|] == s[i + 1..i + 1 + |p|];
        assert OccursAt(p, s, i + 1);
      }
    }
    if exists i :: OccursAt(p, s, i) {
      var i :| OccursAt(p, s, i);
      if i > 0 {
        assert s[1..][i - 1..i - 1 + |p|] == s[i..i + |p|];
        assert OccursAt(p, s[1..], i - 1);
        SubstringIffOccurs(p, s[1..]);
      } else {
        assert IsPrefix(p, s);
      }
    }
  }

  /** Step 1 of `clean_text` after lowering: every character outside
      `[a-z0-9\s]` becomes a space. */
  function Scrub(s: string): (r: string)
    ensures |r| == |s|
    ensures forall i :: 0 <= i < |s| ==> r[i] == (if IsLowerAlnum(s[i]) || IsSpace(s[i]) then s[i] else ' ')
  {
    seq(|s|, i requires 0 <= i < |s| => if IsLowerAlnum(s[i]) || IsSpace(s[i]) then s[i] else ' ')
  }

  /** No two adjacent whitespace characters. */
  predicate NoDoubleSpace(s: string) {
    forall i, j :: 0 <= i < |s| && 0 <= j < |s| && j == i + 1 ==> !(IsSpace(s[i]) && IsSpace(s[j]))
  }

  /** Step 2 of `clean_text`: every maximal run of whitespace becomes one
      `' '`. A whitespace character followed by another one is dropped; the
      last of a run is written as `' '`. */
  function Collapse(s: string): (r: string)
    ensures |s| > 0 ==> |r| > 0 && (IsSpace(r[0]) <==> IsSpace(s[0]))
    ensures |s| > 0 ==> (IsSpace(r[|r| - 1]) <==> IsSpace(s[|s| - 1]))
    ensures forall i :: 0 <= i < |r| ==> r[i] == ' ' || (!IsSpace(r[i]) && r[i] in s)
    ensures NoDoubleSpace(r)
    decreases |s|
  {
    if |s| == 0 then []
    else if IsSpace(s[0]) then
      if |s| > 1 && IsSpace(s[1]) then Collapse(s[1..]) else [' '] + Collapse(s[1..])
    else [s[0]] + Collapse(s[1..])
  }

  /** Removes leading whitespace. */
  function DropLeading(s: string): (r: string)
    ensures |r| <= |s| && r == s[|s| - |r|..]
    ensures |r| > 0 ==> !IsSpace(r[0])
    decreases |s|
  {
    if |s| > 0 && IsSpace(s[0]) then DropLeading(s[1..]) else s
  }

  /** Removes trailing whitespace. */
  function DropTrailing(s: string): (r: string)
    ensures |r| <= |s| && r == s[..|r|]
    ensures |r| > 0 ==> !IsSpace(r[|r| - 1])
    decreases |s|
  {
    if |s| > 0 && IsSpace(s[|s| - 1]) then DropTrailing(s[..|s| - 1]) else s
  }

  /** Python's `str.strip()` with no argument. */
  function Strip(s: string): (r: string)
    ensures |r| <= |s|
    ensures |r| > 0 ==> !IsSpace(r[0]) && !IsSpace(r[|r| - 1])
  {
    DropTrailing(DropLeading(s))
  }

  /** What `strip()` returns is a contiguous slice of its argument. */
  lemma StripIsSlice(s: string)
    ensures exists a :: OccursAt(Strip(s), s, a)
  {
    var t := DropLeading(s);
    var r := DropTrailing(t);
    assert Strip(s) == r;
    assert OccursAt(r, s, |s| - |t|);
  }

  /** A string that has no whitespace at either end is its own `strip()`. */
  lemma StripOfTrimmed(s: string)
    requires |s| > 0 ==> !IsSpace(s[0]) && !IsSpace(s[|s| - 1])
    ensures Strip(s) == s
  {
  }

  /** A whitespace character in front changes nothing `strip()` keeps. */
  lemma StripConsSpace(c: char, s: string)
    requires IsSpace(c)
    ensures Strip([c] + s) == Strip(s)
  {
    assert ([c] + s)[1..] == s;
  }

  /** A whitespace character at the end changes nothing `strip()` keeps. */
  lemma {:induction false} StripSnocSpace(s: string, c: char)
    requires IsSpace(c)
    ensures Strip(s + [c]) == Strip(s)
    decreases |s|
  {
    if |s| == 0 {
      assert s + [c] == [c];
      assert [c][1..] == [];
    } else if IsSpace(s[0]) {
      StripSnocSpace(s[1..], c);
      assert (s + [c])[1..] == s[1..] + [c];
    } else {
      assert DropLeading(s + [c]) == s + [c];
      assert (s + [c])[..|s|] == s;
    }
  }

  /** The shape `clean_text` produces: only `[a-z0-9]` and single interior spaces. */
  predicate IsClean(t: string) {
    && (forall i :: 0 <= i < |t| ==> IsLowerAlnum(t[i]) || t[i] == ' ')
    && (|t| > 0 ==> t[0] != ' ' && t[|t| - 1] != ' ')
    && NoDoubleSpace(t)
  }

  /** `clean_text`: lower-case, turn everything outside `[a-z0-9\s]` into a
      space, collapse whitespace runs to one space, and trim. */
  function CleanText(text: string): (r: string)
    ensures IsClean(r)
    ensures |text| == 0 ==> r == ""
  {
    if |text| == 0 then ""
    else
      var x := Scrub(Lower(text));
      var y := Collapse(x);
      var r := Strip(y);
      CleanShape(x, y, r);
      r
  }

  lemma CleanShape(x: string, y: string, r: string)
    requires forall i :: 0 <= i < |x| ==> IsLowerAlnum(x[i]) || IsSpace(x[i])
    requires y == Collapse(x) && r == Strip(y)
    ensures IsClean(r)
  {
    CollapsedChars(x, y);
    StripIsSlice(y);
    var a :| OccursAt(r, y, a);
    SliceKeepsShape(y, r, a);
  }

  lemma CollapsedChars(x: string, y: string)
    requires forall i :: 0 <= i < |x| ==> IsLowerAlnum(x[i]) || IsSpace(x[i])
    requires y == Collapse(x)
    ensures forall i :: 0 <= i < |y| ==> IsLowerAlnum(y[i]) || y[i] == ' '
  {
    forall i | 0 <= i < |y| ensures IsLowerAlnum(y[i]) || y[i] == ' ' {
      if y[i] != ' ' {
        var j :| 0 <= j < |x| && x[j] == y[i];
      }
    }
  }

  lemma SliceKeepsShape(y: string, r: string, a: int)
    requires forall i :: 0 <= i < |y| ==> IsLowerAlnum(y[i]) || y[i] == ' '
    requires NoDoubleSpace(y)
    requires OccursAt(r, y, a)
    requires |r| > 0 ==> !IsSpace(r[0]) && !IsSpace(r[|r| - 1])
    ensures IsClean(r)
  {
    assert forall i :: 0 <= i < |r| ==> r[i] == y[a + i];
    forall i, j | 0 <= i && j == i + 1 && j < |r| ensures !(IsSpace(r[i]) && IsSpace(r[j])) {
      assert r[i] == y[a + i] && r[j] == y[a + j];
    }
  }

  // ---------------------------------------------------------------- words

  /** Length of the leading run of non-whitespace characters. */
  function WordLength(s: string): (n: nat)
    ensures n <= |s|
    ensures forall i :: 0 <= i < n ==> !IsSpace(s[i])
    ensures n < |s| ==> IsSpace(s[n])
    decreases |s|
  {
    if |s| == 0 || IsSpace(s[0]) then 0 else 1 + WordLength(s[1..])
  }

  /** A non-empty run of non-whitespace characters. */
  predicate IsWord(w: string) {
    |w| > 0 && forall i :: 0 <= i < |w| ==> !IsSpace(w[i])
  }

  /** Python's `str.split()` with no argument: the maximal runs of
      non-whitespace characters, in order. */
  function Words(s: string): (r: seq<string>)
    ensures forall k :: 0 <= k < |r| ==> IsWord(r[k])
    decreases |s|
  {
    if |s| == 0 then []
    else if IsSpace(s[0]) then Words(s[1..])
    else
      var n := WordLength(s);
      [s[..n]] + Words(s[n..])
  }

  /** `' '.join(words)`. */
  function Join(ws: seq<string>): (r: string)
    ensures (forall k :: 0 <= k < |ws| ==> |ws[k]| > 0) ==> (|r| == 0 <==> |ws| == 0)
  {
    if |ws| == 0 then ""
    else if |ws| == 1 then ws[0]
    else ws[0] + " " + Join(ws[1..])
  }

  /** Words of a string that starts with a non-space character `c`. */
  lemma WordsCons(c: char, s: string)
    requires !IsSpace(c)
    ensures Words([c] + s) ==
      if |s| > 0 && !IsSpace(s[0]) then [[c] + Words(s)[0]] + Words(s)[1..]
      else [[c]] + Words(s)
  {
    var t := [c] + s;
    var m := WordLength(s);
    WordsConsUnfold(c, s);
    if |s| > 0 && !IsSpace(s[0]) {
      assert Words(s) == [s[..m]] + Words(s[m..]);
    } else {
      assert s[m..] == s;
    }
  }

  lemma WordsConsUnfold(c: char, s: string)
    requires !IsSpace(c)
    ensures Words([c] + s) == [[c] + s[..WordLength(s)]] + Words(s[WordLength(s)..])
  {
    var t := [c] + s;
    assert t[1..] == s;
    var m := WordLength(s);
    assert WordLength(t) == 1 + m;
    assert t[..1 + m] == [c] + s[..m];
    assert t[1 + m..] == s[m..];
  }

  /** Collapsing whitespace runs does not change the words. */
  lemma {:induction false} CollapseKeepsWords(s: string)
    ensures Words(Collapse(s)) == Words(s)
    decreases |s|
  {
    if |s| > 0 {
      CollapseKeepsWords(s[1..]);
      if IsSpace(s[0]) {
        CollapseSpaceStep(s);
      } else {
        CollapseWordStep(s);
      }
    }
  }

  lemma CollapseSpaceStep(s: string)
    requires |s| > 0 && IsSpace(s[0])
    requires Words(Collapse(s[1..])) == Words(s[1..])
    ensures Words(Collapse(s)) == Words(s)
  {
    if !(|s| > 1 && IsSpace(s[1])) {
      var t := [' '] + Collapse(s[1..]);
      assert Collapse(s) == t;
      assert t[1..] == Collapse(s[1..]);
    }
  }

  lemma CollapseWordStep(s: string)
    requires |s| > 0 && !IsSpace(s[0])
    requires Words(Collapse(s[1..])) == Words(s[1..])
    ensures Words(Collapse(s)) == Words(s)
  {
    CollapseWordUnfold(s);
    CollapseStartsWord(s[1..]);
    WordsConsStep(s, s[1..], Collapse(s), Collapse(s[1..]));
  }

  /** Words of `s` and `r` agree when both put the same word character before
      tails with the same words that both do or both do not start a word. */
  lemma WordsConsStep(s: string, t: string, r: string, c: string)
    requires |s| > 0 && !IsSpace(s[0]) && t == s[1..] && r == [s[0]] + c
    requires Words(c) == Words(t)
    requires (|t| > 0 && !IsSpace(t[0])) <==> (|c| > 0 && !IsSpace(c[0]))
    ensures Words(r) == Words(s)
  {
    assert s == [s[0]] + t;
    WordsConsSame(s[0], t, c);
  }

  lemma CollapseWordUnfold(s: string)
    requires |s| > 0 && !IsSpace(s[0])
    ensures Collapse(s) == [s[0]] + Collapse(s[1..])
  {
  }

  lemma CollapseStartsWord(t: string)
    ensures (|t| > 0 && !IsSpace(t[0])) <==> (|Collapse(t)| > 0 && !IsSpace(Collapse(t)[0]))
  {
  }

  /** Prefixing the same word character to two strings with the same words
      that both do or both do not start with a word keeps their words equal. */
  lemma WordsConsSame(x: char, t: string, c: string)
    requires !IsSpace(x) && Words(c) == Words(t)
    requires (|t| > 0 && !IsSpace(t[0])) <==> (|c| > 0 && !IsSpace(c[0]))
    ensures Words([x] + c) == Words([x] + t)
  {
    WordsCons(x, c);
    WordsCons(x, t);
  }

  lemma {:induction false} DropLeadingKeepsWords(s: string)
    ensures Words(DropLeading(s)) == Words(s)
    decreases |s|
  {
    if |s| > 0 && IsSpace(s[0]) {
      DropLeadingKeepsWords(s[1..]);
    }
  }

  /** A trailing whitespace character adds no word. */
  lemma {:induction false} WordsSnocSpace(s: string, c: char)
    requires IsSpace(c)
    ensures Words(s + [c]) == Words(s)
    decreases |s|
  {
    var t := s + [c];
    if |s| == 0 {
      assert t[1..] == [];
    } else if IsSpace(s[0]) {
      assert t[1..] == s[1..] + [c];
      WordsSnocSpace(s[1..], c);
    } else {
      var n := WordLength(s);
      WordLengthSnoc(s, c);
      assert t[..n] == s[..n];
      assert t[n..] == s[n..] + [c];
      WordsSnocSpace(s[n..], c);
    }
  }

  lemma {:induction false} WordLengthSnoc(s: string, c: char)
    requires IsSpace(c)
    ensures WordLength(s + [c]) == WordLength(s)
    decreases |s|
  {
    if |s| > 0 && !IsSpace(s[0]) {
      assert (s + [c])[1..] == s[1..] + [c];
      WordLengthSnoc(s[1..], c);
    }
  }

  lemma {:induction false} DropTrailingKeepsWords(s: string)
    ensures Words(DropTrailing(s)) == Words(s)
    decreases |s|
  {
    if |s| > 0 && IsSpace(s[|s| - 1]) {
      var p := s[..|s| - 1];
      DropTrailingKeepsWords(p);
      assert p + [s[|s| - 1]] == s;
      WordsSnocSpace(p, s[|s| - 1]);
    }
  }

  /** Trimming does not change the words. */
  lemma StripKeepsWords(s: string)
    ensures Words(Strip(s)) == Words(s)
  {
    DropLeadingKeepsWords(s);
    DropTrailingKeepsWords(DropLeading(s));
  }

  /** `clean_text` keeps exactly the words of the scrubbed, lowered input. */
  lemma CleanTextWords(text: string)
    ensures Words(CleanText(text)) == Words(Scrub(Lower(text)))
  {
    if |text| > 0 {
      var x := Scrub(Lower(text));
      CollapseKeepsWords(x);
      StripKeepsWords(Collapse(x));
    }
  }

  /** A clean text is the single-space join of its words. */
  lemma {:induction false} JoinWordsOfClean(t: string)
    requires IsClean(t)
    ensures Join(Words(t)) == t
    decreases |t|
  {
    if |t| > 0 {
      var n := WordLength(t);
      assert IsWord(t[..n]);
      if n == |t| {
        JoinOneWord(t);
      } else {
        var rest := t[n + 1..];
        CleanSplit(t, n);
        JoinWordsOfClean(rest);
        JoinStep(t[..n], rest);
      }
    }
  }

  lemma JoinOneWord(w: string)
    requires IsWord(w)
    ensures Join(Words(w)) == w
  {
    assert w + "" == w;
    WordsOfWordThen(w, "");
  }

  lemma JoinStep(w: string, rest: string)
    requires IsWord(w) && |rest| > 0
    requires Join(Words(rest)) == rest
    ensures Join(Words(w + (" " + rest))) == w + (" " + rest)
  {
    WordsOfWordThen(w, " " + rest);
    WordsSpaceCons(rest);
    var ws := [w] + Words(rest);
    assert Words(rest) != [];
    assert ws[1..] == Words(rest);
    assert Join(ws) == w + " " + rest;
  }

  /** Cutting a clean text after its first word and the following space
      leaves a non-empty clean text. */
  lemma CleanSplit(t: string, n: nat)
    requires IsClean(t) && n == WordLength(t) && n < |t|
    ensures t[n] == ' '
    ensures |t[n + 1..]| > 0 && IsClean(t[n + 1..])
    ensures t == t[..n] + (" " + t[n + 1..])
  {
    var rest := t[n + 1..];
    assert forall i :: 0 <= i < |rest| ==> rest[i] == t[n + 1 + i];
  }

  /** Splitting the join of space-free, non-empty words gives the words back. */
  lemma {:induction false} WordsOfJoin(ws: seq<string>)
    requires forall k :: 0 <= k < |ws| ==> IsWord(ws[k])
    ensures Words(Join(ws)) == ws
    decreases |ws|
  {
    if |ws| == 1 {
      WordsOfWordThen(ws[0], "");
      assert ws[0] + "" == ws[0];
    } else if |ws| > 1 {
      WordsOfJoin(ws[1..]);
      WordsStep(ws[0], Join(ws[1..]));
      assert ws == [ws[0]] + ws[1..];
    }
  }

  /** A word, a space, then more text: the word comes first. */
  lemma WordsStep(w: string, s: string)
    requires IsWord(w)
    ensures Words(w + " " + s) == [w] + Words(s)
  {
    var u := " " + s;
    assert w + " " + s == w + u;
    assert Words(w + u) == [w] + Words(u) by {
      assert u[0] == ' ';
      WordsOfWordThen(w, u);
    }
    assert Words(u) == Words(s) by {
      WordsSpaceCons(s);
    }
  }

  /** A leading space adds no word. */
  lemma WordsSpaceCons(s: string)
    ensures Words(" " + s) == Words(s)
  {
    assert (" " + s)[1..] == s;
  }

  /** A word followed by nothing or by whitespace is the first word. */
  lemma WordsOfWordThen(w: string, s: string)
    requires IsWord(w)
    requires |s| == 0 || IsSpace(s[0])
    ensures Words(w + s) == [w] + Words(s)
  {
    var t := w + s;
    WordLengthOfWord(w, s);
    assert t[..|w|] == w;
    assert t[|w|..] == s;
  }

  lemma {:induction false} WordLengthOfWord(w: string, s: string)
    requires forall i :: 0 <= i < |w| ==> !IsSpace(w[i])
    requires |s| == 0 || IsSpace(s[0])
    ensures WordLength(w + s) == |w|
    decreases |w|
  {
    if |w| > 0 {
      assert (w + s)[1..] == w[1..] + s;
      WordLengthOfWord(w[1..], s);
    }
  }

  /** `clean_text` equals `' '.join(t.split())` of the scrubbed, lowered
      input: the classic equivalent of collapse-then-trim. */
  lemma CleanTextIsJoinOfWords(text: string)
    ensures CleanText(text) == Join(Words(Scrub(Lower(text))))
  {
    CleanTextWords(text);
    JoinWordsOfClean(CleanText(text));
  }

  /** Cleaning twice is cleaning once. */
  lemma CleanTextIdempotent(text: string)
    ensures CleanText(CleanText(text)) == CleanText(text)
  {
    var c := CleanText(text);
    CleanIsFixpoint(c);
    CleanTextIsJoinOfWords(c);
    JoinWordsOfClean(c);
  }

  /** Lowering and scrubbing leave a clean text unchanged. */
  lemma CleanIsFixpoint(c: string)
    requires IsClean(c)
    ensures Scrub(Lower(c)) == c
  {
    LowerOfLowerCase(c);
  }

  /** A string has no words exactly when it is all whitespace. */
  lemma {:induction false} NoWordsIffBlank(s: string)
    ensures Words(s) == [] <==> forall i :: 0 <= i < |s| ==> IsSpace(s[i])
    decreases |s|
  {
    if |s| > 0 {
      NoWordsIffBlank(s[1..]);
      assert forall i :: 1 <= i < |s| ==> s[i] == s[1..][i - 1];
    }
  }

  /** The cleaned text is empty exactly when the input has no ASCII letter or digit. */
  lemma CleanTextEmptyIff(text: string)
    ensures CleanText(text) == "" <==> forall i :: 0 <= i < |text| ==> !IsLowerAlnum(LowerChar(text[i]))
  {
    var x := Scrub(Lower(text));
    CleanTextIsJoinOfWords(text);
    NoWordsIffBlank(x);
    ScrubSpaces(text);
    var ws := Words(x);
    assert |Join(ws)| == 0 <==> |ws| == 0;
  }

  lemma ScrubSpaces(text: string)
    ensures forall i :: 0 <= i < |text| ==> (IsSpace(Scrub(Lower(text))[i]) <==> !IsLowerAlnum(LowerChar(text[i])))
  {
  }

  /** Every word of a cleaned text consists of `[a-z0-9]` only. */
  lemma CleanWordsAlnum(t: string)
    requires IsClean(t)
    ensures forall k :: 0 <= k < |Words(t)| ==> forall i :: 0 <= i < |Words(t)[k]| ==> IsLowerAlnum(Words(t)[k][i])
  {
    WordsChars(t);
  }

  lemma {:induction false} WordsChars(s: string)
    ensures forall k :: 0 <= k < |Words(s)| ==> forall i :: 0 <= i < |Words(s)[k]| ==> Words(s)[k][i] in s
    decreases |s|
  {
    if |s| > 0 {
      if IsSpace(s[0]) {
        WordsChars(s[1..]);
        assert forall c :: c in s[1..] ==> c in s;
      } else {
        var n := WordLength(s);
        WordsChars(s[n..]);
        assert forall c :: c in s[n..] ==> c in s;
        assert forall c :: c in s[..n] ==> c in s;
      }
    }
  }
}
