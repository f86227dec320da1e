/** The disease records the matcher scores, and the per-row normalisation the
    loader applies when it builds them (knowledge_base.py:30-79): symptom
    splitting, the severity default and the viral-fever description fallback.
    Reading the three CSV tables and joining them is not modelled; a record is
    built from one row plus the description and precautions looked up for it. */
module Catalog {
  import opened Optional
  import opened Seqs
  import opened Text

  datatype DiseaseRecord = DiseaseRecord(
    disease: string,
    symptoms: seq<string>,
    minDuration: int,
    maxDuration: int,
    severity: string,
    description: string,
    precautions: seq<string>)

  /** One row of the symptom-to-disease table, its duration cells already read
      as integers. */
  datatype Row = Row(disease: string, symptoms: string, minDuration: int, maxDuration: int, severity: string)

  predicate IsSeparator(c: char) {
    c == ';' || c == ','
  }

  predicate NoSeparator(s: string) {
    forall i :: 0 <= i < |s| ==> !IsSeparator(s[i])
  }

  /** `re.split(r'[;,]', s)`: the pieces between separators, empty ones included. */
  function Pieces(s: string): (r: seq<string>)
    ensures |r| >= 1
    ensures forall k :: 0 <= k < |r| ==> NoSeparator(r[k])
    decreases |s|
  {
    if |s| == 0 then [""]
    else
      var rest := Pieces(s[1..]);
      if IsSeparator(s[0]) then [""] + rest
      else [[s[0]] + rest[0]] + rest[1..]
  }

  /** A symptom phrase as the loader stores it: non-empty, separator-free,
      trimmed and without upper-case letters. */
  predicate IsSymptomPhrase(s: string) {
    && |s| > 0
    && NoSeparator(s)
    && !IsSpace(s[0]) && !IsSpace(s[|s| - 1])
    && Lower(s) == s
  }

  /** `p.strip().lower()`. */
  function NormalizePiece(p: string): string {
    Lower(Strip(p))
  }

  /** A normalised separator-free piece, when not blank, is a symptom phrase. */
  lemma PieceShape(p: string)
    requires NoSeparator(p) && |NormalizePiece(p)| > 0
    ensures IsSymptomPhrase(NormalizePiece(p))
  {
    StripNoSeparator(p);
    PhraseOfTrimmed(Strip(p));
  }

  lemma StripNoSeparator(p: string)
    requires NoSeparator(p)
    ensures NoSeparator(Strip(p))
  {
    StripIsSlice(p);
    var a :| OccursAt(Strip(p), p, a);
    SliceNoSeparator(Strip(p), p, a);
  }

  /** A trimmed separator-free piece lower-cases to a symptom phrase. */
  lemma PhraseOfTrimmed(t: string)
    requires |t| > 0 && NoSeparator(t) && !IsSpace(t[0]) && !IsSpace(t[|t| - 1])
    ensures IsSymptomPhrase(Lower(t))
  {
    LowerNoSeparator(t);
    LowerIdempotent(t);
  }

  lemma SliceNoSeparator(t: string, p: string, a: int)
    requires OccursAt(t, p, a) && NoSeparator(p)
    ensures NoSeparator(t)
  {
    assert forall i :: 0 <= i < |t| ==> t[i] == p[a + i];
  }

  lemma LowerNoSeparator(t: string)
    requires NoSeparator(t)
    ensures NoSeparator(Lower(t))
  {
  }

  /** A stored phrase normalises to itself. */
  lemma NormalizePhrase(p: string)
    requires IsSymptomPhrase(p)
    ensures NormalizePiece(p) == p
  {
    StripOfTrimmed(p);
  }

  /** `[p.strip().lower() for p in pieces if p.strip()]`. */
  function NormalizePieces(ps: seq<string>): (r: seq<string>)
    ensures |r| <= |ps|
    decreases |ps|
  {
    if |ps| == 0 then []
    else
      var p := NormalizePiece(ps[0]);
      var rest := NormalizePieces(ps[1..]);
      if |p| == 0 then rest else [p] + rest
  }

  lemma {:induction false} NormalizedArePhrases(ps: seq<string>)
    requires forall k :: 0 <= k < |ps| ==> NoSeparator(ps[k])
    ensures forall k :: 0 <= k < |NormalizePieces(ps)| ==> IsSymptomPhrase(NormalizePieces(ps)[k])
    decreases |ps|
  {
    if |ps| > 0 {
      NormalizedArePhrases(ps[1..]);
      var p := NormalizePiece(ps[0]);
      var rest := NormalizePieces(ps[1..]);
      if |p| > 0 {
        assert NoSeparator(ps[0]);
        PieceShape(ps[0]);
        ConsPhrases(p, rest);
      }
    }
  }

  lemma ConsPhrases(p: string, rest: seq<string>)
    requires IsSymptomPhrase(p)
    requires forall k :: 0 <= k < |rest| ==> IsSymptomPhrase(rest[k])
    ensures forall k :: 0 <= k < |[p] + rest| ==> IsSymptomPhrase(([p] + rest)[k])
  {
  }

  /** Stored phrases normalise to themselves. */
  lemma NormalizePhrases(xs: seq<string>)
    requires forall k :: 0 <= k < |xs| ==> IsSymptomPhrase(xs[k])
    ensures NormalizePieces(xs) == xs
  {
    AllPhrasesOf(xs);
    PhrasesAreFixed(xs);
  }

  /** Every element is a symptom phrase, stated element by element from the front. */
  predicate AllPhrases(xs: seq<string>)
    decreases |xs|
  {
    |xs| == 0 || (IsSymptomPhrase(xs[0]) && AllPhrases(xs[1..]))
  }

  lemma {:induction false} AllPhrasesOf(xs: seq<string>)
    requires forall k :: 0 <= k < |xs| ==> IsSymptomPhrase(xs[k])
    ensures AllPhrases(xs)
    decreases |xs|
  {
    if |xs| > 0 {
      assert IsSymptomPhrase(xs[0]);
      AllPhrasesOf(xs[1..]);
    }
  }

  lemma {:induction false} PhrasesAreFixed(xs: seq<string>)
    requires AllPhrases(xs)
    ensures NormalizePieces(xs) == xs
    decreases |xs|
  {
    if |xs| > 0 {
      var x, rest := xs[0], xs[1..];
      PhrasesAreFixed(rest);
      NormalizePhrase(x);
      assert xs == [x] + rest;
    }
  }

  /** The symptoms cell split on `;` or `,` (knowledge_base.py:32-35). */
  function SplitSymptoms(raw: string): (r: seq<string>)
    ensures forall k :: 0 <= k < |r| ==> IsSymptomPhrase(r[k])
  {
    var ps := Pieces(Strip(raw));
    NormalizedArePhrases(ps);
    NormalizePieces(ps)
  }

  /** What one piece contributes to the split: its stripped, lower-cased text,
      or nothing when it is blank. */
  function PieceOrNone(p: string): Option<string> {
    if |Strip(p)| > 0 then Some(Lower(Strip(p))) else None
  }

  /** The split cell is the stripped, lower-cased pieces of the raw cell with
      the blank ones dropped: stripping the whole cell first changes nothing,
      since whitespace at either end belongs to the first or last piece. */
  lemma SplitSymptomsSpec(raw: string)
    ensures SplitSymptoms(raw) == FilterMap(Pieces(raw), PieceOrNone)
  {
    NormalizePiecesIsFilterMap(Pieces(Strip(raw)));
    SplitDropTrailing(DropLeading(raw));
    SplitDropLeading(raw);
  }

  lemma {:induction false} NormalizePiecesIsFilterMap(ps: seq<string>)
    ensures NormalizePieces(ps) == FilterMap(ps, PieceOrNone)
    decreases |ps|
  {
    if |ps| > 0 {
      NormalizePiecesIsFilterMap(ps[1..]);
      assert |NormalizePiece(ps[0])| == |Strip(ps[0])|;
    }
  }

  /** Leading whitespace of the cell does not change the split. */
  lemma {:induction false} SplitDropLeading(s: string)
    ensures FilterMap(Pieces(DropLeading(s)), PieceOrNone) == FilterMap(Pieces(s), PieceOrNone)
    decreases |s|
  {
    if |s| > 0 && IsSpace(s[0]) {
      SplitDropLeading(s[1..]);
      SplitSpaceCons(s);
    }
  }

  /** A whitespace character in front of the cell does not change the split. */
  lemma SplitSpaceCons(s: string)
    requires |s| > 0 && IsSpace(s[0])
    ensures FilterMap(Pieces(s), PieceOrNone) == FilterMap(Pieces(s[1..]), PieceOrNone)
  {
    var q := Pieces(s[1..]);
    PiecesUnfoldWord(s);
    StripConsSpace(s[0], q[0]);
    FilterMapSwapFirst(q, [s[0]] + q[0], Pieces(s), PieceOrNone);
  }

  lemma PiecesUnfoldWord(s: string)
    requires |s| > 0 && !IsSeparator(s[0])
    ensures Pieces(s) == [[s[0]] + Pieces(s[1..])[0]] + Pieces(s[1..])[1..]
  {
  }

  /** Trailing whitespace of the cell does not change the split. */
  lemma {:induction false} SplitDropTrailing(s: string)
    ensures FilterMap(Pieces(DropTrailing(s)), PieceOrNone) == FilterMap(Pieces(s), PieceOrNone)
    decreases |s|
  {
    if |s| > 0 && IsSpace(s[|s| - 1]) {
      var x := s[..|s| - 1];
      SplitDropTrailing(x);
      assert s == x + [s[|s| - 1]];
      SplitSpaceSnoc(x, s[|s| - 1]);
    }
  }

  /** A whitespace character after the cell does not change the split. */
  lemma SplitSpaceSnoc(s: string, c: char)
    requires IsSpace(c)
    ensures FilterMap(Pieces(s + [c]), PieceOrNone) == FilterMap(Pieces(s), PieceOrNone)
  {
    var p := Pieces(s);
    PiecesSnoc(s, c);
    StripSnocSpace(p[|p| - 1], c);
    FilterMapSwapLast(p, p[|p| - 1] + [c], Pieces(s + [c]), PieceOrNone);
  }

  /** A non-separator character at the end extends the last piece. */
  lemma {:induction false} PiecesSnoc(s: string, c: char)
    requires !IsSeparator(c)
    ensures var p := Pieces(s);
      Pieces(s + [c]) == p[..|p| - 1] + [p[|p| - 1] + [c]]
    decreases |s|
  {
    if |s| == 0 {
      var e: string := [];
      assert s + [c] == [c] + e;
      assert Pieces(e) == [e];
      PiecesCons(c, e);
      assert [c] + e == [c];
      assert [e][1..] == [];
    } else {
      var q := Pieces(s[1..]);
      var r := Pieces(s[1..] + [c]);
      PiecesSnoc(s[1..], c);
      assert (s + [c])[1..] == s[1..] + [c];
      if IsSeparator(s[0]) {
        PiecesSnocSeparator(s[0], q, r, c);
      } else {
        PiecesSnocWord(s[0], q, r, c);
      }
    }
  }

  lemma PiecesSnocSeparator(x: char, q: seq<string>, r: seq<string>, c: char)
    requires |q| >= 1 && r == q[..|q| - 1] + [q[|q| - 1] + [c]]
    ensures var p := [""] + q;
      [""] + r == p[..|p| - 1] + [p[|p| - 1] + [c]]
  {
    var p := [""] + q;
    assert p[..|p| - 1] == [""] + q[..|q| - 1];
  }

  lemma PiecesSnocWord(x: char, q: seq<string>, r: seq<string>, c: char)
    requires |q| >= 1 && r == q[..|q| - 1] + [q[|q| - 1] + [c]]
    ensures var p := [[x] + q[0]] + q[1..];
      [[x] + r[0]] + r[1..] == p[..|p| - 1] + [p[|p| - 1] + [c]]
  {
    var p := [[x] + q[0]] + q[1..];
    var m := |q|;
    if m == 1 {
      assert r == [q[0] + [c]];
      assert [x] + (q[0] + [c]) == ([x] + q[0]) + [c];
    } else {
      assert r[0] == q[0];
      assert r[1..] == q[1..m - 1] + [q[m - 1] + [c]];
      assert p[..m - 1] == [[x] + q[0]] + q[1..m - 1];
    }
  }

  /** A symptoms cell written from phrases, with `seps[k]` between phrase `k`
      and the next one. */
  function JoinCell(xs: seq<string>, seps: string): string
    requires |xs| == 0 || |seps| == |xs| - 1
    decreases |xs|
  {
    if |xs| == 0 then ""
    else if |xs| == 1 then xs[0]
    else xs[0] + [seps[0]] + JoinCell(xs[1..], seps[1..])
  }

  /** Every character of `seps` is a separator. */
  predicate AllSeparators(seps: string) {
    forall i :: 0 <= i < |seps| ==> IsSeparator(seps[i])
  }

  /** The separators of a cell, in order. */
  function SeparatorsOf(s: string): string {
    Filter(s, IsSeparator)
  }

  lemma JoinCellExtendHead(c: char, xs: seq<string>, seps: string)
    requires |xs| > 0 && |seps| == |xs| - 1
    ensures JoinCell([[c] + xs[0]] + xs[1..], seps) == [c] + JoinCell(xs, seps)
  {
    var ys := [[c] + xs[0]] + xs[1..];
    if |xs| > 1 {
      assert ys[1..] == xs[1..];
    }
  }

  /** The pieces are the cell's maximal separator-free runs: there is one
      more piece than separators, and putting the cell's separators back
      between the pieces gives the cell. */
  lemma {:induction false} PiecesRejoin(s: string)
    ensures |SeparatorsOf(s)| + 1 == |Pieces(s)|
    ensures JoinCell(Pieces(s), SeparatorsOf(s)) == s
    decreases |s|
  {
    if |s| > 0 {
      PiecesRejoin(s[1..]);
      var rest, seps := Pieces(s[1..]), SeparatorsOf(s[1..]);
      assert s == [s[0]] + s[1..];
      if IsSeparator(s[0]) {
        assert SeparatorsOf(s) == [s[0]] + seps;
        var ps := [""] + rest;
        assert Pieces(s) == ps && ps[1..] == rest;
        assert JoinCell(ps, [s[0]] + seps) == "" + [s[0]] + JoinCell(rest, seps);
      } else {
        assert SeparatorsOf(s) == seps;
        JoinCellExtendHead(s[0], rest, seps);
      }
    }
  }

  /** The joined cell starts with the first phrase's first character and ends
      with the last phrase's last character. */
  lemma {:induction false} JoinCellEnds(xs: seq<string>, seps: string)
    requires |xs| > 0 && |seps| == |xs| - 1 && forall k :: 0 <= k < |xs| ==> |xs[k]| > 0
    ensures |JoinCell(xs, seps)| > 0
    ensures JoinCell(xs, seps)[0] == xs[0][0]
    ensures JoinCell(xs, seps)[|JoinCell(xs, seps)| - 1] == xs[|xs| - 1][|xs[|xs| - 1]| - 1]
    decreases |xs|
  {
    if |xs| > 1 {
      JoinCellEnds(xs[1..], seps[1..]);
      var j := JoinCell(xs[1..], seps[1..]);
      assert JoinCell(xs, seps) == xs[0] + [seps[0]] + j;
      assert xs[1..][|xs[1..]| - 1] == xs[|xs| - 1];
    }
  }

  /** A join of trimmed phrases has no whitespace at either end. */
  lemma JoinCellEndsTrimmed(xs: seq<string>, seps: string)
    requires |xs| > 0 && |seps| == |xs| - 1 && forall k :: 0 <= k < |xs| ==> IsSymptomPhrase(xs[k])
    ensures var j := JoinCell(xs, seps);
      |j| > 0 && !IsSpace(j[0]) && !IsSpace(j[|j| - 1])
  {
    assert IsSymptomPhrase(xs[0]) && IsSymptomPhrase(xs[|xs| - 1]);
    JoinCellEnds(xs, seps);
  }

  /** A join of trimmed phrases is trimmed. */
  lemma JoinCellTrimmed(xs: seq<string>, seps: string)
    requires |xs| > 0 && |seps| == |xs| - 1 && forall k :: 0 <= k < |xs| ==> IsSymptomPhrase(xs[k])
    ensures Strip(JoinCell(xs, seps)) == JoinCell(xs, seps)
  {
    JoinCellEndsTrimmed(xs, seps);
    StripOfTrimmed(JoinCell(xs, seps));
  }

  lemma PiecesCons(c: char, s: string)
    requires !IsSeparator(c)
    ensures Pieces([c] + s) == [[c] + Pieces(s)[0]] + Pieces(s)[1..]
  {
    assert ([c] + s)[1..] == s;
  }

  /** Separator-free text in front of `s` extends the first piece of `s`. */
  lemma {:induction false} PiecesPrefix(x: string, s: string)
    requires NoSeparator(x)
    ensures Pieces(x + s) == [x + Pieces(s)[0]] + Pieces(s)[1..]
    decreases |x|
  {
    if |x| == 0 {
      assert x + s == s;
      var ps := Pieces(s);
      assert x + ps[0] == ps[0];
      assert [ps[0]] + ps[1..] == ps;
    } else {
      PiecesPrefix(x[1..], s);
      assert x + s == [x[0]] + (x[1..] + s);
      PiecesCons(x[0], x[1..] + s);
      assert [x[0]] + (x[1..] + Pieces(s)[0]) == x + Pieces(s)[0];
    }
  }

  /** Splitting separator-free pieces joined with separators, `;` or `,` in
      any mix, gives the pieces back. */
  lemma {:induction false} PiecesOfJoin(xs: seq<string>, seps: string)
    requires |xs| > 0 && |seps| == |xs| - 1 && AllSeparators(seps)
    requires forall k :: 0 <= k < |xs| ==> NoSeparator(xs[k])
    ensures Pieces(JoinCell(xs, seps)) == xs
    decreases |xs|
  {
    if |xs| == 1 {
      PiecesPrefix(xs[0], "");
      assert xs[0] + "" == xs[0];
    } else {
      var j := JoinCell(xs[1..], seps[1..]);
      PiecesOfJoin(xs[1..], seps[1..]);
      var sj := [seps[0]] + j;
      assert xs[0] + [seps[0]] + j == xs[0] + sj;
      PiecesPrefix(xs[0], sj);
      assert sj[1..] == j;
      assert Pieces(sj) == [""] + xs[1..];
      assert xs[0] + "" == xs[0];
      assert xs == [xs[0]] + xs[1..];
    }
  }

  /** Writing stored phrases into a cell, with `;` or `,` between them, and
      splitting the cell again gives the phrases back. */
  lemma SplitSymptomsRoundTrip(xs: seq<string>, seps: string)
    requires forall k :: 0 <= k < |xs| ==> IsSymptomPhrase(xs[k])
    requires (|xs| == 0 && |seps| == 0) || |seps| == |xs| - 1
    requires AllSeparators(seps)
    ensures SplitSymptoms(JoinCell(xs, seps)) == xs
  {
    if |xs| == 0 {
      SplitBlank();
    } else {
      JoinCellTrimmed(xs, seps);
      PiecesOfJoin(xs, seps);
      NormalizePhrases(xs);
    }
  }

  /** An empty cell has no symptoms. */
  lemma SplitBlank()
    ensures SplitSymptoms("") == []
  {
    var e: string := [];
    assert DropLeading(e) == e;
    assert DropTrailing(e) == e;
    assert Pieces(e) == [e];
    assert Strip(e) == e;
    assert NormalizePieces([e]) == [];
  }

  // ---------------------------------------------------------------- severity

  /** `str.capitalize()`: first character upper-case, the rest lower-case. */
  function Capitalize(s: string): (r: string)
    ensures |r| == |s|
    ensures |s| > 0 ==> r[0] == UpperChar(s[0]) && !('a' <= r[0] <= 'z')
    ensures forall i :: 1 <= i < |r| ==> r[i] == LowerChar(s[i]) && !IsUpperAscii(r[i])
  {
    if |s| == 0 then "" else [UpperChar(s[0])] + Lower(s[1..])
  }

  const UnknownSeverity: string := "Unknown"

  /** The severity label of a row (knowledge_base.py:46): the trimmed,
      capitalised cell, or "Unknown" when the cell is blank. */
  function NormalizeSeverity(raw: string): (r: string)
    ensures |r| > 0
    ensures |Strip(raw)| == 0 ==> r == UnknownSeverity
    ensures |Strip(raw)| > 0 ==> Lower(r) == Lower(Strip(raw)) && r[0] == UpperChar(Strip(raw)[0])
    ensures |Strip(raw)| > 0 ==> forall i :: 1 <= i < |r| ==> !IsUpperAscii(r[i])
  {
    var s := Strip(raw);
    var c := Capitalize(s);
    if |c| == 0 then UnknownSeverity
    else
      LowerOfCapitalize(s);
      c
  }

  lemma LowerOfCapitalize(s: string)
    requires |s| > 0
    ensures Lower(Capitalize(s)) == Lower(s)
    ensures Capitalize(s)[0] == UpperChar(s[0])
  {
    var c := Capitalize(s);
    forall i | 0 <= i < |s| ensures Lower(c)[i] == Lower(s)[i] {
      if i > 0 {
        assert c[i] == Lower(s[1..])[i - 1] == LowerChar(s[i]);
      }
    }
  }

  /** Normalising a label that is already normalised changes nothing. */
  lemma SeverityIdempotent(raw: string)
    ensures NormalizeSeverity(NormalizeSeverity(raw)) == NormalizeSeverity(raw)
  {
    var s := Strip(raw);
    if |s| == 0 {
      UnknownIsNormal();
    } else {
      CapitalizeTrimmed(s);
      CapitalizeIdempotent(s);
    }
  }

  lemma UnknownIsNormal()
    ensures NormalizeSeverity(UnknownSeverity) == UnknownSeverity
  {
    var u := UnknownSeverity;
    assert u[0] == 'U' && u[|u| - 1] == 'n';
    assert forall i :: 1 <= i < |u| ==> 'a' <= u[i] <= 'z';
    NormalLabelIsFixed(u);
  }

  /** A label that is trimmed, starts with no lower-case letter and continues
      with no upper-case one is left as it is. */
  lemma NormalLabelIsFixed(s: string)
    requires |s| > 0 && !IsSpace(s[0]) && !IsSpace(s[|s| - 1])
    requires !('a' <= s[0] <= 'z')
    requires forall i :: 1 <= i < |s| ==> !IsUpperAscii(s[i])
    ensures NormalizeSeverity(s) == s
  {
    StripOfTrimmed(s);
    LowerOfLowerCase(s[1..]);
    assert [s[0]] + s[1..] == s;
  }

  lemma CapitalizeTrimmed(s: string)
    requires |s| > 0 && !IsSpace(s[0]) && !IsSpace(s[|s| - 1])
    ensures Strip(Capitalize(s)) == Capitalize(s)
  {
    var c := Capitalize(s);
    if |s| > 1 {
      assert c[|c| - 1] == Lower(s[1..])[|s| - 2] == LowerChar(s[|s| - 1]);
    }
    StripOfTrimmed(c);
  }

  lemma CapitalizeIdempotent(s: string)
    requires |s| > 0
    ensures Capitalize(Capitalize(s)) == Capitalize(s)
  {
    var c := Capitalize(s);
    assert c[1..] == Lower(s[1..]);
    LowerIdempotent(s[1..]);
  }

  // ---------------------------------------------------------------- description

  /** The viral-fever rule shared by the loader's description fallback
      (knowledge_base.py:66) and the scorer's boost (knowledge_base.py:221). */
  predicate QualifiesViral(name: string) {
    var n := Lower(name);
    IsSubstring("viral", n) || n == "viral fever" || n == "fever"
  }

  /** "viral fever" in the name list is already covered by the "viral" test. */
  lemma QualifiesViralIff(name: string)
    ensures QualifiesViral(name) <==> IsSubstring("viral", Lower(name)) || Lower(name) == "fever"
  {
    if Lower(name) == "viral fever" {
      assert IsPrefix("viral", "viral fever");
    }
  }

  const ViralFeverDescription: string :=
    "A viral fever is usually caused by common viruses and typically "
    + "causes short-term fever, body ache and fatigue. Most viral fevers "
    + "resolve within a few days with rest and fluids."

  /** The description stored for a disease: the looked-up one, or the built-in
      viral-fever text when none was found and the name qualifies. */
  function DescriptionWithFallback(disease: string, found: string): (r: string)
    ensures |found| > 0 ==> r == found
    ensures |found| == 0 ==> (|r| > 0 <==> QualifiesViral(disease))
    ensures |found| == 0 && QualifiesViral(disease) ==> r == ViralFeverDescription
  {
    if |found| == 0 && QualifiesViral(disease) then ViralFeverDescription else found
  }

  /** What the loader guarantees of every record it builds. */
  predicate IsNormalizedRecord(r: DiseaseRecord) {
    && (forall k :: 0 <= k < |r.symptoms| ==> IsSymptomPhrase(r.symptoms[k]))
    && |r.severity| > 0
    && (|r.disease| > 0 ==> !IsSpace(r.disease[0]) && !IsSpace(r.disease[|r.disease| - 1]))
    && (QualifiesViral(r.disease) ==> |r.description| > 0)
  }

  /** One record from a row, the description found for its disease (already
      trimmed, possibly empty) and its precautions (knowledge_base.py:30-79). */
  function BuildRecord(row: Row, found: string, precautions: seq<string>): (r: DiseaseRecord)
    ensures IsNormalizedRecord(r)
    ensures r.disease == Strip(row.disease)
    ensures r.minDuration == row.minDuration && r.maxDuration == row.maxDuration
    ensures r.precautions == precautions
    ensures r.symptoms == SplitSymptoms(row.symptoms)
    ensures r.severity == NormalizeSeverity(row.severity)
    ensures r.description == DescriptionWithFallback(r.disease, found)
  {
    var name := Strip(row.disease);
    DiseaseRecord(
      name,
      SplitSymptoms(row.symptoms),
      row.minDuration,
      row.maxDuration,
      NormalizeSeverity(row.severity),
      DescriptionWithFallback(name, found),
      precautions)
  }
}
