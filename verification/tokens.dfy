/** The tokenizer `extract_symptom_tokens` (knowledge_base.py:92-116): the
    words of the cleaned text, each trimmed of a trailing "ing" and then of a
    trailing "s", without repeats, in first-occurrence order. */
module Tokens {
  import opened Text
  import opened Seqs

  predicate EndsWith(w: string, suffix: string) {
    |suffix| <= |w| && w[|w| - |suffix|..] == suffix
  }

  /** The two suffix heuristics: drop a trailing "ing"; then drop a trailing
      "s" if the word is still longer than three characters. */
  function Stem(w: string): (r: string)
    ensures IsPrefix(r, w)
    ensures |r| < |w| <==> EndsWith(w, "ing") || (EndsWith(w, "s") && |w| > 3)
    ensures |w| - 4 <= |r|
  {
    var t := if EndsWith(w, "ing") then w[..|w| - 3] else w;
    if EndsWith(t, "s") && |t| > 3 then t[..|t| - 1] else t
  }

  /** A word ending in "ing" loses it, and the "s" test then applies to what
      is left: "coughing" gives "cough", "xxxsing" gives "xxx". */
  lemma StemOfIng(u: string)
    ensures Stem(u + "ing") == if EndsWith(u, "s") && |u| > 3 then u[..|u| - 1] else u
  {
    var w := u + "ing";
    assert EndsWith(w, "ing");
    assert w[..|w| - 3] == u;
  }

  /** A word ending in "s" (and so not in "ing") loses the "s" exactly when
      it is longer than three characters. */
  lemma StemOfS(u: string)
    ensures Stem(u + "s") == if |u| >= 3 then u else u + "s"
  {
    var w := u + "s";
    assert EndsWith(w, "s");
    assert w[|w| - 1] == 's';
    assert w[..|w| - 1] == u;
  }

  /** A word ending in neither suffix is its own stem. */
  lemma StemKeepsPlainWord(w: string)
    requires !EndsWith(w, "ing") && !EndsWith(w, "s")
    ensures Stem(w) == w
  {
  }

  function StemAll(ws: seq<string>): (r: seq<string>)
    ensures |r| == |ws|
    ensures forall i :: 0 <= i < |ws| ==> r[i] == Stem(ws[i])
  {
    seq(|ws|, i requires 0 <= i < |ws| => Stem(ws[i]))
  }

  /** The stemmed words of the input, repeats included, in input order. */
  function StemmedWords(text: string): seq<string> {
    StemAll(Words(CleanText(text)))
  }

  /** `extract_symptom_tokens`. */
  function ExtractSymptomTokens(text: string): (r: seq<string>)
    ensures NoDup(r)
    ensures forall t :: t in r <==> exists w :: w in Words(CleanText(text)) && Stem(w) == t
    ensures InFirstOccurrenceOrder(r, StemmedWords(text))
  {
    StemAllMembers(Words(CleanText(text)));
    Dedup(StemmedWords(text))
  }

  lemma StemAllMembers(ws: seq<string>)
    ensures forall t :: t in StemAll(ws) <==> exists w :: w in ws && Stem(w) == t
  {
    var stems := StemAll(ws);
    forall t | t in stems ensures exists w :: w in ws && Stem(w) == t {
      var i :| 0 <= i < |stems| && stems[i] == t;
      assert ws[i] in ws;
    }
  }

  /** No tokens exactly when the input holds no ASCII letter or digit. */
  lemma TokensEmptyIff(text: string)
    ensures ExtractSymptomTokens(text) == [] <==>
      forall i :: 0 <= i < |text| ==> !IsLowerAlnum(LowerChar(text[i]))
  {
    var c := CleanText(text);
    CleanTextEmptyIff(text);
    JoinWordsOfClean(c);
    var ws := Words(c);
    if |ws| > 0 {
      assert Stem(ws[0]) in ExtractSymptomTokens(text);
    }
  }

  /** Every token is a prefix of an input word of `[a-z0-9]` characters, at most
      four characters shorter. */
  lemma TokensComeFromWords(text: string, t: string)
    requires t in ExtractSymptomTokens(text)
    ensures forall i :: 0 <= i < |t| ==> IsLowerAlnum(t[i])
    ensures exists w :: w in Words(CleanText(text)) && IsPrefix(t, w) && |w| - 4 <= |t|
  {
    var c := CleanText(text);
    var w :| w in Words(c) && Stem(w) == t;
    CleanWordAlnum(c, w);
    PrefixKeepsAlnum(t, w);
  }

  lemma CleanWordAlnum(c: string, w: string)
    requires IsClean(c) && w in Words(c)
    ensures forall i :: 0 <= i < |w| ==> IsLowerAlnum(w[i])
  {
    var ws := Words(c);
    var k :| 0 <= k < |ws| && ws[k] == w;
    CleanWordsAlnum(c);
  }

  lemma PrefixKeepsAlnum(t: string, w: string)
    requires IsPrefix(t, w)
    requires forall i :: 0 <= i < |w| ==> IsLowerAlnum(w[i])
    ensures forall i :: 0 <= i < |t| ==> IsLowerAlnum(t[i])
  {
    assert forall i :: 0 <= i < |t| ==> t[i] == w[i];
  }
}
