/** `extract_symptoms` (nlp.py:5-16): the fixed keywords that occur anywhere
    in the lower-cased input, in list order. */
module Keywords {
  import opened Seqs
  import opened Text

  /** The keyword list of nlp.py:10-13, in its order. */
  const SymptomKeywords: seq<string> := [
    "fever", "cough", "cold", "headache", "fatigue",
    "sore throat", "nausea", "vomiting", "pain", "diarrhea"]

  /** The keywords found in the input, in list order. */
  function ExtractSymptoms(userInput: string): (r: seq<string>)
    ensures IsSubseq(r, SymptomKeywords)
    ensures forall k :: k in r ==> IsSubstring(k, Lower(userInput))
  {
    var f := k => IsSubstring(k, Lower(userInput));
    FilterIsSubseq(SymptomKeywords, f);
    FilterMembers(SymptomKeywords, f);
    Filter(SymptomKeywords, f)
  }

  lemma KeywordsDistinct()
    ensures NoDup(SymptomKeywords)
  {
  }

  /** The result keeps the list's order, so it has no repeats, and it holds
      exactly the keywords that occur in the lower-cased input: every one it
      returns occurs, and every one that occurs is returned, also inside a
      longer word. */
  lemma ExtractSymptomsSpec(userInput: string)
    ensures IsSubseq(ExtractSymptoms(userInput), SymptomKeywords)
    ensures NoDup(ExtractSymptoms(userInput))
    ensures forall k :: k in ExtractSymptoms(userInput) <==>
      k in SymptomKeywords && IsSubstring(k, Lower(userInput))
  {
    var f := k => IsSubstring(k, Lower(userInput));
    FilterIsSubseq(SymptomKeywords, f);
    FilterMembers(SymptomKeywords, f);
    KeywordsDistinct();
    SubseqNoDup(ExtractSymptoms(userInput), SymptomKeywords);
  }

  /** Inputs that differ only in letter case give the same keywords, and
      lower-casing the input first changes nothing. */
  lemma ExtractSymptomsIgnoresCase(a: string, b: string)
    requires Lower(a) == Lower(b)
    ensures ExtractSymptoms(a) == ExtractSymptoms(b)
    ensures ExtractSymptoms(Lower(a)) == ExtractSymptoms(a)
  {
    LowerIdempotent(a);
  }

  /** "pain" is found inside a longer word such as "painful". */
  lemma PainInsideWord(before: string, after: string)
    ensures "pain" in ExtractSymptoms(before + "pain" + after)
  {
    var s := before + "pain" + after;
    var l := Lower(s);
    var p := "pain";
    forall i | 0 <= i < |p| ensures l[|before| + i] == p[i] {
      assert s[|before| + i] == p[i];
    }
    assert OccursAt(p, l, |before|);
    SubstringIffOccurs(p, l);
    assert SymptomKeywords[8] == p;
    ExtractSymptomsSpec(s);
  }
}
