/** `match_disease` (knowledge_base.py:157-309): tokens and duration from the
    user's text, candidates from the catalog, the sorted and categorised
    candidates, the emergency check and the advice line. The catalog is a
    parameter; the module-level table the source loads at import is not
    modelled. */
module Matcher {
  import opened Optional
  import opened Seqs
  import opened Text
  import opened Tokens
  import opened Duration
  import opened Catalog
  import opened Scoring
  import opened Ranking
  import opened Alerts

  /** The dictionary `match_disease` returns. */
  datatype QueryResult = QueryResult(
    primary: Option<Candidate>,
    secondary: seq<Candidate>,
    other: seq<Candidate>,
    emergency: bool,
    reasons: seq<Reason>,
    advice: seq<Advice>)

  /** The result for a query with no tokens or no candidate. */
  const NoMatch: QueryResult := QueryResult(None, [], [], false, [], [])

  /** The candidates of a query, before sorting. */
  function Candidates(catalog: seq<DiseaseRecord>, userSymptoms: string, userDuration: string): seq<Candidate> {
    ScoreCatalog(catalog, ExtractSymptomTokens(userSymptoms), ParseDurationDays(userDuration))
  }

  /** `match_disease`: the empty shape when the input has no token or no
      record matches; otherwise the arranged candidates, with the detector's
      verdict on the input and one advice line. */
  function MatchDisease(catalog: seq<DiseaseRecord>, userSymptoms: string, userDuration: string): (q: QueryResult)
    ensures |ExtractSymptomTokens(userSymptoms)| == 0 ==> q == NoMatch
    ensures q.primary.None? ==> q == NoMatch
    ensures q.primary.Some? ==>
      && q.primary.value in Candidates(catalog, userSymptoms, userDuration)
      && 1 + |q.secondary| + |q.other| == |Candidates(catalog, userSymptoms, userDuration)|
      && q.emergency == DetectEmergency(userSymptoms, ParseDurationDays(userDuration)).emergency
      && |q.advice| == 1
  {
    var tokens := ExtractSymptomTokens(userSymptoms);
    var days := ParseDurationDays(userDuration);
    if |tokens| == 0 then NoMatch
    else
      var candidates := ScoreCatalog(catalog, tokens, days);
      if |candidates| == 0 then NoMatch
      else Arrange(candidates, DetectEmergency(userSymptoms, days))
  }

  /** The tail of `match_disease` once candidates exist: sort, pick the top
      candidate, split the rest, attach the alert and the advice line. */
  function Arrange(candidates: seq<Candidate>, alert: Alert): (q: QueryResult)
    requires |candidates| > 0
    ensures q.primary.Some? && q.primary.value in candidates
    ensures 1 + |q.secondary| + |q.other| == |candidates|
    ensures q.emergency == alert.emergency && q.reasons == alert.reasons
    ensures |q.advice| == 1
  {
    var sorted := SortDesc(candidates);
    var top := sorted[0];
    var rest := sorted[1..];
    assert top in multiset(sorted);
    assert sorted == [top] + rest;
    ArrangeCounts(candidates, top, rest);
    assert |multiset{top} + multiset(Secondary(top, rest)) + multiset(Other(top, rest))| == |multiset(candidates)|;
    QueryResult(Some(top), Secondary(top, rest), Other(top, rest), alert.emergency, alert.reasons,
      [ChooseAdvice(alert.emergency, top.severity, top.durationDays)])
  }

  /** A query with a primary candidate is its candidates arranged. */
  lemma QueryIsArranged(catalog: seq<DiseaseRecord>, userSymptoms: string, userDuration: string)
    requires MatchDisease(catalog, userSymptoms, userDuration).primary.Some?
    ensures |Candidates(catalog, userSymptoms, userDuration)| > 0
    ensures MatchDisease(catalog, userSymptoms, userDuration) ==
      Arrange(Candidates(catalog, userSymptoms, userDuration),
              DetectEmergency(userSymptoms, ParseDurationDays(userDuration)))
  {
  }

  /** The primary candidate is one of the candidates and none outranks it. */
  lemma ArrangeTop(cs: seq<Candidate>, alert: Alert)
    requires |cs| > 0
    ensures var top := Arrange(cs, alert).primary.value;
      top in cs && forall c :: c in cs ==> !Outranks(c, top)
  {
    var sorted := SortDesc(cs);
    SortDescSpec(cs);
    assert sorted[0] in multiset(sorted);
    forall c | c in cs ensures !Outranks(c, sorted[0]) {
      assert c in multiset(sorted);
      var k :| 0 <= k < |sorted| && sorted[k] == c;
      assert k == 0 || !Outranks(sorted[k], sorted[0]);
    }
  }

  /** Primary, secondary and other hold every candidate exactly once;
      secondary and other keep the sorted order, so each is sorted, and a
      candidate is secondary exactly when it passes the threshold test. */
  lemma ArrangePartition(cs: seq<Candidate>, alert: Alert)
    requires |cs| > 0
    ensures var q := Arrange(cs, alert);
      var rest := SortDesc(cs)[1..];
      && multiset{q.primary.value} + multiset(q.secondary) + multiset(q.other) == multiset(cs)
      && IsSubseq(q.secondary, rest) && IsSubseq(q.other, rest)
      && SortedDesc(q.secondary) && SortedDesc(q.other)
      && (forall c :: c in q.secondary <==> c in rest && InSecondary(c, q.primary.value))
      && (forall c :: c in q.other <==> c in rest && !InSecondary(c, q.primary.value))
  {
    var sorted := SortDesc(cs);
    var top, rest := sorted[0], sorted[1..];
    assert sorted == [top] + rest;
    CategorizeSpec(top, rest);
    ArrangeCounts(cs, top, rest);
    SortDescSpec(cs);
    SortedTail(sorted);
    SubseqSorted(Secondary(top, rest), rest);
    SubseqSorted(Other(top, rest), rest);
  }

  lemma ArrangeCounts(cs: seq<Candidate>, top: Candidate, rest: seq<Candidate>)
    requires |cs| > 0 && SortDesc(cs) == [top] + rest
    ensures multiset{top} + multiset(Secondary(top, rest)) + multiset(Other(top, rest)) == multiset(cs)
  {
    SortDescSpec(cs);
    CategorizeSpec(top, rest);
  }

  /** A primary candidate exists exactly when the input has a token and some
      record has a phrase sharing a cleaned word with the tokens. */
  lemma PrimaryExistsIff(catalog: seq<DiseaseRecord>, userSymptoms: string, userDuration: string)
    ensures var tokens := ExtractSymptomTokens(userSymptoms);
      MatchDisease(catalog, userSymptoms, userDuration).primary.Some? <==>
        |tokens| > 0 &&
        exists j, s :: 0 <= j < |catalog| && s in catalog[j].symptoms && PhraseMatches(s, tokens)
  {
    var tokens := ExtractSymptomTokens(userSymptoms);
    NoCandidatesIff(catalog, tokens, ParseDurationDays(userDuration));
  }

  /** Input without a single letter or digit never matches, whatever else it
      says: no tokens, so the empty shape without an emergency. */
  lemma BlankInputIsEmpty(catalog: seq<DiseaseRecord>, userSymptoms: string, userDuration: string)
    requires forall i :: 0 <= i < |userSymptoms| ==> !IsLowerAlnum(LowerChar(userSymptoms[i]))
    ensures MatchDisease(catalog, userSymptoms, userDuration) == NoMatch
  {
    CleanTextEmptyIff(userSymptoms);
    TokensEmptyIff(userSymptoms);
  }

  /** The primary candidate is one of the candidates and none outranks it. */
  lemma PrimaryIsTop(catalog: seq<DiseaseRecord>, userSymptoms: string, userDuration: string)
    requires MatchDisease(catalog, userSymptoms, userDuration).primary.Some?
    ensures var top := MatchDisease(catalog, userSymptoms, userDuration).primary.value;
      var cs := Candidates(catalog, userSymptoms, userDuration);
      top in cs && forall c :: c in cs ==> !Outranks(c, top)
  {
    QueryIsArranged(catalog, userSymptoms, userDuration);
    ArrangeTop(Candidates(catalog, userSymptoms, userDuration),
               DetectEmergency(userSymptoms, ParseDurationDays(userDuration)));
  }

  /** The categories of a query partition its candidates as `ArrangePartition` states. */
  lemma CategoriesPartition(catalog: seq<DiseaseRecord>, userSymptoms: string, userDuration: string)
    requires MatchDisease(catalog, userSymptoms, userDuration).primary.Some?
    ensures var q := MatchDisease(catalog, userSymptoms, userDuration);
      var cs := Candidates(catalog, userSymptoms, userDuration);
      var rest := SortDesc(cs)[1..];
      && multiset{q.primary.value} + multiset(q.secondary) + multiset(q.other) == multiset(cs)
      && IsSubseq(q.secondary, rest) && IsSubseq(q.other, rest)
      && SortedDesc(q.secondary) && SortedDesc(q.other)
      && (forall c :: c in q.secondary <==> c in rest && InSecondary(c, q.primary.value))
      && (forall c :: c in q.other <==> c in rest && !InSecondary(c, q.primary.value))
  {
    QueryIsArranged(catalog, userSymptoms, userDuration);
    ArrangePartition(Candidates(catalog, userSymptoms, userDuration),
                     DetectEmergency(userSymptoms, ParseDurationDays(userDuration)));
  }

  /** With a primary candidate, the emergency flag is raised exactly when a
      red flag occurs in the cleaned input, and the reasons are those of the
      detector. */
  lemma EmergencyOfQuery(catalog: seq<DiseaseRecord>, userSymptoms: string, userDuration: string)
    requires MatchDisease(catalog, userSymptoms, userDuration).primary.Some?
    ensures var q := MatchDisease(catalog, userSymptoms, userDuration);
      && (q.emergency <==> exists k :: 0 <= k < |RedFlags| && IsSubstring(RedFlags[k], CleanText(userSymptoms)))
      && q.reasons == DetectEmergency(userSymptoms, ParseDurationDays(userDuration)).reasons
  {
  }

  /** With a primary candidate there is exactly one advice line, chosen from
      the flag, the primary's severity label and the parsed duration. */
  lemma OneAdvice(catalog: seq<DiseaseRecord>, userSymptoms: string, userDuration: string)
    requires MatchDisease(catalog, userSymptoms, userDuration).primary.Some?
    ensures var q := MatchDisease(catalog, userSymptoms, userDuration);
      && |q.advice| == 1
      && q.advice[0] == ChooseAdvice(q.emergency, q.primary.value.severity, ParseDurationDays(userDuration))
  {
    PrimaryIsTop(catalog, userSymptoms, userDuration);
    CandidateShape(catalog, ExtractSymptomTokens(userSymptoms), ParseDurationDays(userDuration));
  }

  /** The primary candidate comes from a catalog record, and every phrase it
      reports as matched is one of that record's phrases sharing a cleaned
      word with the tokens. */
  lemma PrimaryIsGenuine(catalog: seq<DiseaseRecord>, userSymptoms: string, userDuration: string)
    requires MatchDisease(catalog, userSymptoms, userDuration).primary.Some?
    ensures var top := MatchDisease(catalog, userSymptoms, userDuration).primary.value;
      var tokens := ExtractSymptomTokens(userSymptoms);
      && |top.matched| > 0
      && exists j :: (0 <= j < |catalog| && catalog[j].disease == top.disease &&
           forall s :: s in top.matched ==> s in catalog[j].symptoms && PhraseMatches(s, tokens))
  {
    PrimaryIsTop(catalog, userSymptoms, userDuration);
    var top := MatchDisease(catalog, userSymptoms, userDuration).primary.value;
    CandidateIsGenuine(catalog, ExtractSymptomTokens(userSymptoms), ParseDurationDays(userDuration), top);
  }

  /** Of several candidates tied for the top key, the primary is the one
      whose record comes first in the catalog. */
  lemma ArrangeFirstOfKey(cs: seq<Candidate>, alert: Alert)
    requires |cs| > 0
    ensures var top := Arrange(cs, alert).primary.value;
      |WithKey(cs, Key(top))| > 0 && WithKey(cs, Key(top))[0] == top
  {
    SortDescHead(cs);
  }

  /** The primary candidate is the first candidate, in catalog order, with
      the largest key. */
  lemma PrimaryIsFirstOfKey(catalog: seq<DiseaseRecord>, userSymptoms: string, userDuration: string)
    requires MatchDisease(catalog, userSymptoms, userDuration).primary.Some?
    ensures var top := MatchDisease(catalog, userSymptoms, userDuration).primary.value;
      var cs := Candidates(catalog, userSymptoms, userDuration);
      |WithKey(cs, Key(top))| > 0 && WithKey(cs, Key(top))[0] == top
  {
    QueryIsArranged(catalog, userSymptoms, userDuration);
    ArrangeFirstOfKey(Candidates(catalog, userSymptoms, userDuration),
                      DetectEmergency(userSymptoms, ParseDurationDays(userDuration)));
  }
}
