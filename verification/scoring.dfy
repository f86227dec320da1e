/** The scoring loop of `match_disease` (knowledge_base.py:143-154, 188-238):
    which symptom phrases of a record match the tokens, and the score the
    record earns from the matched fraction, the duration window, the severity
    label, the missing-symptom penalty and the viral-fever boost. Scores are
    exact reals; the source's `round(score, 4)` is not modelled. */
module Scoring {
  import opened Optional
  import opened Seqs
  import opened Text
  import opened Catalog

  /** One scored disease, as the matcher reports it. */
  datatype Candidate = Candidate(
    disease: string,
    matched: seq<string>,
    score: real,
    severity: string,
    description: string,
    precautions: seq<string>,
    durationOk: bool,
    durationDays: nat,
    matchCount: nat,
    totalSymptoms: nat)

  // ---------------------------------------------------------------- matching

  /** `[t for t in clean_text(s).split() if t]` for a symptom phrase. */
  function PhraseWords(phrase: string): seq<string> {
    Words(CleanText(phrase))
  }

  /** `any(x in ys for x in xs)`, scanning `xs` from the front. */
  predicate AnyIn(xs: seq<string>, ys: seq<string>)
    decreases |xs|
  {
    |xs| > 0 && (xs[0] in ys || AnyIn(xs[1..], ys))
  }

  lemma {:induction false} AnyInIff(xs: seq<string>, ys: seq<string>)
    ensures AnyIn(xs, ys) <==> exists x :: x in xs && x in ys
    decreases |xs|
  {
    if |xs| > 0 {
      AnyInIff(xs[1..], ys);
      if exists x :: x in xs && x in ys {
        var x :| x in xs && x in ys;
        if x != xs[0] {
          assert x in xs[1..];
        }
      }
      assert forall x :: x in xs[1..] ==> x in xs;
    }
  }

  /** The per-phrase test of knowledge_base.py:198, both `any` scans: a
      phrase matches exactly when one of its cleaned words is a token, so the
      two scans test the same thing. */
  predicate PhraseMatches(phrase: string, tokens: seq<string>)
    ensures PhraseMatches(phrase, tokens) <==> exists w :: w in PhraseWords(phrase) && w in tokens
  {
    var words := PhraseWords(phrase);
    AnyInIff(words, tokens);
    AnyInIff(tokens, words);
    AnyIn(words, tokens) || AnyIn(tokens, words)
  }

  /** `matched`: the record's phrases that match, in the record's order. */
  function MatchedSymptoms(ds: seq<string>, tokens: seq<string>): (r: seq<string>)
    ensures IsSubseq(r, ds)
    ensures forall x :: x in r ==> PhraseMatches(x, tokens)
  {
    var f := s => PhraseMatches(s, tokens);
    FilterIsSubseq(ds, f);
    FilterMembers(ds, f);
    Filter(ds, f)
  }

  /** `matched` is an order-preserving sub-list of the record's phrases; it
      holds every matching phrase as often as the record lists it, and no
      phrase that does not match. */
  lemma MatchedSymptomsSpec(ds: seq<string>, tokens: seq<string>)
    ensures IsSubseq(MatchedSymptoms(ds, tokens), ds)
    ensures forall x :: x in MatchedSymptoms(ds, tokens) <==> x in ds && PhraseMatches(x, tokens)
    ensures forall x :: multiset(MatchedSymptoms(ds, tokens))[x] ==
                        (if PhraseMatches(x, tokens) then multiset(ds)[x] else 0)
  {
    var f := s => PhraseMatches(s, tokens);
    FilterIsSubseq(ds, f);
    FilterMembers(ds, f);
    forall x ensures multiset(Filter(ds, f))[x] == (if f(x) then multiset(ds)[x] else 0) {
      FilterCount(ds, f, x);
    }
  }

  // ---------------------------------------------------------------- score parts

  /** The matched fraction `match_count / total_symptoms`. */
  function BaseFraction(matchCount: nat, total: nat): (r: real)
    requires total >= 1
    ensures 0 < matchCount <= total ==> 0.0 < r <= 1.0
    ensures r == 1.0 <==> matchCount == total
    ensures r < 0.5 <==> 2 * matchCount < total
    ensures r * total as real == matchCount as real
  {
    var r := matchCount as real / total as real;
    FractionFacts(matchCount, total, r);
    r
  }

  lemma FractionFacts(m: nat, t: nat, r: real)
    requires t >= 1 && r == m as real / t as real
    ensures 0 < m <= t ==> 0.0 < r <= 1.0
    ensures r == 1.0 <==> m == t
    ensures r < 0.5 <==> 2 * m < t
  {
    var tr := t as real;
    assert r * tr == m as real;
    SignOfProduct(r, tr);
    assert (r - 1.0) * tr == m as real - tr;
    SignOfProduct(r - 1.0, tr);
    assert (r - 0.5) * tr == m as real - 0.5 * tr;
    SignOfProduct(r - 0.5, tr);
  }

  /** Multiplying by a positive number keeps the sign. */
  lemma SignOfProduct(a: real, t: real)
    requires t > 0.0
    ensures a < 0.0 <==> a * t < 0.0
    ensures a == 0.0 <==> a * t == 0.0
  {
  }

  /** More matches give a larger fraction of the same total. */
  lemma FractionOrder(m1: nat, m2: nat, t: nat)
    requires t >= 1 && m1 <= m2
    ensures BaseFraction(m1, t) <= BaseFraction(m2, t)
  {
    var r1, r2, tr := BaseFraction(m1, t), BaseFraction(m2, t), t as real;
    assert r1 * tr == m1 as real && r2 * tr == m2 as real;
    assert (r2 - r1) * tr == (m2 - m1) as real;
    SignOfProduct(r2 - r1, tr);
  }

  /** The duration window test of knowledge_base.py:210: an unknown duration
      (0 days) always fits. */
  predicate DurationOk(days: nat, minDuration: int, maxDuration: int) {
    days == 0 || (minDuration <= days && days <= maxDuration)
  }

  function DurationBonus(ok: bool): real {
    if ok then 0.45 else 0.0
  }

  /** `_severity_penalty`: 0.35 for a label containing "severe", else 0.15 for
      one containing "moderate", else nothing; scaled by 1.2 for durations of
      at most three days. */
  function SeverityPenalty(severity: string, days: int): (r: real)
    ensures IsSubstring("severe", Lower(severity)) ==> r == (if days <= 3 then 0.42 else 0.35)
    ensures !IsSubstring("severe", Lower(severity)) && IsSubstring("moderate", Lower(severity)) ==>
      r == (if days <= 3 then 0.18 else 0.15)
    ensures !IsSubstring("severe", Lower(severity)) && !IsSubstring("moderate", Lower(severity)) ==> r == 0.0
  {
    var s := Lower(severity);
    var base := if IsSubstring("severe", s) then 0.35 else if IsSubstring("moderate", s) then 0.15 else 0.0;
    if days <= 3 then base * 1.2 else base
  }

  /** A duration of at most three days scales the penalty by 1.2. */
  lemma SeverityPenaltyByDuration(severity: string, shortDays: int, longDays: int)
    requires shortDays <= 3 < longDays
    ensures SeverityPenalty(severity, shortDays) == 1.2 * SeverityPenalty(severity, longDays)
    ensures 0.0 <= SeverityPenalty(severity, longDays) <= SeverityPenalty(severity, shortDays) <= 0.42
  {
  }

  /** The missing-symptom penalty: a quarter of the unmatched fraction, for
      records with at least three symptoms of which fewer than half matched. */
  function MissingPenalty(total: nat, fraction: real): (r: real)
    ensures r > 0.0 <==> total >= 3 && fraction < 0.5
    ensures r != 0.0 ==> r == 0.25 * (1.0 - fraction)
    ensures 0.0 <= fraction ==> r <= 0.25
  {
    if total >= 3 && fraction < 0.5 then 0.25 * (1.0 - fraction) else 0.0
  }

  /** The viral-fever boost: 0.5 when "fever" is a token, the disease name
      qualifies and the duration is at most a week. */
  function ViralBoost(tokens: seq<string>, disease: string, days: int): (r: real)
    ensures r == 0.0 || r == 0.5
    ensures r == 0.5 <==> "fever" in tokens && QualifiesViral(disease) && days <= 7
  {
    if "fever" in tokens && QualifiesViral(disease) && days <= 7 then 0.5 else 0.0
  }

  /** The score of knowledge_base.py:225. */
  function RawScore(matchCount: nat, total: nat, ok: bool, severityPen: real, viral: real): real
    requires total >= 1
  {
    var f := BaseFraction(matchCount, total);
    f + DurationBonus(ok) - severityPen - MissingPenalty(total, f) + viral
  }

  /** Matching more of a record's symptoms never lowers its score: the missing
      penalty falls off slower than the matched fraction grows, and its
      disappearance at one half is a jump upwards. */
  lemma RawScoreMonotone(m1: nat, m2: nat, total: nat, ok: bool, severityPen: real, viral: real)
    requires total >= 1 && m1 <= m2
    ensures RawScore(m1, total, ok, severityPen, viral) <= RawScore(m2, total, ok, severityPen, viral)
  {
    var f1, f2 := BaseFraction(m1, total), BaseFraction(m2, total);
    FractionOrder(m1, m2, total);
    var p1, p2 := MissingPenalty(total, f1), MissingPenalty(total, f2);
    if p2 > 0.0 {
      assert p1 > 0.0;
      assert p1 - p2 == 0.25 * (f2 - f1);
    }
  }

  // ---------------------------------------------------------------- records

  /** The candidate a record yields, or `None` when no phrase of it matches. */
  function ScoreRecord(rec: DiseaseRecord, tokens: seq<string>, days: nat): (r: Option<Candidate>)
    ensures r.Some? ==> r.value.disease == rec.disease && r.value.durationDays == days
    ensures r.Some? ==> 1 <= r.value.matchCount <= r.value.totalSymptoms == |rec.symptoms|
  {
    var ds := rec.symptoms;
    if |ds| == 0 then None
    else
      var matched := MatchedSymptoms(ds, tokens);
      if |matched| == 0 then None
      else
        var total := if |ds| > 1 then |ds| else 1;
        var ok := DurationOk(days, rec.minDuration, rec.maxDuration);
        var score := RawScore(|matched|, total, ok,
          SeverityPenalty(rec.severity, days), ViralBoost(tokens, rec.disease, days));
        Some(Candidate(rec.disease, matched, score, rec.severity, rec.description,
          rec.precautions, ok, days, |matched|, total))
  }

  /** A record is a candidate exactly when one of its phrases shares a cleaned
      word with the tokens; the candidate's fields are then those the source
      builds at knowledge_base.py:227-238. */
  lemma ScoreRecordSpec(rec: DiseaseRecord, tokens: seq<string>, days: nat)
    ensures ScoreRecord(rec, tokens, days).Some? <==>
      exists s :: s in rec.symptoms && PhraseMatches(s, tokens)
    ensures ScoreRecord(rec, tokens, days).Some? ==>
      var c := ScoreRecord(rec, tokens, days).value;
      && c.matched == MatchedSymptoms(rec.symptoms, tokens)
      && IsSubseq(c.matched, rec.symptoms)
      && (c.durationOk <==> DurationOk(days, rec.minDuration, rec.maxDuration))
      && c.severity == rec.severity && c.description == rec.description
      && c.precautions == rec.precautions
    ensures ScoreRecord(rec, tokens, days).Some? ==>
      var c := ScoreRecord(rec, tokens, days).value;
      var f := BaseFraction(c.matchCount, c.totalSymptoms);
      && c.matchCount == |c.matched| && c.totalSymptoms == |rec.symptoms|
      && c.score == f + DurationBonus(c.durationOk) - SeverityPenalty(rec.severity, days)
                      - MissingPenalty(c.totalSymptoms, f) + ViralBoost(tokens, rec.disease, days)
  {
    MatchedSymptomsSpec(rec.symptoms, tokens);
    var m := MatchedSymptoms(rec.symptoms, tokens);
    if |m| > 0 {
      assert m[0] in m;
    }
  }

  /** A record yields a candidate exactly when one of its phrases matches. */
  lemma ScoreRecordIff(rec: DiseaseRecord, tokens: seq<string>, days: nat)
    ensures ScoreRecord(rec, tokens, days).Some? <==>
      exists s :: s in rec.symptoms && PhraseMatches(s, tokens)
  {
    MatchedSymptomsSpec(rec.symptoms, tokens);
    var m := MatchedSymptoms(rec.symptoms, tokens);
    if |m| > 0 {
      assert m[0] in m;
    }
  }

  /** Every candidate's score lies in (-0.67, 1.95]: at most a full match,
      the duration bonus and the viral boost, at least a vanishing match less
      the largest severity and missing penalties. */
  lemma ScoreBounds(rec: DiseaseRecord, tokens: seq<string>, days: nat)
    requires ScoreRecord(rec, tokens, days).Some?
    ensures -0.67 < ScoreRecord(rec, tokens, days).value.score <= 1.95
  {
    var c := ScoreRecord(rec, tokens, days).value;
    var f := BaseFraction(c.matchCount, c.totalSymptoms);
    var sev := SeverityPenalty(rec.severity, days);
    assert 0.0 <= sev <= 0.42;
    var miss := MissingPenalty(c.totalSymptoms, f);
    assert 0.0 <= miss < 0.25;
  }

  // ---------------------------------------------------------------- catalog

  /** `result_candidates`: the candidates of the catalog's records, in
      catalog order. */
  function ScoreCatalog(catalog: seq<DiseaseRecord>, tokens: seq<string>, days: nat): (r: seq<Candidate>)
    ensures |r| <= |catalog|
  {
    FilterMap(catalog, rec => ScoreRecord(rec, tokens, days))
  }

  /** The candidates keep catalog order, one per matching record: the
      candidates of a concatenated catalog are those of the first part
      followed by those of the second, and a single record contributes its
      own candidate or nothing. */
  lemma ScoreCatalogOrder(a: seq<DiseaseRecord>, b: seq<DiseaseRecord>, one: DiseaseRecord, tokens: seq<string>, days: nat)
    ensures ScoreCatalog(a + b, tokens, days) == ScoreCatalog(a, tokens, days) + ScoreCatalog(b, tokens, days)
    ensures ScoreCatalog([one], tokens, days) ==
      (match ScoreRecord(one, tokens, days) case Some(c) => [c] case None => [])
  {
    FilterMapAppend(a, b, rec => ScoreRecord(rec, tokens, days));
    assert [one][1..] == [];
  }

  /** The candidates are exactly what the records yield: each comes from some
      record, and every record that yields a candidate contributes it. */
  lemma ScoreCatalogMembers(catalog: seq<DiseaseRecord>, tokens: seq<string>, days: nat)
    ensures forall c :: c in ScoreCatalog(catalog, tokens, days) <==>
      exists j :: 0 <= j < |catalog| && ScoreRecord(catalog[j], tokens, days) == Some(c)
  {
    FilterMapMembers(catalog, rec => ScoreRecord(rec, tokens, days));
  }

  /** No candidate exists exactly when no record has a phrase that shares a
      cleaned word with the tokens. */
  lemma NoCandidatesIff(catalog: seq<DiseaseRecord>, tokens: seq<string>, days: nat)
    ensures |ScoreCatalog(catalog, tokens, days)| == 0 <==>
      forall j, s :: 0 <= j < |catalog| && s in catalog[j].symptoms ==> !PhraseMatches(s, tokens)
  {
    if |ScoreCatalog(catalog, tokens, days)| > 0 {
      SomeCandidateMatches(catalog, tokens, days);
    } else {
      NoCandidateNoMatch(catalog, tokens, days);
    }
  }

  lemma SomeCandidateMatches(catalog: seq<DiseaseRecord>, tokens: seq<string>, days: nat)
    requires |ScoreCatalog(catalog, tokens, days)| > 0
    ensures exists j, s :: 0 <= j < |catalog| && s in catalog[j].symptoms && PhraseMatches(s, tokens)
  {
    var r := ScoreCatalog(catalog, tokens, days);
    ScoreCatalogMembers(catalog, tokens, days);
    assert r[0] in r;
    var j :| 0 <= j < |catalog| && ScoreRecord(catalog[j], tokens, days) == Some(r[0]);
    ScoreRecordIff(catalog[j], tokens, days);
    var s :| s in catalog[j].symptoms && PhraseMatches(s, tokens);
  }

  lemma NoCandidateNoMatch(catalog: seq<DiseaseRecord>, tokens: seq<string>, days: nat)
    requires |ScoreCatalog(catalog, tokens, days)| == 0
    ensures forall j, s :: 0 <= j < |catalog| && s in catalog[j].symptoms ==> !PhraseMatches(s, tokens)
  {
    FilterMapEmpty(catalog, rec => ScoreRecord(rec, tokens, days));
    forall j | 0 <= j < |catalog| ensures forall s :: s in catalog[j].symptoms ==> !PhraseMatches(s, tokens) {
      assert ScoreRecord(catalog[j], tokens, days).None?;
      ScoreRecordIff(catalog[j], tokens, days);
    }
  }

  /** Every candidate matched between one and all of its record's phrases and
      carries the parsed duration. */
  lemma CandidateShape(catalog: seq<DiseaseRecord>, tokens: seq<string>, days: nat)
    ensures forall c :: c in ScoreCatalog(catalog, tokens, days) ==>
      1 <= c.matchCount <= c.totalSymptoms && c.durationDays == days && -0.67 < c.score <= 1.95
  {
    ScoreCatalogMembers(catalog, tokens, days);
    forall c | c in ScoreCatalog(catalog, tokens, days)
      ensures 1 <= c.matchCount <= c.totalSymptoms && c.durationDays == days && -0.67 < c.score <= 1.95
    {
      var j :| 0 <= j < |catalog| && ScoreRecord(catalog[j], tokens, days) == Some(c);
      ScoreBounds(catalog[j], tokens, days);
    }
  }

  /** The phrases a record's candidate reports as matched are phrases of the
      record that share a cleaned word with the tokens. */
  lemma ScoreRecordGenuine(rec: DiseaseRecord, tokens: seq<string>, days: nat)
    requires ScoreRecord(rec, tokens, days).Some?
    ensures var c := ScoreRecord(rec, tokens, days).value;
      && |c.matched| > 0
      && forall s :: s in c.matched ==> s in rec.symptoms && PhraseMatches(s, tokens)
  {
    MatchedSymptomsSpec(rec.symptoms, tokens);
  }

  /** A candidate comes from a catalog record with the same name, and each
      phrase it reports as matched is one of that record's phrases sharing a
      cleaned word with the tokens. */
  lemma CandidateIsGenuine(catalog: seq<DiseaseRecord>, tokens: seq<string>, days: nat, c: Candidate)
    requires c in ScoreCatalog(catalog, tokens, days)
    ensures |c.matched| > 0
    ensures exists j :: (0 <= j < |catalog| && catalog[j].disease == c.disease &&
      forall s :: s in c.matched ==> s in catalog[j].symptoms && PhraseMatches(s, tokens))
  {
    ScoreCatalogMembers(catalog, tokens, days);
    var j :| 0 <= j < |catalog| && ScoreRecord(catalog[j], tokens, days) == Some(c);
    ScoreRecordGenuine(catalog[j], tokens, days);
  }
}
