/** Emergency detection and the advice line (knowledge_base.py:271-298):
    red-flag phrases looked up in the cleaned input, a long-duration note, and
    one advice line chosen from the emergency flag, the top candidate's
    severity label and the duration. The message texts are abstract. */
module Alerts {
  import opened Seqs
  import opened Text
  import opened Catalog

  /** The red-flag phrases of knowledge_base.py:276, in their order. */
  const RedFlags: seq<string> := [
    "breath", "shortness", "chest", "severe pain", "loss of consciousness",
    "bleeding", "bleed", "unconscious", "paralysis", "weakness in limb",
    "vision loss"]

  /** One entry of `emergency_reasons`. */
  datatype Reason = RedFlag(phrase: string) | LongDuration

  /** What the detector reports. */
  datatype Alert = Alert(emergency: bool, reasons: seq<Reason>)

  /** The red flags that occur in the cleaned text, in list order. */
  function FlagsIn(text: string): seq<string> {
    Filter(RedFlags, rf => IsSubstring(rf, text))
  }

  function FlagReasons(flags: seq<string>): (r: seq<Reason>)
    ensures |r| == |flags|
    ensures forall i :: 0 <= i < |flags| ==> r[i] == RedFlag(flags[i])
  {
    seq(|flags|, i requires 0 <= i < |flags| => RedFlag(flags[i]))
  }

  /** The loop of knowledge_base.py:277-286: the flag is raised exactly when
      some red-flag phrase occurs in the cleaned input, and the reasons end
      with the long-duration entry exactly when the duration exceeds 30 days. */
  function DetectEmergency(userSymptoms: string, days: nat): (a: Alert)
    ensures a.emergency <==>
      exists k :: 0 <= k < |RedFlags| && IsSubstring(RedFlags[k], CleanText(userSymptoms))
    ensures days > 30 <==> |a.reasons| > 0 && a.reasons[|a.reasons| - 1] == LongDuration
  {
    var text := CleanText(userSymptoms);
    var hits := FlagsIn(text);
    AnyFlagIff(RedFlags, text);
    Alert(|hits| > 0, FlagReasons(hits) + (if days > 30 then [LongDuration] else []))
  }

  /** The phrases of `flags` found in `text` are some phrase found. */
  lemma AnyFlagIff(flags: seq<string>, text: string)
    ensures |Filter(flags, rf => IsSubstring(rf, text))| > 0 <==>
      exists k :: 0 <= k < |flags| && IsSubstring(flags[k], text)
  {
    var f := rf => IsSubstring(rf, text);
    var hits := Filter(flags, f);
    FilterMembers(flags, f);
    if |hits| > 0 {
      assert hits[0] in hits;
    }
    if exists k :: 0 <= k < |flags| && IsSubstring(flags[k], text) {
      var k :| 0 <= k < |flags| && IsSubstring(flags[k], text);
      assert flags[k] in hits;
    }
  }

  /** The reasons are one entry per red flag found, in list order, then one
      long-duration entry exactly when the duration exceeds 30 days. */
  lemma ReasonsSpec(userSymptoms: string, days: nat)
    ensures var a := DetectEmergency(userSymptoms, days);
      var hits := FlagsIn(CleanText(userSymptoms));
      && IsSubseq(hits, RedFlags)
      && (forall rf :: rf in hits <==> rf in RedFlags && IsSubstring(rf, CleanText(userSymptoms)))
      && |a.reasons| == |hits| + (if days > 30 then 1 else 0)
      && (forall i :: 0 <= i < |hits| ==> a.reasons[i] == RedFlag(hits[i]))
      && (days > 30 ==> a.reasons[|hits|] == LongDuration)
  {
    var text := CleanText(userSymptoms);
    var hits := FlagsIn(text);
    FlagsFound(RedFlags, text);
    var tail := if days > 30 then [LongDuration] else [];
    assert DetectEmergency(userSymptoms, days).reasons == FlagReasons(hits) + tail;
    ReasonsShape(hits, tail);
  }

  lemma ReasonsShape(hits: seq<string>, tail: seq<Reason>)
    ensures |FlagReasons(hits) + tail| == |hits| + |tail|
    ensures forall i :: 0 <= i < |hits| ==> (FlagReasons(hits) + tail)[i] == RedFlag(hits[i])
    ensures |tail| == 1 ==> (FlagReasons(hits) + tail)[|hits|] == tail[0]
  {
  }

  lemma FlagsFound(flags: seq<string>, text: string)
    ensures IsSubseq(Filter(flags, rf => IsSubstring(rf, text)), flags)
    ensures forall rf :: rf in Filter(flags, rf => IsSubstring(rf, text)) <==> rf in flags && IsSubstring(rf, text)
  {
    var f := rf => IsSubstring(rf, text);
    FilterIsSubseq(flags, f);
    FilterMembers(flags, f);
  }

  /** The long-duration entry never changes the flag. */
  lemma LongDurationKeepsFlag(userSymptoms: string, d1: nat, d2: nat)
    ensures DetectEmergency(userSymptoms, d1).emergency == DetectEmergency(userSymptoms, d2).emergency
    ensures |DetectEmergency(userSymptoms, d1).reasons| > 0 <==>
      DetectEmergency(userSymptoms, d1).emergency || d1 > 30
  {
  }

  // ---------------------------------------------------------------- advice

  /** The advice lines of knowledge_base.py:291-298. */
  datatype Advice = SeekImmediateCare | ConsultDoctor | MonitorAtHome

  /** Immediate care in an emergency; otherwise a doctor for a label that
      reads exactly "severe" in lower case or a duration over two weeks;
      otherwise home monitoring. */
  function ChooseAdvice(emergency: bool, severity: string, durationDays: nat): (a: Advice)
    ensures a == SeekImmediateCare <==> emergency
    ensures a == ConsultDoctor <==> !emergency && (Lower(severity) == "severe" || durationDays > 14)
    ensures a == MonitorAtHome <==> !emergency && Lower(severity) != "severe" && durationDays <= 14
  {
    if emergency then SeekImmediateCare
    else if Lower(severity) == "severe" || durationDays > 14 then ConsultDoctor
    else MonitorAtHome
  }

  /** A catalog label normalised from a cell that reads "severe" in any case
      and with any surrounding blanks leads to the consult advice. */
  lemma SevereLabelConsults(raw: string, durationDays: nat)
    requires Lower(Strip(raw)) == "severe"
    ensures ChooseAdvice(false, NormalizeSeverity(raw), durationDays) == ConsultDoctor
  {
    assert |Strip(raw)| == 6;
  }
}
