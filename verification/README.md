# Rule-based symptom matcher, modelled in Dafny

This project models the rule-based matcher of a healthcare chatbot. In
`knowledge_base.py` the user's symptom text is cleaned and tokenised, and the
duration text is read as a number of days. Every disease record is then
scored against the tokens. The candidates are sorted and split into a primary
candidate, "secondary" and "other". The input is checked for red-flag
phrases, and one advice line is chosen. The model also covers the per-row
normalisation the loader applies when it builds the records, and the keyword
filter `extract_symptoms` of `nlp.py`.

Everything is modelled as pure functions over `string` (`seq<char>`),
`seq<string>`, `nat` and exact `real`. The disease catalog is a
`seq<DiseaseRecord>` parameter, not the module-level table built from CSV files.

| module | file | models |
|---|---|---|
| `Optional` | optional.dfy | `None` / `Some` |
| `Seqs` | seqs.dfy | sub-lists, duplicate freedom, first occurrences, order-keeping de-duplication, filtering |
| `Text` | text.dfy | `str.lower`, `str.isspace`, `in` on strings, `clean_text`, `str.split`, `' '.join` |
| `Tokens` | tokens.dfy | `extract_symptom_tokens` |
| `Duration` | duration.dfy | `parse_duration_days`, `duration_bucket` |
| `Catalog` | catalog.dfy | disease records and the per-row normalisation of the loader |
| `Scoring` | scoring.dfy | phrase matching, `_severity_penalty`, the score of a record, the candidate list |
| `Ranking` | ranking.dfy | the stable descending sort, the secondary/other split |
| `Alerts` | alerts.dfy | red flags, emergency reasons, the advice line |
| `Matcher` | matcher.dfy | `match_disease` end to end |
| `Keywords` | keywords.dfy | `extract_symptoms` of `nlp.py` |

Character classes follow Python:
- `IsSpace` is exactly the set of characters for which `str.isspace()` holds. `re`'s `\s` and `str.split()` use the same set.
- Case mapping is ASCII only (see "Left out").

## Model

| member | source | states |
|---|---|---|
| Seqs.Dedup | knowledge_base.py:110-116 | the result has no repeats, holds exactly the elements of the input, and lists them in the order of their first occurrence |
| Text.Lower | knowledge_base.py:86 | lower-casing keeps the length and maps every character on its own |
| Text.LowerIdempotent | knowledge_base.py:86 | lower-casing twice is lower-casing once |
| Text.SubstringIffOccurs | knowledge_base.py:279 | Python's `p in s` on strings holds exactly when `p` occurs at some position of `s` |
| Text.Scrub | knowledge_base.py:88 | each character that is not `a-z`, `0-9` or whitespace becomes a space; the others stay |
| Text.Collapse | knowledge_base.py:89 | the collapsed text has no two adjacent whitespace characters; each character is a single space or a non-space character of the input; the leading and the trailing character's spaceness are kept, so a whitespace run at either end becomes one space |
| Text.Strip | knowledge_base.py:89 | the stripped text is no longer than the input and starts and ends with a non-space character |
| Text.StripIsSlice | knowledge_base.py:89 | the stripped text is a contiguous slice of the input |
| Text.StripOfTrimmed | knowledge_base.py:89 | text that already starts and ends with a non-space character is left unchanged by strip |
| Text.CleanText | knowledge_base.py:83-89 | the cleaned text holds only `a-z`, `0-9` and single spaces, with no space at either end; empty input gives `""` |
| Text.CleanTextIsJoinOfWords | knowledge_base.py:83-89 | the cleaned text is the words of the scrubbed, lower-cased text joined by single spaces |
| Text.CleanTextIdempotent | knowledge_base.py:83-89 | cleaning cleaned text changes nothing |
| Text.CleanTextEmptyIff | knowledge_base.py:83-89 | the cleaned text is empty exactly when no character of the input lower-cases to a letter or digit |
| Text.Words | knowledge_base.py:100 | `split()` yields non-empty words without whitespace |
| Text.WordsOfJoin | knowledge_base.py:100 | splitting words joined by single spaces gives the words back |
| Text.JoinWordsOfClean | knowledge_base.py:89-100 | joining the words of a clean text with single spaces gives the text back |
| Text.CleanTextWords | knowledge_base.py:83-100 | cleaning keeps the words of the scrubbed, lower-cased text |
| Text.NoWordsIffBlank | knowledge_base.py:100 | a text has no words exactly when it is all whitespace |
| Text.CleanWordsAlnum | knowledge_base.py:88-100 | every word of a clean text consists of `a-z` and `0-9` only |
| Tokens.Stem | knowledge_base.py:103-108 | a stem is a prefix of its word, at most four characters shorter, and shorter exactly when the word ends in "ing", or ends in "s" and is longer than 3 characters |
| Tokens.StemKeepsPlainWord | knowledge_base.py:103-108 | a word ending in neither suffix is its own stem |
| Tokens.StemOfIng | knowledge_base.py:103-108 | the stem of `u + "ing"` is `u`, less a final "s" when `u` ends in "s" and is longer than 3 characters |
| Tokens.StemOfS | knowledge_base.py:103-108 | the stem of `u + "s"` is `u` when `u` has at least 3 characters, else the word is kept whole |
| Tokens.ExtractSymptomTokens | knowledge_base.py:92-116 | the tokens have no repeats, are exactly the stems of the cleaned words, and appear in first-occurrence order of the stemmed words |
| Tokens.TokensEmptyIff | knowledge_base.py:99-100 | there are no tokens exactly when the input has no ASCII letter or digit |
| Tokens.TokensComeFromWords | knowledge_base.py:92-116 | every token is `a-z0-9` only and a prefix of a cleaned input word, at most four characters shorter |
| Duration.Digits | knowledge_base.py:123 | the kept characters are digits, and none is kept exactly when the input has no digit |
| Duration.DigitsOfLower | knowledge_base.py:122-123 | lower-casing before dropping non-digits changes nothing |
| Duration.ParseDurationDays | knowledge_base.py:119-127 | the result is a natural number; 0 without digits; the decimal value of all digits concatenated when there are at most 4300 of them; 0 beyond that, where `int()` raises and the handler returns 0 |
| Duration.ParseRoundTrip | knowledge_base.py:119-127 | a number written in decimal in front of a digit-free unit is read back as that number |
| Duration.DigitsConcatenate | knowledge_base.py:123-125 | two numbers with digit-free text after each read as one number, the first shifted left by the second's digits: "2 days 3 hours" gives 2 * 10 + 3 = 23 |
| Duration.BucketRanges | knowledge_base.py:131-139 | each bucket is exactly its range of days: up to 3, up to 14, up to 45, beyond |
| Duration.BucketMonotone | knowledge_base.py:131-139 | a longer duration never gets a lower bucket |
| Catalog.Pieces | knowledge_base.py:35 | splitting on `;` or `,` yields at least one piece and no piece holds a separator |
| Catalog.PiecesRejoin | knowledge_base.py:35 | there is one more piece than the cell has separators, and putting the cell's own separators back between the pieces gives the cell: the pieces are its maximal separator-free runs |
| Catalog.SplitSymptoms | knowledge_base.py:32-35 | every stored symptom phrase is non-empty, trimmed, separator-free and lower-case |
| Catalog.NormalizePhrases | knowledge_base.py:35 | normalising phrases that are already normalised keeps all of them unchanged |
| Catalog.PiecesOfJoin | knowledge_base.py:35 | splitting separator-free phrases joined with `;` or `,`, in any mix, gives the phrases back |
| Catalog.SplitSymptomsSpec | knowledge_base.py:32-35 | the stored phrases are the raw cell's `;`/`,` pieces, each stripped and lower-cased, with the blank ones dropped, in order; stripping the whole cell first makes no difference |
| Catalog.SplitSymptomsRoundTrip | knowledge_base.py:32-35 | writing stored phrases into a cell with `;` or `,` between them and splitting the cell again gives the phrases back |
| Catalog.Capitalize | knowledge_base.py:46 | `capitalize()` keeps the length, upper-cases the first character and lower-cases every later one |
| Catalog.NormalizeSeverity | knowledge_base.py:46 | a blank cell gives "Unknown"; otherwise the label equals the trimmed cell up to case, starts with the upper-cased first character and has no upper-case letter after it |
| Catalog.SeverityIdempotent | knowledge_base.py:46 | normalising a normalised label changes nothing |
| Catalog.QualifiesViralIff | knowledge_base.py:66 | the name test is equivalent to "viral" occurring in the lower-cased name or that name being "fever" |
| Catalog.DescriptionWithFallback | knowledge_base.py:66-69 | a found description is kept; without one, a description exists exactly when the name qualifies, and a qualifying name gets the fixed viral-fever text |
| Catalog.BuildRecord | knowledge_base.py:30-79 | every built record has normalised phrases, a non-empty severity, a trimmed name, and a description whenever the name qualifies; the phrases are the split symptoms cell, the label the normalised severity cell, the description the found one with the viral-fever fallback; durations and precautions are copied |
| Scoring.PhraseMatches | knowledge_base.py:196-198 | a phrase matches exactly when one of its cleaned words is a token, so the two `any` scans test the same thing |
| Scoring.MatchedSymptoms | knowledge_base.py:194-199 | `matched` is an order-preserving sub-list of the record's phrases, and each of its phrases matches |
| Scoring.MatchedSymptomsSpec | knowledge_base.py:194-199 | `matched` is an order-preserving sub-list of the record's phrases that holds each matching phrase as often as the record does, and no other phrase |
| Scoring.BaseFraction | knowledge_base.py:205-207 | for 1 to total matches the fraction lies in (0, 1]; it is 1 exactly on a full match and below one half exactly when fewer than half matched; times the total it gives back the match count |
| Scoring.SeverityPenalty | knowledge_base.py:143-154 | 0.35 for a label containing "severe", else 0.15 for one containing "moderate", else 0; 0.42 and 0.18 for durations of at most three days |
| Scoring.SeverityPenaltyByDuration | knowledge_base.py:151-153 | a duration of at most three days multiplies the penalty by 1.2; the penalty stays within [0, 0.42] |
| Scoring.MissingPenalty | knowledge_base.py:215-217 | the penalty is positive exactly when the record has at least three phrases and fewer than half matched, is then a quarter of the unmatched fraction, and never exceeds 0.25 |
| Scoring.ViralBoost | knowledge_base.py:220-223 | the boost is 0.5 exactly when "fever" is a token, the name qualifies and the duration is at most 7 days, and 0 otherwise |
| Scoring.RawScoreMonotone | knowledge_base.py:204-225 | matching more of a record's phrases never lowers its score |
| Scoring.ScoreRecord | knowledge_base.py:188-238 | a candidate keeps the record's name and the parsed days, and has between 1 and all of the record's phrases matched |
| Scoring.ScoreRecordIff | knowledge_base.py:188-202 | a record yields a candidate exactly when one of its phrases shares a cleaned word with the tokens |
| Scoring.ScoreRecordSpec | knowledge_base.py:188-238 | a record yields a candidate exactly when one of its phrases matches; the candidate carries the matched sub-list, the duration test of line 210 and the record's severity, description and precautions; its match count is the number of matched phrases, its total the record's phrase count, and its score the fraction plus the duration bonus, less the severity and missing penalties, plus the viral boost |
| Scoring.ScoreBounds | knowledge_base.py:204-225 | every score lies in (-0.67, 1.95] |
| Scoring.ScoreCatalog | knowledge_base.py:188-238 | a record yields at most one candidate |
| Scoring.ScoreCatalogOrder | knowledge_base.py:188-238 | the candidates follow catalog order: a concatenated catalog gives the first part's candidates, then the second's; one record gives its own candidate or nothing |
| Scoring.ScoreCatalogMembers | knowledge_base.py:188-238 | the candidates are exactly the candidates the records yield |
| Scoring.NoCandidatesIff | knowledge_base.py:188-202 | there is no candidate exactly when no phrase of any record matches the tokens |
| Scoring.CandidateShape | knowledge_base.py:205-206 | every candidate has between 1 and all of its record's phrases matched, carries the parsed duration, and scores within (-0.67, 1.95] |
| Scoring.CandidateIsGenuine | knowledge_base.py:194-202 | every candidate comes from a record of the same name, and each phrase it reports is a matching phrase of that record |
| Ranking.KeysEqualIff | knowledge_base.py:252 | two candidates have equal `(score, match_count)` keys exactly when neither outranks the other |
| Ranking.SortDesc | knowledge_base.py:252 | sorting keeps the length and the candidates, each as often as before |
| Ranking.SortDescSpec | knowledge_base.py:252 | the sorted list is a permutation of the candidates in which no later candidate has a larger `(score, match_count)` key |
| Ranking.SortDescStable | knowledge_base.py:252 | candidates with equal keys keep their relative order |
| Ranking.SortDescHead | knowledge_base.py:252-255 | the first sorted candidate is the earliest input candidate with its key |
| Ranking.SubseqSorted | knowledge_base.py:258-269 | an order-preserving sub-list of the sorted list is sorted |
| Ranking.Secondary | knowledge_base.py:258-267 | secondary is an order-preserving sub-list of the remaining candidates, and each of them passes the test of lines 263-267 |
| Ranking.Other | knowledge_base.py:258-269 | other is an order-preserving sub-list of the remaining candidates, and each of them fails that test |
| Ranking.CategorizeSpec | knowledge_base.py:258-269 | secondary and other are order-preserving sub-lists of the remaining candidates; a candidate is secondary exactly when it passes the test of lines 263-267 and other exactly when it fails it; together they hold each remaining candidate exactly once |
| Ranking.TiedIsSecondary | knowledge_base.py:263 | with a non-negative top score, a candidate tied with the top one is secondary |
| Ranking.ThresholdWhenTopNegative | knowledge_base.py:263-267 | with a negative top score, only the duration rule can make a candidate secondary |
| Alerts.DetectEmergency | knowledge_base.py:271-286 | the emergency flag is raised exactly when some red-flag phrase occurs in the cleaned input; the reasons end with the long-duration entry exactly when the duration exceeds 30 days |
| Alerts.ReasonsSpec | knowledge_base.py:276-286 | the reasons are one entry per red flag found, in list order, followed by one long-duration entry exactly when the duration exceeds 30 days |
| Alerts.LongDurationKeepsFlag | knowledge_base.py:284-286 | the duration never changes the flag; there is a reason exactly when the flag is raised or the duration exceeds 30 days |
| Alerts.ChooseAdvice | knowledge_base.py:289-298 | immediate care exactly in an emergency; otherwise consult exactly when the lower-cased label is "severe" or the duration exceeds 14 days; otherwise monitor |
| Alerts.SevereLabelConsults | knowledge_base.py:294-296 | a record whose severity cell reads "severe" in any case leads to the consult advice when there is no emergency |
| Matcher.MatchDisease | knowledge_base.py:157-309 | no tokens give the empty result; without a primary candidate the result has empty lists, no reasons, no advice and no emergency, even when a red flag occurs in the input; with one, the primary is a candidate, primary, secondary and other together number the candidates, the flag is the detector's and there is one advice line |
| Matcher.Arrange | knowledge_base.py:251-309 | the primary is one of the candidates; primary, secondary and other together number the candidates; the flag and reasons are the detector's; there is one advice line |
| Matcher.PrimaryExistsIff | knowledge_base.py:177-249 | a primary candidate exists exactly when there is a token and some record phrase matches the tokens |
| Matcher.BlankInputIsEmpty | knowledge_base.py:171-185 | input without an ASCII letter or digit gives the empty result |
| Matcher.QueryIsArranged | knowledge_base.py:241-309 | a query with a primary candidate is its candidates sorted, split and annotated |
| Matcher.ArrangeTop | knowledge_base.py:252-255 | the first sorted candidate is a candidate, and no candidate outranks it |
| Matcher.ArrangePartition | knowledge_base.py:252-269 | primary, secondary and other hold each candidate exactly once; secondary and other are sorted sub-lists of the rest, split by the threshold test |
| Matcher.PrimaryIsTop | knowledge_base.py:252-255 | the primary candidate of a query is one of its candidates, and no candidate has a larger `(score, match_count)` key |
| Matcher.CategoriesPartition | knowledge_base.py:252-269 | the partition of `ArrangePartition`, stated for the query |
| Matcher.EmergencyOfQuery | knowledge_base.py:271-286 | with a primary candidate, the emergency flag is raised exactly when some red flag occurs in the cleaned input; the reasons are those of the detector |
| Matcher.OneAdvice | knowledge_base.py:288-298 | with a primary candidate there is exactly one advice line, chosen from the flag, the primary's severity label and the parsed duration |
| Matcher.ArrangeFirstOfKey | knowledge_base.py:252-255 | of several candidates tied for the top key, the primary is the first in input order |
| Matcher.PrimaryIsFirstOfKey | knowledge_base.py:188-255 | the primary of a query is the first candidate, in catalog order, with its key |
| Matcher.PrimaryIsGenuine | knowledge_base.py:188-202 | the primary candidate comes from a record of the same name, and every phrase it reports is a matching phrase of that record |
| Keywords.ExtractSymptoms | nlp.py:5-16 | the result is an order-preserving sub-list of the keyword list, and each keyword in it occurs in the lower-cased input |
| Keywords.KeywordsDistinct | nlp.py:10-13 | the keyword list has no repeats |
| Keywords.ExtractSymptomsSpec | nlp.py:10-16 | the result is an order-preserving sub-list of the keyword list with no repeats; it holds exactly the keywords that occur in the lower-cased input |
| Keywords.ExtractSymptomsIgnoresCase | nlp.py:14 | inputs that differ only in letter case give the same keywords |
| Keywords.PainInsideWord | nlp.py:15 | "pain" is found inside a longer word such as "painful" |

## Left out

- Reading the three CSV files with pandas, the column-name clean-up and the description and precaution lookups (knowledge_base.py:13-26, 48-63). A record is built from one row, the description found for it and its precautions; the catalog is a parameter.
- The `int()` conversion of the duration cells and its NaN fallbacks (knowledge_base.py:37-44). A `Row` holds the durations as integers already.
- Catalog.BuildRecord: does not model `str()` of a missing cell. A `Row` holds its cells as strings.
- Case mapping is ASCII only. Python's `str.lower()` and `str.capitalize()` also map other letters, for example the Kelvin sign to `k` and U+0130 to two characters. This affects `Lower`, `Capitalize` and everything built on them.
- Duration.Digits: keeps ASCII digits only, while `re`'s `\d` and `int()` also accept other Unicode decimal digits.
- Scoring.ScoreRecord: scores are exact reals. `round(score, 4)` and binary floating-point error (knowledge_base.py:207, 230) are not modelled, so ties and the 70% threshold are decided on exact values.
- `duration_bucket` is computed at knowledge_base.py:173 but never used; `MatchDisease` does not compute it. `DurationBucket` models the function on its own.
- The message texts of the reasons and advice lines (knowledge_base.py:281, 286, 291-298) are abstract constructors: `Reason.RedFlag(phrase)`, `Reason.LongDuration`, and `Advice`. The mis-encoded dash in the long-duration text is therefore not reproduced.
- The severity labels are whatever the loader produces from the cell: the code only trims and capitalises the cell, and the model follows the code. The only list of severity names in the repository is the user's own choice in `dashboard.py:126` ("Mostly Mild (L1–L2)", "Moderate (L3)", "Severe (L4)"), which `match_disease` does not read.
- `dashboard.py` (user interface) and `nlp_engine.py` (an unused alternative engine built on vectorised cosine similarity in an external library) are not part of this model.
