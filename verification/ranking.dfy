/** Ordering and categorising the candidates (knowledge_base.py:251-269):
    a stable sort on `(score, match_count)`, largest first, then a split of
    everything after the top candidate into "secondary" and "other". */
module Ranking {
  import opened Seqs
  import opened Scoring

  /** The sort key of knowledge_base.py:252. */
  function Key(c: Candidate): (real, nat) {
    (c.score, c.matchCount)
  }

  /** `a` has a strictly larger `(score, match_count)` than `b`, compared
      lexicographically as Python compares tuples. */
  predicate Outranks(a: Candidate, b: Candidate) {
    a.score > b.score || (a.score == b.score && a.matchCount > b.matchCount)
  }

  /** Two keys are equal exactly when neither candidate outranks the other. */
  lemma KeysEqualIff(a: Candidate, b: Candidate)
    ensures Key(a) == Key(b) <==> !Outranks(a, b) && !Outranks(b, a)
  {
  }

  /** No later candidate outranks an earlier one. */
  predicate SortedDesc(s: seq<Candidate>) {
    forall i, j :: 0 <= i < j < |s| ==> !Outranks(s[j], s[i])
  }

  /** Places `x` after every element it does not outrank: in front of the
      first element with a strictly smaller key. */
  function Insert(s: seq<Candidate>, x: Candidate): (r: seq<Candidate>)
    ensures |r| == |s| + 1
    decreases |s|
  {
    if |s| == 0 then [x]
    else if Outranks(x, s[0]) then [x] + s
    else [s[0]] + Insert(s[1..], x)
  }

  lemma {:induction false} InsertPermutes(s: seq<Candidate>, x: Candidate)
    ensures multiset(Insert(s, x)) == multiset(s) + multiset{x}
    decreases |s|
  {
    if |s| > 0 && !Outranks(x, s[0]) {
      InsertPermutes(s[1..], x);
      assert s == [s[0]] + s[1..];
    }
  }

  /** Inserting into a sorted list keeps it sorted. */
  lemma {:induction false} InsertSorted(s: seq<Candidate>, x: Candidate)
    requires SortedDesc(s)
    ensures SortedDesc(Insert(s, x))
    decreases |s|
  {
    if |s| > 0 && !Outranks(x, s[0]) {
      var t := s[1..];
      assert SortedDesc(t) by {
        forall i, j | 0 <= i < j < |t| ensures !Outranks(t[j], t[i]) {
          assert t[i] == s[i + 1] && t[j] == s[j + 1];
        }
      }
      InsertSorted(t, x);
      InsertPermutes(t, x);
      var r := Insert(t, x);
      forall j | 0 <= j < |r| ensures !Outranks(r[j], s[0]) {
        assert r[j] in multiset(r);
        if r[j] != x {
          assert r[j] in multiset(t);
          var k :| 0 <= k < |t| && t[k] == r[j];
          assert s[k + 1] == r[j];
        }
      }
      assert Insert(s, x) == [s[0]] + r;
    } else if |s| > 0 {
      forall j | 0 <= j < |s| ensures !Outranks(s[j], x) {
        assert !Outranks(s[j], s[0]) || j == 0;
      }
      assert Insert(s, x) == [x] + s;
    }
  }

  /** In a sorted list headed by an element `x` outranks, `x` outranks every
      element, so none shares its key. */
  lemma OutranksAll(s: seq<Candidate>, x: Candidate)
    requires SortedDesc(s) && |s| > 0 && Outranks(x, s[0])
    ensures forall y :: y in s ==> Outranks(x, y)
  {
    forall y | y in s ensures Outranks(x, y) {
      var j :| 0 <= j < |s| && s[j] == y;
      assert j == 0 || !Outranks(s[j], s[0]);
    }
  }

  /** The candidates whose key is `k`, in order. */
  function WithKey(s: seq<Candidate>, k: (real, nat)): seq<Candidate> {
    Filter(s, c => Key(c) == k)
  }

  lemma {:induction false} NoneWithKey(s: seq<Candidate>, k: (real, nat))
    requires forall y :: y in s ==> Key(y) != k
    ensures WithKey(s, k) == []
    decreases |s|
  {
    if |s| > 0 {
      assert s[0] in s;
      assert forall y :: y in s[1..] ==> y in s;
      NoneWithKey(s[1..], k);
    }
  }

  /** Inserting `x` puts it after every element with the same key. */
  lemma {:induction false} InsertStable(s: seq<Candidate>, x: Candidate, k: (real, nat))
    requires SortedDesc(s)
    ensures WithKey(Insert(s, x), k) == WithKey(s, k) + WithKey([x], k)
    decreases |s|
  {
    var f := c => Key(c) == k;
    if |s| == 0 {
    } else if Outranks(x, s[0]) {
      FilterAppend([x], s, f);
      if Key(x) == k {
        OutranksAll(s, x);
        NoneWithKey(s, k);
      }
      assert WithKey([x], k) == Filter([x], f);
    } else {
      var t := s[1..];
      assert SortedDesc(t) by {
        forall i, j | 0 <= i < j < |t| ensures !Outranks(t[j], t[i]) {
          assert t[i] == s[i + 1] && t[j] == s[j + 1];
        }
      }
      InsertStable(t, x, k);
      FilterAppend([s[0]], Insert(t, x), f);
      FilterAppend([s[0]], t, f);
      assert [s[0]] + t == s;
      assert Insert(s, x) == [s[0]] + Insert(t, x);
    }
  }

  /** `result_candidates.sort(key=..., reverse=True)`: insertion sort, each
      element inserted after everything already placed with the same key. */
  function SortDesc(s: seq<Candidate>): (r: seq<Candidate>)
    ensures |r| == |s|
    ensures multiset(r) == multiset(s)
    decreases |s|
  {
    if |s| == 0 then []
    else
      var n := |s| - 1;
      var sorted := SortDesc(s[..n]);
      InsertPermutes(sorted, s[n]);
      assert s == s[..n] + [s[n]];
      Insert(sorted, s[n])
  }

  /** The sorted list is a permutation of the candidates, ordered by key,
      largest first. */
  lemma {:induction false} SortDescSpec(s: seq<Candidate>)
    ensures SortedDesc(SortDesc(s))
    ensures multiset(SortDesc(s)) == multiset(s)
    decreases |s|
  {
    if |s| > 0 {
      var n := |s| - 1;
      SortDescSpec(s[..n]);
      InsertSorted(SortDesc(s[..n]), s[n]);
    }
  }

  /** The sort is stable: candidates with equal keys keep their relative
      order. In particular the first candidate of the sorted list is, among
      the input candidates with its key, the first one. */
  lemma {:induction false} SortDescStable(s: seq<Candidate>, k: (real, nat))
    ensures WithKey(SortDesc(s), k) == WithKey(s, k)
    decreases |s|
  {
    if |s| > 0 {
      var n := |s| - 1;
      SortDescStable(s[..n], k);
      SortDescSpec(s[..n]);
      InsertStable(SortDesc(s[..n]), s[n], k);
      assert s == s[..n] + [s[n]];
      FilterAppend(s[..n], [s[n]], c => Key(c) == k);
    }
  }

  /** The head of the sorted list is the first input candidate with its key:
      of several candidates tied for the top, the earliest wins. */
  lemma SortDescHead(s: seq<Candidate>)
    requires |s| > 0
    ensures var top := SortDesc(s)[0];
      |WithKey(s, Key(top))| > 0 && WithKey(s, Key(top))[0] == top
  {
    var sorted := SortDesc(s);
    var k := Key(sorted[0]);
    SortDescStable(s, k);
    FilterHead(sorted, c => Key(c) == k);
  }

  /** An order-preserving sub-list of a sorted list is sorted. */
  lemma {:induction false} SubseqSorted(a: seq<Candidate>, b: seq<Candidate>)
    requires IsSubseq(a, b) && SortedDesc(b)
    ensures SortedDesc(a)
    decreases |b|
  {
    if |a| > 0 {
      var t := b[1..];
      assert SortedDesc(t) by {
        forall i, j | 0 <= i < j < |t| ensures !Outranks(t[j], t[i]) {
          assert t[i] == b[i + 1] && t[j] == b[j + 1];
        }
      }
      if a[0] == b[0] && IsSubseq(a[1..], t) {
        SubseqSorted(a[1..], t);
        SubseqMembers(a[1..], t);
        forall i, j | 0 <= i < j < |a| ensures !Outranks(a[j], a[i]) {
          if i == 0 {
            assert a[j] == a[1..][j - 1];
            assert a[j] in t;
            var k :| 0 <= k < |t| && t[k] == a[j];
            assert b[k + 1] == a[j];
          } else {
            assert a[i] == a[1..][i - 1] && a[j] == a[1..][j - 1];
          }
        }
      } else {
        SubseqSorted(a, t);
      }
    }
  }

  /** Dropping the head of a sorted list leaves it sorted. */
  lemma SortedTail(s: seq<Candidate>)
    requires SortedDesc(s) && |s| > 0
    ensures SortedDesc(s[1..])
  {
    var t := s[1..];
    forall i, j | 0 <= i < j < |t| ensures !Outranks(t[j], t[i]) {
      assert t[i] == s[i + 1] && t[j] == s[j + 1];
    }
  }

  // ---------------------------------------------------------------- categories

  /** The test of knowledge_base.py:263-267: at least 70% of the top score, or
      within its duration window when the top candidate is not. */
  predicate InSecondary(c: Candidate, top: Candidate) {
    c.score >= 0.7 * top.score || (c.durationOk && !top.durationOk)
  }

  /** The candidates after the top one that pass the test, in order. */
  function Secondary(top: Candidate, others: seq<Candidate>): (r: seq<Candidate>)
    ensures IsSubseq(r, others)
    ensures forall c :: c in r ==> InSecondary(c, top)
  {
    var f := c => InSecondary(c, top);
    FilterIsSubseq(others, f);
    FilterMembers(others, f);
    Filter(others, f)
  }

  /** The candidates after the top one that fail the test, in order. */
  function Other(top: Candidate, others: seq<Candidate>): (r: seq<Candidate>)
    ensures IsSubseq(r, others)
    ensures forall c :: c in r ==> !InSecondary(c, top)
  {
    var g := c => !InSecondary(c, top);
    FilterIsSubseq(others, g);
    FilterMembers(others, g);
    Filter(others, g)
  }

  /** Secondary and other split the remaining candidates: each keeps their
      order, a candidate lands in secondary exactly when it passes the test,
      and together they hold every remaining candidate exactly once. */
  lemma CategorizeSpec(top: Candidate, others: seq<Candidate>)
    ensures IsSubseq(Secondary(top, others), others) && IsSubseq(Other(top, others), others)
    ensures forall c :: c in Secondary(top, others) <==> c in others && InSecondary(c, top)
    ensures forall c :: c in Other(top, others) <==> c in others && !InSecondary(c, top)
    ensures multiset(Secondary(top, others)) + multiset(Other(top, others)) == multiset(others)
  {
    var f, g := c => InSecondary(c, top), c => !InSecondary(c, top);
    FilterIsSubseq(others, f);
    FilterIsSubseq(others, g);
    FilterMembers(others, f);
    FilterMembers(others, g);
    FilterPartition(others, f, g);
  }

  /** With a non-negative top score, a candidate tied with the top one is
      always secondary. */
  lemma TiedIsSecondary(c: Candidate, top: Candidate)
    requires top.score >= 0.0 && c.score == top.score
    ensures InSecondary(c, top)
  {
  }

  /** With a negative top score the 70% threshold lies above every score, so
      only the duration rule can make a candidate secondary. */
  lemma ThresholdWhenTopNegative(c: Candidate, top: Candidate)
    requires top.score < 0.0 && !Outranks(c, top)
    ensures InSecondary(c, top) <==> c.durationOk && !top.durationOk
  {
  }
}
