/** Sequence vocabulary shared by the matcher: duplicate freedom, order-preserving
    sub-lists, first occurrences, and the order-keeping de-duplication the
    tokenizer performs (knowledge_base.py:110-116). */
module Seqs {
  import opened Optional

  /** No element occurs twice. */
  predicate NoDup<T(==)>(s: seq<T>) {
    forall i, j :: 0 <= i < j < |s| ==> s[i] != s[j]
  }

  /** `a` is obtained from `b` by deleting elements: an order-preserving sub-list. */
  predicate IsSubseq<T(==)>(a: seq<T>, b: seq<T>)
    decreases |b|
  {
    |a| == 0 || (|b| > 0 && ((a[0] == b[0] && IsSubseq(a[1..], b[1..])) || IsSubseq(a, b[1..])))
  }

  /** A sub-list only holds elements of the list it was taken from. */
  lemma {:induction false} SubseqMembers<T>(a: seq<T>, b: seq<T>)
    requires IsSubseq(a, b)
    ensures forall x :: x in a ==> x in b
    decreases |b|
  {
    if |a| == 0 {
    } else if a[0] == b[0] && IsSubseq(a[1..], b[1..]) {
      SubseqMembers(a[1..], b[1..]);
      forall x | x in a ensures x in b {
        if x != a[0] {
          assert x in a[1..];
        }
      }
    } else {
      SubseqMembers(a, b[1..]);
      forall x | x in a ensures x in b {
        assert x in b[1..];
      }
    }
  }

  /** A sub-list of a duplicate-free list is duplicate-free. */
  lemma {:induction false} SubseqNoDup<T>(a: seq<T>, b: seq<T>)
    requires IsSubseq(a, b) && NoDup(b)
    ensures NoDup(a)
    decreases |b|
  {
    if |a| == 0 {
    } else if a[0] == b[0] && IsSubseq(a[1..], b[1..]) {
      assert NoDup(b[1..]) by {
        forall i, j | 0 <= i < j < |b[1..]| ensures b[1..][i] != b[1..][j] {
          assert b[1..][i] == b[i + 1] && b[1..][j] == b[j + 1];
        }
      }
      SubseqNoDup(a[1..], b[1..]);
      SubseqMembers(a[1..], b[1..]);
      forall i, j | 0 <= i < j < |a| ensures a[i] != a[j] {
        if i == 0 {
          assert a[j] == a[1..][j - 1];
          assert a[j] in b[1..];
          var k :| 0 <= k < |b[1..]| && b[1..][k] == a[j];
          assert b[k + 1] == a[j];
        } else {
          assert a[i] == a[1..][i - 1] && a[j] == a[1..][j - 1];
        }
      }
    } else {
      assert NoDup(b[1..]) by {
        forall i, j | 0 <= i < j < |b[1..]| ensures b[1..][i] != b[1..][j] {
          assert b[1..][i] == b[i + 1] && b[1..][j] == b[j + 1];
        }
      }
      SubseqNoDup(a, b[1..]);
    }
  }

  /** Position of the first occurrence of `x` in `s`, or `|s|` when `x` is absent. */
  function FirstIndex<T(==)>(s: seq<T>, x: T): (r: nat)
    ensures r <= |s|
    ensures r < |s| <==> x in s
    ensures r < |s| ==> s[r] == x
    ensures x !in s[..r]
  {
    if |s| == 0 then 0
    else if s[0] == x then 0
    else
      var k := FirstIndex(s[1..], x);
      assert s[1..][..k] == s[1..k + 1];
      assert s[..k + 1] == [s[0]] + s[1..k + 1];
      k + 1
  }

  /** The first occurrence is the unique position holding `x` with no earlier `x`. */
  lemma FirstIndexUnique<T>(s: seq<T>, k: nat, x: T)
    requires k < |s| && s[k] == x && x !in s[..k]
    ensures FirstIndex(s, x) == k
  {
  }

  /** Elements of a prefix have the same first occurrence in the whole list. */
  lemma FirstIndexPrefix<T>(s: seq<T>, m: nat, x: T)
    requires m <= |s| && x in s[..m]
    ensures FirstIndex(s, x) == FirstIndex(s[..m], x)
  {
    var k := FirstIndex(s[..m], x);
    assert s[..m][..k] == s[..k];
    FirstIndexUnique(s, k, x);
  }

  /** `FirstIndexPrefix` for every element of the prefix at once. */
  lemma FirstIndexPrefixAll<T>(s: seq<T>, m: nat)
    requires m <= |s|
    ensures forall y :: y in s[..m] ==> FirstIndex(s, y) == FirstIndex(s[..m], y) < m
  {
    forall y | y in s[..m] ensures FirstIndex(s, y) == FirstIndex(s[..m], y) < m {
      FirstIndexPrefix(s, m, y);
    }
  }

  /** `r` lists its elements in the order in which they first occur in `s`. */
  predicate InFirstOccurrenceOrder<T(==)>(r: seq<T>, s: seq<T>) {
    forall i, j :: 0 <= i < j < |r| ==> FirstIndex(s, r[i]) < FirstIndex(s, r[j])
  }

  /** Keeps the first occurrence of every element and drops the repeats: the
      `seen`/`out` loop of the tokenizer. */
  function Dedup<T(==,!new)>(s: seq<T>): (r: seq<T>)
    ensures NoDup(r)
    ensures forall x :: x in r <==> x in s
    ensures InFirstOccurrenceOrder(r, s)
    decreases |s|
  {
    if |s| == 0 then []
    else
      var n := |s| - 1;
      var d := Dedup(s[..n]);
      var x := s[n];
      assert s[..n + 1] == s;
      FirstIndexPrefixAll(s, n);
      if x in d then d
      else
        FirstIndexUnique(s, n, x);
        d + [x]
  }

  /** The elements of `s` that satisfy `f`, in their order in `s`: a list
      comprehension with an `if`. */
  function Filter<T>(s: seq<T>, f: T -> bool): (r: seq<T>)
    ensures |r| <= |s|
    decreases |s|
  {
    if |s| == 0 then []
    else
      var rest := Filter(s[1..], f);
      if f(s[0]) then [s[0]] + rest else rest
  }

  /** A filtered list is an order-preserving sub-list of the original. */
  lemma {:induction false} FilterIsSubseq<T>(s: seq<T>, f: T -> bool)
    ensures IsSubseq(Filter(s, f), s)
    decreases |s|
  {
    if |s| > 0 {
      FilterIsSubseq(s[1..], f);
      var rest := Filter(s[1..], f);
      if f(s[0]) {
        assert ([s[0]] + rest)[1..] == rest;
      }
    }
  }

  /** Filtering keeps every occurrence of an accepted element and none of a
      rejected one. */
  lemma {:induction false} FilterCount<T>(s: seq<T>, f: T -> bool, x: T)
    ensures multiset(Filter(s, f))[x] == if f(x) then multiset(s)[x] else 0
    decreases |s|
  {
    if |s| > 0 {
      FilterCount(s[1..], f, x);
      assert s == [s[0]] + s[1..];
    }
  }

  /** An element survives filtering exactly when it occurs and is accepted. */
  lemma FilterMembers<T>(s: seq<T>, f: T -> bool)
    ensures forall x :: x in Filter(s, f) <==> x in s && f(x)
  {
    forall x ensures x in Filter(s, f) <==> x in s && f(x) {
      FilterCount(s, f, x);
      assert x in Filter(s, f) <==> multiset(Filter(s, f))[x] > 0;
      assert x in s <==> multiset(s)[x] > 0;
    }
  }

  /** Filtering by a test and by its negation splits the list: together the
      two parts hold every element exactly as often as the list does. */
  lemma {:induction false} FilterPartition<T>(s: seq<T>, f: T -> bool, g: T -> bool)
    requires forall x :: g(x) == !f(x)
    ensures multiset(Filter(s, f)) + multiset(Filter(s, g)) == multiset(s)
    decreases |s|
  {
    if |s| > 0 {
      FilterPartition(s[1..], f, g);
      assert s == [s[0]] + s[1..];
      assert g(s[0]) == !f(s[0]);
    }
  }

  /** Filtering distributes over concatenation. */
  lemma {:induction false} FilterAppend<T>(a: seq<T>, b: seq<T>, f: T -> bool)
    ensures Filter(a + b, f) == Filter(a, f) + Filter(b, f)
    decreases |a|
  {
    if |a| > 0 {
      FilterAppend(a[1..], b, f);
      assert (a + b)[1..] == a[1..] + b;
    } else {
      assert a + b == b;
    }
  }

  /** The values `f` yields on the elements of `s`, in order, skipping the
      elements it yields nothing for. */
  function FilterMap<A, B>(s: seq<A>, f: A -> Option<B>): (r: seq<B>)
    ensures |r| <= |s|
    decreases |s|
  {
    if |s| == 0 then []
    else
      var rest := FilterMap(s[1..], f);
      match f(s[0])
      case Some(y) => [y] + rest
      case None => rest
  }

  /** A value is in the result exactly when `f` yields it on some element. */
  lemma {:induction false} FilterMapMembers<A, B>(s: seq<A>, f: A -> Option<B>)
    ensures forall y :: y in FilterMap(s, f) <==> exists j :: 0 <= j < |s| && f(s[j]) == Some(y)
    decreases |s|
  {
    if |s| > 0 {
      FilterMapMembers(s[1..], f);
      forall y ensures y in FilterMap(s, f) <==> exists j :: 0 <= j < |s| && f(s[j]) == Some(y) {
        if exists j :: 0 <= j < |s| && f(s[j]) == Some(y) {
          var j :| 0 <= j < |s| && f(s[j]) == Some(y);
          if j > 0 {
            assert s[1..][j - 1] == s[j];
          }
        }
        if y in FilterMap(s[1..], f) {
          var j :| 0 <= j < |s[1..]| && f(s[1..][j]) == Some(y);
          assert s[1..][j] == s[j + 1];
        }
      }
    }
  }

  /** Nothing survives exactly when `f` rejects every element. */
  lemma {:induction false} FilterMapEmpty<A, B>(s: seq<A>, f: A -> Option<B>)
    ensures |FilterMap(s, f)| == 0 <==> forall j :: 0 <= j < |s| ==> f(s[j]).None?
    decreases |s|
  {
    if |s| > 0 {
      FilterMapEmpty(s[1..], f);
      assert forall j :: 1 <= j < |s| ==> s[1..][j - 1] == s[j];
    }
  }

  /** Filter-mapping distributes over concatenation. */
  lemma {:induction false} FilterMapAppend<A, B>(a: seq<A>, b: seq<A>, f: A -> Option<B>)
    ensures FilterMap(a + b, f) == FilterMap(a, f) + FilterMap(b, f)
    decreases |a|
  {
    if |a| > 0 {
      FilterMapAppend(a[1..], b, f);
      assert (a + b)[1..] == a[1..] + b;
    } else {
      assert a + b == b;
    }
  }

  /** Elements that `f` maps alike can stand for one another at the head. */
  lemma FilterMapSwapHead<A, B>(a: A, b: A, rest: seq<A>, f: A -> Option<B>)
    requires f(a) == f(b)
    ensures FilterMap([a] + rest, f) == FilterMap([b] + rest, f)
  {
    assert ([a] + rest)[1..] == rest;
    assert ([b] + rest)[1..] == rest;
  }

  /** Elements that `f` maps alike can stand for one another at the front. */
  lemma FilterMapSwapFirst<A, B>(s: seq<A>, a: A, r: seq<A>, f: A -> Option<B>)
    requires |s| > 0 && r == [a] + s[1..] && f(a) == f(s[0])
    ensures FilterMap(r, f) == FilterMap(s, f)
  {
    FilterMapSwapHead(a, s[0], s[1..], f);
    assert [s[0]] + s[1..] == s;
  }

  /** Elements that `f` maps alike can stand for one another at the end. */
  lemma FilterMapSwapLast<A, B>(s: seq<A>, a: A, r: seq<A>, f: A -> Option<B>)
    requires |s| > 0 && r == s[..|s| - 1] + [a] && f(a) == f(s[|s| - 1])
    ensures FilterMap(r, f) == FilterMap(s, f)
  {
    var init := s[..|s| - 1];
    FilterMapAppend(init, [a], f);
    FilterMapAppend(init, [s[|s| - 1]], f);
    FilterMapSwapHead(a, s[|s| - 1], [], f);
    assert [a] + [] == [a];
    assert [s[|s| - 1]] + [] == [s[|s| - 1]];
    assert init + [s[|s| - 1]] == s;
  }

  /** When the first element passes, it heads the filtered list. */
  lemma FilterHead<T>(s: seq<T>, f: T -> bool)
    requires |s| > 0 && f(s[0])
    ensures |Filter(s, f)| > 0 && Filter(s, f)[0] == s[0]
  {
  }
}
