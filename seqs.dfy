/** Sequence operations shared by the services and pages: the `Set`
    de-duplication and `filter(x => x !== v)` on lists of strings, and the
    subsequence relation that describes "keeps the original order". */
module Seqs {

  ghost predicate Distinct<T>(s: seq<T>) {
    forall i, j :: 0 <= i < j < |s| ==> s[i] != s[j]
  }

  /** De-duplication through a `Set`: the first occurrence of every element, in order. */
  function Dedup(s: seq<string>): (r: seq<string>)
    ensures forall x :: x in r <==> x in s
    ensures Distinct(r)
  {
    if s == [] then []
    else
      var init, last := s[..|s| - 1], s[|s| - 1];
      assert s == init + [last];
      if last in init then Dedup(init) else Dedup(init) + [last]
  }

  lemma DedupSnoc(s: seq<string>, x: string)
    ensures Dedup(s + [x]) == if x in s then Dedup(s) else Dedup(s) + [x]
  {
    assert (s + [x])[..|s|] == s;
  }

  /** `s` without the entries equal to `x`, the others in order. */
  function RemoveAll(s: seq<string>, x: string): (r: seq<string>)
    ensures x !in r
    ensures forall y :: y in r <==> y in s && y != x
    ensures forall y :: y != x ==> multiset(r)[y] == multiset(s)[y]
  {
    if s == [] then []
    else
      var init, last := s[..|s| - 1], s[|s| - 1];
      assert s == init + [last];
      RemoveAll(init, x) + (if last == x then [] else [last])
  }

  /** `idx` embeds `a` into `b`: positions strictly increase and pick out `a`'s elements. */
  ghost predicate EmbedsBy<T>(a: seq<T>, b: seq<T>, idx: seq<nat>) {
    && |idx| == |a|
    && (forall k :: 0 <= k < |idx| ==> idx[k] < |b| && a[k] == b[idx[k]])
    && (forall k, l :: 0 <= k < l < |idx| ==> idx[k] < idx[l])
  }

  /** `a` is `b` with some elements left out, the rest in their original order. */
  ghost predicate IsSubsequence<T>(a: seq<T>, b: seq<T>) {
    exists idx :: EmbedsBy(a, b, idx)
  }

  lemma SubsequenceRefl<T>(s: seq<T>)
    ensures IsSubsequence(s, s)
  {
    var idx := seq(|s|, k requires 0 <= k < |s| => k as nat);
    assert EmbedsBy(s, s, idx);
  }

  /** Appending one element to the larger sequence, or to both, keeps the relation. */
  lemma SubsequenceSnoc<T>(a: seq<T>, b: seq<T>, x: T)
    requires IsSubsequence(a, b)
    ensures IsSubsequence(a, b + [x])
    ensures IsSubsequence(a + [x], b + [x])
  {
    var idx :| EmbedsBy(a, b, idx);
    assert EmbedsBy(a, b + [x], idx);
    assert EmbedsBy(a + [x], b + [x], idx + [|b| as nat]);
  }

  lemma SubsequenceTrans<T>(a: seq<T>, b: seq<T>, c: seq<T>)
    requires IsSubsequence(a, b) && IsSubsequence(b, c)
    ensures IsSubsequence(a, c)
  {
    var ab :| EmbedsBy(a, b, ab);
    var bc :| EmbedsBy(b, c, bc);
    var ac := seq(|ab|, k requires 0 <= k < |ab| => bc[ab[k]]);
    assert EmbedsBy(a, c, ac);
  }

  lemma {:induction false} DedupSubsequence(s: seq<string>)
    ensures IsSubsequence(Dedup(s), s)
  {
    if s == [] {
      SubsequenceRefl(s);
    } else {
      var init, last := s[..|s| - 1], s[|s| - 1];
      assert s == init + [last];
      DedupSubsequence(init);
      DedupSnoc(init, last);
      SubsequenceSnoc(Dedup(init), init, last);
    }
  }

  /** `idx` embeds `a` into `b` at exactly the positions where an element of
      `b` occurs for the first time. */
  ghost predicate AtFirstOccurrences(a: seq<string>, b: seq<string>, idx: seq<nat>) {
    && EmbedsBy(a, b, idx)
    && (forall k :: 0 <= k < |idx| ==> b[idx[k]] !in b[..idx[k]])
    && (forall j :: 0 <= j < |b| && b[j] !in b[..j] ==> j in idx)
  }

  /** `Dedup` keeps the first occurrence of every element and nothing else,
      in the order of those occurrences. */
  lemma {:induction false} DedupFirstOccurrences(s: seq<string>)
    ensures exists idx :: AtFirstOccurrences(Dedup(s), s, idx)
  {
    if s == [] {
      assert AtFirstOccurrences(Dedup(s), s, []);
    } else {
      var init, last := s[..|s| - 1], s[|s| - 1];
      assert s == init + [last];
      DedupFirstOccurrences(init);
      DedupSnoc(init, last);
      var idx :| AtFirstOccurrences(Dedup(init), init, idx);
      if last in init {
        FirstOccurrencesRepeat(Dedup(init), init, idx, last);
      } else {
        FirstOccurrencesNew(Dedup(init), init, idx, last);
      }
    }
  }

  /** A repeated element adds no first occurrence. */
  lemma FirstOccurrencesRepeat(a: seq<string>, b: seq<string>, idx: seq<nat>, x: string)
    requires AtFirstOccurrences(a, b, idx) && x in b
    ensures AtFirstOccurrences(a, b + [x], idx)
  {
    var b' := b + [x];
    assert b'[..|b|] == b;
    assert forall j :: 0 <= j < |b| ==> b'[..j] == b[..j];
    assert forall k :: 0 <= k < |idx| ==> b'[idx[k]] == b[idx[k]];
  }

  /** A new element is a first occurrence at the end. */
  lemma FirstOccurrencesNew(a: seq<string>, b: seq<string>, idx: seq<nat>, x: string)
    requires AtFirstOccurrences(a, b, idx) && x !in b
    ensures AtFirstOccurrences(a + [x], b + [x], idx + [|b| as nat])
  {
    var b' := b + [x];
    assert b'[..|b|] == b;
    assert forall j :: 0 <= j < |b| ==> b'[..j] == b[..j];
    assert forall k :: 0 <= k < |idx| ==> b'[idx[k]] == b[idx[k]];
  }

  lemma {:induction false} RemoveAllSubsequence(s: seq<string>, x: string)
    ensures IsSubsequence(RemoveAll(s, x), s)
  {
    if s == [] {
      SubsequenceRefl(s);
    } else {
      var init, last := s[..|s| - 1], s[|s| - 1];
      assert s == init + [last];
      RemoveAllSubsequence(init, x);
      SubsequenceSnoc(RemoveAll(init, x), init, last);
      if last != x {
        assert RemoveAll(s, x) == RemoveAll(init, x) + [last];
      } else {
        assert RemoveAll(s, x) == RemoveAll(init, x);
      }
    }
  }

  /** Removing an element that is absent changes nothing. */
  lemma {:induction false} RemoveAllAbsent(s: seq<string>, x: string)
    requires x !in s
    ensures RemoveAll(s, x) == s
  {
    if s != [] {
      var init := s[..|s| - 1];
      assert s == init + [s[|s| - 1]];
      RemoveAllAbsent(init, x);
    }
  }

  /** Appending an absent value and removing it again gives the original. */
  lemma {:induction false} RemoveAllSnocAbsent(s: seq<string>, x: string)
    requires x !in s
    ensures RemoveAll(s + [x], x) == s
  {
    assert (s + [x])[..|s|] == s;
    RemoveAllAbsent(s, x);
  }

  /** The distinct elements are still distinct after a removal. */
  lemma RemoveAllDistinct(s: seq<string>, x: string)
    requires Distinct(s)
    ensures Distinct(RemoveAll(s, x))
  {
    RemoveAllSubsequence(s, x);
    var r := RemoveAll(s, x);
    var idx :| EmbedsBy(r, s, idx);
    forall i, j | 0 <= i < j < |r| ensures r[i] != r[j] {
      assert r[i] == s[idx[i]] && r[j] == s[idx[j]];
    }
  }

  /** A sequence is duplicate-free exactly when no element occurs twice. */
  lemma {:induction false} DistinctCounts<T>(s: seq<T>)
    ensures Distinct(s) <==> forall i :: 0 <= i < |s| ==> multiset(s)[s[i]] == 1
  {
    if s != [] {
      var init, last := s[..|s| - 1], s[|s| - 1];
      assert s == init + [last];
      DistinctCounts(init);
      if Distinct(s) {
        forall i | 0 <= i < |s| ensures multiset(s)[s[i]] == 1 {
          if i < |init| {
            assert init[i] == s[i] && s[i] != last;
          }
        }
      } else {
        var i, j :| 0 <= i < j < |s| && s[i] == s[j];
        if j < |init| {
          assert init[i] == init[j];
          assert !Distinct(init);
          var k :| 0 <= k < |init| && multiset(init)[init[k]] != 1;
          assert init[k] in init;
          assert s[k] == init[k];
        } else {
          assert s[i] in init;
          assert multiset(s)[s[i]] == multiset(init)[s[i]] + 1;
        }
      }
    }
  }

  /** Rearranging a duplicate-free sequence leaves it duplicate-free. */
  lemma DistinctPermutation<T>(a: seq<T>, b: seq<T>)
    requires Distinct(a) && multiset(a) == multiset(b)
    ensures Distinct(b)
  {
    DistinctCounts(a);
    DistinctCounts(b);
    forall i | 0 <= i < |b| ensures multiset(b)[b[i]] == 1 {
      assert b[i] in multiset(a);
      var k :| 0 <= k < |a| && a[k] == b[i];
    }
  }
}
