/**
 * The list contents that the set operations of MyDlist compute, as
 * sequences of words: duplicate stripping, and the nested-loop
 * intersection. All are defined from the end, the way the loops append.
 */
module WordSets {
  import opened Sequences

  /** No word occurs twice. */
  predicate NoDup(s: seq<string>) {
    forall i, j :: 0 <= i < j < |s| ==> s[i] != s[j]
  }

  /** The first occurrence of every word, in order. */
  function Dedup(s: seq<string>): seq<string> {
    if |s| == 0 then []
    else
      var init := s[..|s| - 1];
      Dedup(init) + (if s[|s| - 1] in init then [] else [s[|s| - 1]])
  }

  /** s without the occurrences of x. */
  function Without(s: seq<string>, x: string): seq<string> {
    if |s| == 0 then []
    else Without(s[..|s| - 1], x) + (if s[|s| - 1] == x then [] else [s[|s| - 1]])
  }

  /** One copy of x for every word of b equal to it (the inner loop of actualIntersection). */
  function Matches(x: string, b: seq<string>): seq<string> {
    if |b| == 0 then []
    else Matches(x, b[..|b| - 1]) + (if b[|b| - 1] == x then [x] else [])
  }

  /** For each word of s in order, its copies matched in b (actualIntersection). */
  function Inter(s: seq<string>, b: seq<string>): seq<string> {
    if |s| == 0 then []
    else Inter(s[..|s| - 1], b) + Matches(s[|s| - 1], b)
  }

  /** Appending a word: the definitions of Dedup, Without, Matches and Inter unfolded at s + [y]. */
  lemma Snoc(s: seq<string>, y: string, x: string, b: seq<string>)
    ensures Dedup(s + [y]) == Dedup(s) + (if y in s then [] else [y])
    ensures Without(s + [y], x) == Without(s, x) + (if y == x then [] else [y])
    ensures Matches(x, s + [y]) == Matches(x, s) + (if y == x then [x] else [])
    ensures Inter(s + [y], b) == Inter(s, b) + Matches(y, b)
  {
    assert (s + [y])[..|s|] == s;
  }

  // ---------------------------------------------------------------- stripDuplicates and union

  /** Dedup keeps exactly the words of s. */
  lemma {:induction false} DedupMembership(s: seq<string>, x: string)
    ensures x in Dedup(s) <==> x in s
  {
    if |s| > 0 {
      var init := s[..|s| - 1];
      DedupMembership(init, x);
      assert s == init + [s[|s| - 1]];
    }
  }

  /** Dedup keeps each word once. */
  lemma {:induction false} DedupNoDup(s: seq<string>)
    ensures NoDup(Dedup(s))
  {
    if |s| > 0 {
      var init := s[..|s| - 1];
      var y := s[|s| - 1];
      DedupNoDup(init);
      if y !in init {
        DedupMembership(init, y);
        var d := Dedup(s);
        forall i, j | 0 <= i < j < |d| ensures d[i] != d[j] {
          if j == |d| - 1 {
            assert d[i] in Dedup(init);
          }
        }
      }
    }
  }

  /** A list without duplicates is its own Dedup. */
  lemma {:induction false} DedupOfNoDup(s: seq<string>)
    requires NoDup(s)
    ensures Dedup(s) == s
  {
    if |s| > 0 {
      var init := s[..|s| - 1];
      assert NoDup(init);
      DedupOfNoDup(init);
      assert s[|s| - 1] !in init by {
        forall i | 0 <= i < |init| ensures init[i] != s[|s| - 1] {
          assert s[i] != s[|s| - 1];
        }
      }
      assert s == init + [s[|s| - 1]];
    }
  }

  /** Dedup keeps words in their order in s: it is a subsequence of s. */
  lemma {:induction false} DedupSubsequence(s: seq<string>)
    ensures IsSubsequence(Dedup(s), s)
  {
    if |s| == 0 {
    } else {
      var init := s[..|s| - 1];
      var y := s[|s| - 1];
      DedupSubsequence(init);
      assert s == init + [y];
      Snoc(init, y, y, []);
      if y in init {
        assert Dedup(s) == Dedup(init);
        AppendRight(Dedup(init), init, y);
      } else {
        assert Dedup(s) == Dedup(init) + [y];
        AppendBoth(Dedup(init), init, y);
      }
    }
  }

  /** Without removes exactly the occurrences of x. */
  lemma {:induction false} WithoutMembership(s: seq<string>, x: string, y: string)
    ensures y in Without(s, x) <==> y in s && y != x
  {
    if |s| > 0 {
      var init := s[..|s| - 1];
      WithoutMembership(init, x, y);
      assert s == init + [s[|s| - 1]];
    }
  }

  /**
   * Removing the later occurrences of a word that already occurs in the
   * prefix p does not change the first occurrences: this is what one round
   * of stripDuplicates' outer loop relies on.
   */
  lemma {:induction false} DedupWithout(p: seq<string>, t: seq<string>, x: string)
    requires x in p
    ensures Dedup(p + Without(t, x)) == Dedup(p + t)
  {
    if |t| > 0 {
      var t' := t[..|t| - 1];
      var y := t[|t| - 1];
      DedupWithout(p, t', x);
      assert t == t' + [y];
      assert p + t == (p + t') + [y];
      Snoc(p + t', y, x, []);
      Snoc(t', y, x, []);
      if y == x {
        assert Without(t, x) == Without(t', x);
      } else {
        assert p + Without(t, x) == (p + Without(t', x)) + [y];
        Snoc(p + Without(t', x), y, x, []);
        WithoutMembership(t', x, y);
        assert y in p + Without(t', x) <==> y in p + t';
      }
    } else {
      assert Without(t, x) == t;
    }
  }

  /** union: the result holds every word of u or v exactly once, in order of first occurrence. */
  lemma UnionContents(u: seq<string>, v: seq<string>, x: string)
    ensures NoDup(Dedup(u + v))
    ensures x in Dedup(u + v) <==> x in u || x in v
    ensures IsSubsequence(Dedup(u + v), u + v)
  {
    DedupNoDup(u + v);
    DedupMembership(u + v, x);
    DedupSubsequence(u + v);
  }

  /**
   * The outer loop of stripDuplicates has handled the first p words: they
   * are pairwise distinct and none of them occurs again after position p.
   */
  ghost predicate StrippedUpTo(s: seq<string>, p: int)
    requires 0 <= p <= |s|
  {
    NoDup(s[..p]) && forall i :: 0 <= i < p ==> s[i] !in s[p..]
  }

  /** The word at p splits s into the words before it and the words after it. */
  lemma SplitAround(s: seq<string>, p: int)
    requires 0 <= p < |s|
    ensures s[..p + 1] == s[..p] + [s[p]] && s[p..] == [s[p]] + s[p + 1..]
  {
  }

  /**
   * One round of the outer loop: removing the later copies of s[p] keeps
   * the first occurrences and extends the handled prefix by one word.
   */
  lemma StripRound(s: seq<string>, p: int)
    requires 0 <= p < |s| && StrippedUpTo(s, p)
    ensures |s[..p + 1] + Without(s[p + 1..], s[p])| > p
    ensures StrippedUpTo(s[..p + 1] + Without(s[p + 1..], s[p]), p + 1)
    ensures Dedup(s[..p + 1] + Without(s[p + 1..], s[p])) == Dedup(s)
  {
    var x := s[p];
    var w := Without(s[p + 1..], x);
    var s' := s[..p + 1] + w;
    assert s[..p + 1] + s[p + 1..] == s;
    DedupWithout(s[..p + 1], s[p + 1..], x);
    SplitAround(s, p);
    assert s'[..p + 1] == s[..p + 1] && s'[p + 1..] == w;
    assert x !in s[..p] by {
      forall i | 0 <= i < p ensures s[i] != x {
        assert x in s[p..];
      }
    }
    forall i, j | 0 <= i < j < p + 1 ensures s'[i] != s'[j] {
      if j < p {
        assert s[..p][i] == s[i] && s[..p][j] == s[j];
      }
    }
    forall i | 0 <= i < p + 1 ensures s'[i] !in w {
      WithoutMembership(s[p + 1..], x, s'[i]);
    }
  }

  /** When the outer loop has handled every word, the list is its own Dedup. */
  lemma StrippedAll(s: seq<string>)
    requires StrippedUpTo(s, |s|)
    ensures Dedup(s) == s
  {
    assert s[..|s|] == s;
    DedupOfNoDup(s);
  }

  // ---------------------------------------------------------------- intersection

  /** The copies matched for x are as many as the occurrences of x in b. */
  lemma {:induction false} MatchesCount(x: string, b: seq<string>, y: string)
    ensures multiset(Matches(x, b))[y] == if y == x then multiset(b)[x] else 0
  {
    if |b| > 0 {
      var b' := b[..|b| - 1];
      MatchesCount(x, b', y);
      assert b == b' + [b[|b| - 1]];
    }
  }

  /**
   * Each word occurs in the intersection as often as the product of its
   * occurrences in the two lists; so the result does not depend on which
   * list the outer loop runs over.
   */
  lemma {:induction false} InterCount(s: seq<string>, b: seq<string>, y: string)
    ensures multiset(Inter(s, b))[y] == multiset(s)[y] * multiset(b)[y]
  {
    if |s| > 0 {
      var s', x := s[..|s| - 1], s[|s| - 1];
      assert s == s' + [x];
      InterCount(s', b, y);
      InterCountStep(s', x, b, y);
    }
  }

  /** The step of InterCount: one more word at the end of the outer list. */
  lemma InterCountStep(s: seq<string>, x: string, b: seq<string>, y: string)
    requires multiset(Inter(s, b))[y] == multiset(s)[y] * multiset(b)[y]
    ensures multiset(Inter(s + [x], b))[y] == multiset(s + [x])[y] * multiset(b)[y]
  {
    MatchesCount(x, b, y);
    Snoc(s, x, x, b);
    var m, n := multiset(s)[y], multiset(b)[y];
    assert multiset(Inter(s + [x], b))[y] == m * n + multiset(Matches(x, b))[y];
    if x == y {
      assert multiset(s + [x])[y] == m + 1;
      OneMore(m, n);
    } else {
      assert multiset(s + [x])[y] == m;
    }
  }

  lemma OneMore(m: int, n: int)
    ensures m * n + n == (m + 1) * n
  {
  }

  /** A word is in the intersection exactly when it is in both lists. */
  lemma InterMembership(s: seq<string>, b: seq<string>, y: string)
    ensures y in Inter(s, b) <==> y in s && y in b
  {
    InterCount(s, b, y);
    assert y in Inter(s, b) <==> multiset(Inter(s, b))[y] > 0;
    assert y in s <==> multiset(s)[y] > 0;
    assert y in b <==> multiset(b)[y] > 0;
  }

  /** A list has no duplicates exactly when every word occurs in it at most once. */
  lemma {:induction false} NoDupCounts(s: seq<string>)
    ensures NoDup(s) <==> forall y :: multiset(s)[y] <= 1
  {
    if |s| > 0 {
      var s', x := s[..|s| - 1], s[|s| - 1];
      assert s == s' + [x];
      NoDupCounts(s');
      if NoDup(s) {
        assert NoDup(s');
        assert x !in s' by {
          forall i | 0 <= i < |s'| ensures s'[i] != x {
            assert s[i] != s[|s| - 1];
          }
        }
        forall y ensures multiset(s)[y] <= 1 {
          assert multiset(s)[y] == multiset(s')[y] + (if y == x then 1 else 0);
        }
      }
      if forall y :: multiset(s)[y] <= 1 {
        forall y ensures multiset(s')[y] <= 1 {
          assert multiset(s)[y] == multiset(s')[y] + (if y == x then 1 else 0);
        }
        assert multiset(s)[x] == multiset(s')[x] + 1;
        forall i, j | 0 <= i < j < |s| ensures s[i] != s[j] {
          if j < |s| - 1 {
            assert s'[i] != s'[j];
          } else {
            assert s[i] in s';
          }
        }
      }
    }
  }

  lemma SmallProduct(m: nat, n: nat)
    requires m <= 1 && n <= 1
    ensures m * n <= m && m * n <= n
  {
  }

  /**
   * When both lists are sets (no duplicates), the intersection is a set
   * and holds no word more often than either list does.
   */
  lemma InterOfSets(s: seq<string>, b: seq<string>)
    requires NoDup(s) && NoDup(b)
    ensures NoDup(Inter(s, b))
    ensures multiset(Inter(s, b)) <= multiset(s) && multiset(Inter(s, b)) <= multiset(b)
  {
    NoDupCounts(s);
    NoDupCounts(b);
    forall y ensures multiset(Inter(s, b))[y] <= multiset(s)[y] && multiset(Inter(s, b))[y] <= multiset(b)[y] {
      InterCount(s, b, y);
      SmallProduct(multiset(s)[y], multiset(b)[y]);
    }
    NoDupCounts(Inter(s, b));
  }

  /** Running the outer loop over either list gives the same words with the same multiplicities. */
  lemma InterSymmetric(u: seq<string>, v: seq<string>)
    ensures multiset(Inter(u, v)) == multiset(Inter(v, u))
  {
    forall y ensures multiset(Inter(u, v))[y] == multiset(Inter(v, u))[y] {
      InterCount(u, v, y);
      InterCount(v, u, y);
    }
  }
}
