/**
 * Subsequences of sequences, shared by the substring search and the
 * longest-common-subsequence aligner.
 */
module Sequences {

  /** z can be obtained from a by deleting elements (matched from the end). */
  predicate IsSubsequence<T(==)>(z: seq<T>, a: seq<T>)
    decreases |a|
  {
    |z| == 0 ||
    (|a| > 0 &&
      ((z[|z| - 1] == a[|a| - 1] && IsSubsequence(z[..|z| - 1], a[..|a| - 1])) ||
       IsSubsequence(z, a[..|a| - 1])))
  }

  /** Dropping the last element of z keeps it a subsequence. */
  lemma {:induction false} DropLast<T>(z: seq<T>, a: seq<T>)
    requires |z| > 0 && IsSubsequence(z, a)
    ensures IsSubsequence(z[..|z| - 1], a)
    decreases |a|
  {
    var z' := z[..|z| - 1];
    if |z'| > 0 {
      var a' := a[..|a| - 1];
      if z[|z| - 1] == a[|a| - 1] && IsSubsequence(z', a') {
        assert IsSubsequence(z', a');
      } else {
        DropLast(z, a');
      }
    }
  }

  /** A subsequence is never longer than the sequence it is taken from. */
  lemma {:induction false} SubsequenceLength<T>(z: seq<T>, a: seq<T>)
    requires IsSubsequence(z, a)
    ensures |z| <= |a|
    decreases |a|
  {
    if |z| > 0 {
      var a' := a[..|a| - 1];
      if z[|z| - 1] == a[|a| - 1] && IsSubsequence(z[..|z| - 1], a') {
        SubsequenceLength(z[..|z| - 1], a');
      } else {
        SubsequenceLength(z, a');
      }
    }
  }

  /** A subsequence as long as the whole sequence is the sequence itself. */
  lemma {:induction false} FullSubsequence<T>(z: seq<T>, a: seq<T>)
    requires IsSubsequence(z, a) && |z| == |a|
    ensures z == a
    decreases |a|
  {
    if |z| > 0 {
      var a' := a[..|a| - 1];
      if z[|z| - 1] == a[|a| - 1] && IsSubsequence(z[..|z| - 1], a') {
        FullSubsequence(z[..|z| - 1], a');
        assert z == z[..|z| - 1] + [z[|z| - 1]];
        assert a == a' + [a[|a| - 1]];
      } else {
        SubsequenceLength(z, a');
      }
    }
  }

  /** Every sequence is a subsequence of itself. */
  lemma {:induction false} SelfSubsequence<T>(a: seq<T>)
    ensures IsSubsequence(a, a)
    decreases |a|
  {
    if |a| > 0 {
      SelfSubsequence(a[..|a| - 1]);
    }
  }

  /** Appending the same element to both sides keeps the relation. */
  lemma AppendBoth<T>(z: seq<T>, a: seq<T>, c: T)
    requires IsSubsequence(z, a)
    ensures IsSubsequence(z + [c], a + [c])
  {
    assert (z + [c])[..|z|] == z;
    assert (a + [c])[..|a|] == a;
  }

  /** Appending to the longer side keeps the relation. */
  lemma AppendRight<T>(z: seq<T>, a: seq<T>, c: T)
    requires IsSubsequence(z, a)
    ensures IsSubsequence(z, a + [c])
  {
    assert (a + [c])[..|a|] == a;
  }

  /** Prepending to the longer side keeps the relation. */
  lemma {:induction false} PrependRight<T>(z: seq<T>, a: seq<T>, c: T)
    requires IsSubsequence(z, a)
    ensures IsSubsequence(z, [c] + a)
    decreases |a|
  {
    if |z| > 0 {
      var a' := a[..|a| - 1];
      assert ([c] + a)[..|[c] + a| - 1] == [c] + a';
      if z[|z| - 1] == a[|a| - 1] && IsSubsequence(z[..|z| - 1], a') {
        PrependRight(z[..|z| - 1], a', c);
      } else {
        PrependRight(z, a', c);
      }
    }
  }

  /** Prepending the same element to both sides keeps the relation. */
  lemma {:induction false} PrependBoth<T>(z: seq<T>, a: seq<T>, c: T)
    requires IsSubsequence(z, a)
    ensures IsSubsequence([c] + z, [c] + a)
    decreases |a|
  {
    var cz := [c] + z;
    var ca := [c] + a;
    if |a| == 0 {
      SubsequenceLength(z, a);
      assert cz[..|cz| - 1] == [] && ca[..|ca| - 1] == [];
    } else if |z| == 0 {
      var a' := a[..|a| - 1];
      assert ca[..|ca| - 1] == [c] + a';
      PrependBoth(z, a', c);
    } else {
      var a' := a[..|a| - 1];
      assert ca[..|ca| - 1] == [c] + a';
      assert cz[..|cz| - 1] == [c] + z[..|z| - 1];
      if z[|z| - 1] == a[|a| - 1] && IsSubsequence(z[..|z| - 1], a') {
        PrependBoth(z[..|z| - 1], a', c);
      } else {
        PrependBoth(z, a', c);
      }
    }
  }

  /** A subsequence of a suffix of a is a subsequence of a. */
  lemma {:induction false} SuffixSubsequence<T>(z: seq<T>, a: seq<T>, k: nat)
    requires k <= |a| && IsSubsequence(z, a[k..])
    ensures IsSubsequence(z, a)
    decreases k
  {
    if k > 0 {
      assert [a[k - 1]] + a[k..] == a[k - 1..];
      PrependRight(z, a[k..], a[k - 1]);
      SuffixSubsequence(z, a, k - 1);
    }
  }

  /** A subsequence of a prefix of a is a subsequence of a. */
  lemma {:induction false} PrefixSubsequence<T>(z: seq<T>, a: seq<T>, k: nat)
    requires k <= |a| && IsSubsequence(z, a[..k])
    ensures IsSubsequence(z, a)
    decreases |a| - k
  {
    if k == |a| {
      assert a[..k] == a;
    } else {
      AppendRight(z, a[..k], a[k]);
      assert a[..k] + [a[k]] == a[..k + 1];
      PrefixSubsequence(z, a, k + 1);
    }
  }

  /** Without their last elements, a nonempty subsequence is still a subsequence of a shortened a. */
  lemma {:induction false} DropBothLast<T>(z: seq<T>, a: seq<T>)
    requires |z| > 0 && IsSubsequence(z, a)
    ensures |a| > 0 && IsSubsequence(z[..|z| - 1], a[..|a| - 1])
    decreases |a|
  {
    var a' := a[..|a| - 1];
    if !(z[|z| - 1] == a[|a| - 1] && IsSubsequence(z[..|z| - 1], a')) {
      DropBothLast(z, a');
      var a'' := a'[..|a'| - 1];
      AppendRight(z[..|z| - 1], a'', a'[|a'| - 1]);
      assert a'' + [a'[|a'| - 1]] == a';
    }
  }

  /** f applied to every element of s, in order. */
  function Map<A, B>(f: A -> B, s: seq<A>): (r: seq<B>)
    ensures |r| == |s|
    decreases |s|
  {
    if |s| == 0 then [] else Map(f, s[..|s| - 1]) + [f(s[|s| - 1])]
  }

  /** Element k of the mapped sequence is f of element k. */
  lemma {:induction false} MapAt<A, B>(f: A -> B, s: seq<A>, k: int)
    requires 0 <= k < |s|
    ensures Map(f, s)[k] == f(s[k])
    decreases |s|
  {
    if k < |s| - 1 {
      MapAt(f, s[..|s| - 1], k);
    }
  }

  /** Map distributes over concatenation. */
  lemma {:induction false} MapAppend<A, B>(f: A -> B, a: seq<A>, b: seq<A>)
    ensures Map(f, a + b) == Map(f, a) + Map(f, b)
    decreases |b|
  {
    if |b| > 0 {
      assert (a + b)[..|a + b| - 1] == a + b[..|b| - 1];
      MapAppend(f, a, b[..|b| - 1]);
    } else {
      assert a + b == a;
    }
  }

  /** Deleting position j removes one copy of b[j] from the multiset. */
  lemma MultisetDelete<A>(b: seq<A>, j: int)
    requires 0 <= j < |b|
    ensures b == b[..j] + [b[j]] + b[j + 1..]
    ensures multiset(b[..j] + b[j + 1..]) == multiset(b) - multiset{b[j]}
  {
    assert b == b[..j] + [b[j]] + b[j + 1..];
  }

  /** Mapping b is mapping b without position j, plus f of b[j]. */
  lemma MapDelete<A, B>(f: A -> B, b: seq<A>, j: int)
    requires 0 <= j < |b|
    ensures multiset(Map(f, b)) == multiset(Map(f, b[..j] + b[j + 1..])) + multiset{f(b[j])}
  {
    var b1, b2 := b[..j], b[j + 1..];
    assert b == (b1 + [b[j]]) + b2;
    MapAppend(f, b1 + [b[j]], b2);
    MapAppend(f, b1, [b[j]]);
    MapAppend(f, b1, b2);
    assert Map(f, [b[j]]) == [f(b[j])];
    var m1, m2 := Map(f, b1), Map(f, b2);
    assert Map(f, b) == (m1 + [f(b[j])]) + m2;
    assert multiset(Map(f, b)) == multiset(m1) + multiset{f(b[j])} + multiset(m2);
    assert multiset(Map(f, b1 + b2)) == multiset(m1) + multiset(m2);
  }

  /** A position of x in b. */
  lemma IndexOf<A>(b: seq<A>, x: A) returns (j: int)
    requires x in multiset(b)
    ensures 0 <= j < |b| && b[j] == x
  {
    j :| 0 <= j < |b| && b[j] == x;
  }

  /** Mapping two permutations of each other gives permutations of each other. */
  lemma {:induction false} MapMultiset<A, B>(f: A -> B, a: seq<A>, b: seq<A>)
    requires multiset(a) == multiset(b)
    ensures multiset(Map(f, a)) == multiset(Map(f, b))
    decreases |a|
  {
    if |a| == 0 {
      assert |multiset(b)| == 0;
    } else {
      var a' := a[..|a| - 1];
      assert a[|a| - 1] in multiset(a);
      var j := IndexOf(b, a[|a| - 1]);
      MultisetDelete(b, j);
      MultisetDelete(a, |a| - 1);
      assert a' + a[|a|..] == a';
      MapMultiset(f, a', b[..j] + b[j + 1..]);
      MapDelete(f, b, j);
      MapDelete(f, a, |a| - 1);
    }
  }

  /** Mapping preserves sub-multisets: what a contains, b contains, and so do their images. */
  lemma {:induction false} MapSubMultiset<A, B>(f: A -> B, a: seq<A>, b: seq<A>)
    requires multiset(a) <= multiset(b)
    ensures multiset(Map(f, a)) <= multiset(Map(f, b))
    decreases |a|
  {
    if |a| > 0 {
      var a' := a[..|a| - 1];
      assert a[|a| - 1] in multiset(a);
      var j := IndexOf(b, a[|a| - 1]);
      MultisetDelete(b, j);
      MultisetDelete(a, |a| - 1);
      assert a' + a[|a|..] == a';
      MapSubMultiset(f, a', b[..j] + b[j + 1..]);
      MapDelete(f, b, j);
      MapDelete(f, a, |a| - 1);
    }
  }

  /** Mapping a one-longer prefix appends f of the next element. */
  lemma MapSnoc<A, B>(f: A -> B, s: seq<A>, k: int)
    requires 0 <= k < |s|
    ensures Map(f, s[..k + 1]) == Map(f, s[..k]) + [f(s[k])]
  {
    assert s[..k + 1][..k] == s[..k];
  }

  /** Every element of a mapped sequence is f of some element. */
  lemma {:induction false} MapIndex<A, B>(f: A -> B, s: seq<A>, y: B) returns (k: int)
    requires y in multiset(Map(f, s))
    ensures 0 <= k < |s| && f(s[k]) == y
  {
    var j := IndexOf(Map(f, s), y);
    MapAt(f, s, j);
    k := j;
  }
}
