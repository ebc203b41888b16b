/**
 * The similarity analyser of the DNA trie package: the classic
 * longest-common-subsequence table over two words (initialiseTheLCS,
 * populateMatrix), the traceback that reads one common subsequence off
 * the table (findSequence), and the similarity ratio built from them.
 */
module Similarity {
  import opened Wrappers
  import opened Sequences
  import opened DnaLoader

  function Max(a: int, b: int): int {
    if a >= b then a else b
  }

  /**
   * The length of a longest common subsequence of the prefixes a[..x] and
   * b[..y], by the recurrence the table follows.
   */
  function Lcs(a: seq<char>, b: seq<char>, x: nat, y: nat): (r: nat)
    requires x <= |a| && y <= |b|
    ensures r <= x && r <= y
    decreases x + y
  {
    if x == 0 || y == 0 then 0
    else if a[x - 1] == b[y - 1] then Lcs(a, b, x - 1, y - 1) + 1
    else Max(Lcs(a, b, x - 1, y), Lcs(a, b, x, y - 1))
  }

  /**
   * The word findSequence reads off the table from cell (x, y): a match is
   * taken diagonally, otherwise the walk moves up when the cell above is
   * strictly larger and left on a tie or when the cell to the left is larger.
   */
  function Traceback(a: seq<char>, b: seq<char>, x: nat, y: nat): seq<char>
    requires x <= |a| && y <= |b|
    decreases x + y
  {
    if x == 0 || y == 0 then []
    else if a[x - 1] == b[y - 1] then Traceback(a, b, x - 1, y - 1) + [a[x - 1]]
    else if Lcs(a, b, x - 1, y) > Lcs(a, b, x, y - 1) then Traceback(a, b, x - 1, y)
    else Traceback(a, b, x, y - 1)
  }

  /** No common subsequence of a[..x] and b[..y] is longer than Lcs(a, b, x, y). */
  lemma {:induction false} LcsOptimal(z: seq<char>, a: seq<char>, b: seq<char>, x: nat, y: nat)
    requires x <= |a| && y <= |b|
    requires IsSubsequence(z, a[..x]) && IsSubsequence(z, b[..y])
    ensures |z| <= Lcs(a, b, x, y)
    decreases x + y
  {
    if |z| > 0 {
      assert x > 0 && y > 0;
      assert a[..x][..x - 1] == a[..x - 1] && b[..y][..y - 1] == b[..y - 1];
      var last := z[|z| - 1];
      if last == a[x - 1] && last == b[y - 1] {
        DropBothLast(z, a[..x]);
        DropBothLast(z, b[..y]);
        LcsOptimal(z[..|z| - 1], a, b, x - 1, y - 1);
      } else if last != a[x - 1] {
        LcsOptimal(z, a, b, x - 1, y);
        if a[x - 1] == b[y - 1] {
          LcsOptimal(z, a, b, x - 1, y - 1);
        }
      } else {
        LcsOptimal(z, a, b, x, y - 1);
      }
    }
  }

  /** The traceback is a common subsequence of a[..x] and b[..y] of length Lcs(a, b, x, y). */
  lemma {:induction false} TracebackCommon(a: seq<char>, b: seq<char>, x: nat, y: nat)
    requires x <= |a| && y <= |b|
    ensures var t := Traceback(a, b, x, y);
            |t| == Lcs(a, b, x, y) && IsSubsequence(t, a[..x]) && IsSubsequence(t, b[..y])
    decreases x + y
  {
    if x > 0 && y > 0 {
      assert a[..x] == a[..x - 1] + [a[x - 1]] && b[..y] == b[..y - 1] + [b[y - 1]];
      if a[x - 1] == b[y - 1] {
        TracebackCommon(a, b, x - 1, y - 1);
        AppendBoth(Traceback(a, b, x - 1, y - 1), a[..x - 1], a[x - 1]);
        AppendBoth(Traceback(a, b, x - 1, y - 1), b[..y - 1], b[y - 1]);
      } else if Lcs(a, b, x - 1, y) > Lcs(a, b, x, y - 1) {
        TracebackCommon(a, b, x - 1, y);
        AppendRight(Traceback(a, b, x - 1, y), a[..x - 1], a[x - 1]);
      } else {
        TracebackCommon(a, b, x, y - 1);
        AppendRight(Traceback(a, b, x, y - 1), b[..y - 1], b[y - 1]);
      }
    }
  }

  /** Aligning a word with itself gives back the word, and its whole length. */
  lemma {:induction false} TracebackSelf(a: seq<char>, x: nat)
    requires x <= |a|
    ensures Traceback(a, a, x, x) == a[..x] && Lcs(a, a, x, x) == x
    decreases x
  {
    if x > 0 {
      TracebackSelf(a, x - 1);
      assert a[..x] == a[..x - 1] + [a[x - 1]];
    }
  }

  /** The LCS length does not depend on the order of the two words, so neither does the similarity ratio. */
  lemma LcsSymmetric(a: seq<char>, b: seq<char>)
    ensures Lcs(a, b, |a|, |b|) == Lcs(b, a, |b|, |a|)
  {
    assert a[..|a|] == a && b[..|b|] == b;
    TracebackCommon(a, b, |a|, |b|);
    TracebackCommon(b, a, |b|, |a|);
    LcsOptimal(Traceback(a, b, |a|, |b|), b, a, |b|, |a|);
    LcsOptimal(Traceback(b, a, |b|, |a|), a, b, |a|, |b|);
  }

  /** The longest common subsequence of two whole words: attained by the traceback, and never exceeded. */
  lemma LcsOfWords(w1: seq<char>, w2: seq<char>, z: seq<char>)
    ensures var t := Traceback(w1, w2, |w1|, |w2|);
            |t| == Lcs(w1, w2, |w1|, |w2|) && IsSubsequence(t, w1) && IsSubsequence(t, w2)
    ensures IsSubsequence(z, w1) && IsSubsequence(z, w2) ==> |z| <= Lcs(w1, w2, |w1|, |w2|)
  {
    assert w1[..|w1|] == w1 && w2[..|w2|] == w2;
    TracebackCommon(w1, w2, |w1|, |w2|);
    if IsSubsequence(z, w1) && IsSubsequence(z, w2) {
      LcsOptimal(z, w1, w2, |w1|, |w2|);
    }
  }

  /**
   * Ties move left: for AG against GA both neighbours of the last cell hold
   * 1, the walk decrements y, and the result is G rather than A.
   */
  lemma TieMovesLeft()
    ensures Lcs("AG", "GA", 2, 2) == 1 && Traceback("AG", "GA", 2, 2) == "G"
  {
    assert Lcs("AG", "GA", 1, 2) == 1 && Lcs("AG", "GA", 2, 1) == 1;
    assert Traceback("AG", "GA", 2, 1) == Traceback("AG", "GA", 1, 0) + ['G'];
  }

  /** lcs holds the Lcs of every pair of prefixes. */
  ghost predicate Table(lcs: array2<int>, w1: seq<char>, w2: seq<char>)
    reads lcs
  {
    && lcs.Length0 == |w1| + 1 && lcs.Length1 == |w2| + 1
    && forall x, y {:trigger lcs[x, y]} :: 0 <= x <= |w1| && 0 <= y <= |w2| ==> lcs[x, y] == Lcs(w1, w2, x, y)
  }

  /** initialiseTheLCS: zeroes column 0 and row 0 and leaves every other cell alone. */
  method InitialiseTheLCS(lcs: array2<int>, w1: nat, w2: nat)
    requires lcs.Length0 == w1 + 1 && lcs.Length1 == w2 + 1
    modifies lcs
    ensures forall x :: 0 <= x <= w1 ==> lcs[x, 0] == 0
    ensures forall y :: 0 <= y <= w2 ==> lcs[0, y] == 0
    ensures forall x, y :: 1 <= x <= w1 && 1 <= y <= w2 ==> lcs[x, y] == old(lcs[x, y])
  {
    for x := 0 to w1 + 1
      invariant forall p :: 0 <= p < x ==> lcs[p, 0] == 0
      invariant forall p, q :: 0 <= p <= w1 && 1 <= q <= w2 ==> lcs[p, q] == old(lcs[p, q])
    {
      lcs[x, 0] := 0;
    }
    for y := 0 to w2 + 1
      invariant forall p :: 0 <= p <= w1 ==> lcs[p, 0] == 0
      invariant forall q :: 0 <= q < y ==> lcs[0, q] == 0
      invariant forall p, q :: 1 <= p <= w1 && 1 <= q <= w2 ==> lcs[p, q] == old(lcs[p, q])
    {
      lcs[0, y] := 0;
    }
  }

  /** populateMatrix: once row 0 and column 0 are zero, fills every cell with the Lcs of the two prefixes. */
  method PopulateMatrix(lcs: array2<int>, w1: seq<char>, w2: seq<char>)
    requires lcs.Length0 == |w1| + 1 && lcs.Length1 == |w2| + 1
    requires forall x :: 0 <= x <= |w1| ==> lcs[x, 0] == 0
    requires forall y :: 0 <= y <= |w2| ==> lcs[0, y] == 0
    modifies lcs
    ensures Table(lcs, w1, w2)
  {
    for x := 1 to |w1| + 1
      invariant forall p, q {:trigger lcs[p, q]} :: 0 <= p < x && 0 <= q <= |w2| ==> lcs[p, q] == Lcs(w1, w2, p, q)
      invariant forall p :: x <= p <= |w1| ==> lcs[p, 0] == 0
    {
      for y := 1 to |w2| + 1
        invariant forall p, q {:trigger lcs[p, q]} :: 0 <= p < x && 0 <= q <= |w2| ==> lcs[p, q] == Lcs(w1, w2, p, q)
        invariant forall q {:trigger lcs[x, q]} :: 0 <= q < y ==> lcs[x, q] == Lcs(w1, w2, x, q)
        invariant forall p :: x < p <= |w1| ==> lcs[p, 0] == 0
      {
        if w1[x - 1] == w2[y - 1] {
          lcs[x, y] := lcs[x - 1, y - 1] + 1;
        } else {
          lcs[x, y] := Max(lcs[x - 1, y], lcs[x, y - 1]);
        }
      }
    }
  }

  /**
   * One step of the walk back through the table, in each of its three
   * directions; up and left are the table's cells above and to the left.
   */
  lemma TracebackStep(a: seq<char>, b: seq<char>, x: nat, y: nat, up: int, left: int)
    requires 0 < x <= |a| && 0 < y <= |b|
    requires up == Lcs(a, b, x - 1, y) && left == Lcs(a, b, x, y - 1)
    ensures a[x - 1] == b[y - 1] ==> Traceback(a, b, x, y) == Traceback(a, b, x - 1, y - 1) + [a[x - 1]]
    ensures a[x - 1] != b[y - 1] && up > left ==> Traceback(a, b, x, y) == Traceback(a, b, x - 1, y)
    ensures a[x - 1] != b[y - 1] && up <= left ==> Traceback(a, b, x, y) == Traceback(a, b, x, y - 1)
  {
  }

  /** A prefix of a word that ends in c is the shorter prefix followed by c. */
  lemma PrefixLast(t: seq<char>, c: char, whole: seq<char>, n: nat)
    requires n < |whole| && t + [c] == whole[..n + 1]
    ensures whole[n] == c && t == whole[..n]
  {
    assert whole[n] == (t + [c])[n];
    assert t == (t + [c])[..n];
  }

  /**
   * findSequence: walks the filled table back from its last cell and
   * writes the matched letters from the end of the result to its start.
   */
  method FindSequence(lcs: array2<int>, w1: seq<char>, w2: seq<char>) returns (r: seq<char>)
    requires Table(lcs, w1, w2)
    ensures r == Traceback(w1, w2, |w1|, |w2|)
  {
    var seqLength := lcs[|w1|, |w2|];
    var result := new char[seqLength];
    var i := seqLength - 1;
    var x := |w1|;
    var y := |w2|;
    ghost var whole := Traceback(w1, w2, x, y);
    TracebackCommon(w1, w2, x, y);
    while x > 0 && y > 0
      invariant 0 <= x <= |w1| && 0 <= y <= |w2| && -1 <= i < result.Length == |whole|
      invariant Traceback(w1, w2, x, y) == whole[..i + 1]
      invariant forall k :: i < k < result.Length ==> result[k] == whole[k]
      decreases x + y
    {
      TracebackStep(w1, w2, x, y, lcs[x - 1, y], lcs[x, y - 1]);
      if w1[x - 1] == w2[y - 1] {
        PrefixLast(Traceback(w1, w2, x - 1, y - 1), w1[x - 1], whole, i);
        result[i] := w1[x - 1];
        x := x - 1;
        y := y - 1;
        i := i - 1;
      } else if lcs[x - 1, y] > lcs[x, y - 1] {
        x := x - 1;
      } else {
        y := y - 1;
      }
    }
    assert result[..] == whole;
    r := result[..];
  }

  /** The similarity ratio as a numerator and a denominator; Ratio(0, 0) is the source's 0/0. */
  datatype Ratio = Ratio(num: nat, den: nat)

  /**
   * similarityAnalyser: loads both files, and when both hold a sequence
   * returns the LCS length over the longer length together with the LCS
   * word it writes to the third file; otherwise the ratio 0 and nothing
   * written (None).
   */
  method SimilarityAnalyser(f1: Option<seq<seq<char>>>, f2: Option<seq<seq<char>>>) returns (result: Ratio, word3: Option<seq<char>>)
    ensures Load(f1).None? || Load(f2).None? ==> result == Ratio(0, 1) && word3 == None
    ensures Load(f1).Some? && Load(f2).Some? ==>
              var w1, w2 := Load(f1).value, Load(f2).value;
              && word3 == Some(Traceback(w1, w2, |w1|, |w2|))
              && result == Ratio(Lcs(w1, w2, |w1|, |w2|), Max(|w1|, |w2|))
  {
    var word1 := GetSequenceFromFile(f1);
    var word2 := GetSequenceFromFile(f2);
    if word1.None? || word2.None? {
      return Ratio(0, 1), None;
    }
    var w1, w2 := word1.value, word2.value;
    var lcs := new int[|w1| + 1, |w2| + 1];
    InitialiseTheLCS(lcs, |w1|, |w2|);
    PopulateMatrix(lcs, w1, w2);
    var found := FindSequence(lcs, w1, w2);
    TracebackCommon(w1, w2, |w1|, |w2|);
    result := Ratio(|found|, Max(|w1|, |w2|));
    word3 := Some(found);
  }
}
