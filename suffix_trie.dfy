/**
 * The compressed suffix trie as an object: the word and the node arena are
 * fields, the constructor inserts the suffixes from the last to the first,
 * splitChild rewrites the arena in place, and findString walks it. Each
 * method is proved to compute what the functions of SuffixTrieModel say.
 */
module SuffixTrie {
  import opened Wrappers
  import opened Dna
  import opened SuffixTrieModel
  import opened DnaLoader

  class CompressedSuffixTrie {
    /** The word the trie indexes; empty when the loader found no sequence. */
    const word: seq<char>
    /** Every node ever created, the root first. */
    var nodes: seq<Node>

    ghost predicate Valid()
      reads this
    {
      Inv(word, nodes)
    }

    /**
     * Loads the sequence of file f and builds its trie, or only the root
     * when the file holds no valid sequence (the source then leaves word
     * unset).
     */
    constructor (f: Option<seq<seq<char>>>)
      ensures word == (if Load(f).Some? then Load(f).value else [])
      ensures IsDnaWord(word)
      ensures nodes == Build(word) && Valid()
    {
      var suffixWord := GetSequenceFromFile(f);
      LoadIsDna(f);
      word := if suffixWord.Some? then suffixWord.value else [];
      nodes := [Root()];
      new;
      if suffixWord.Some? {
        var end := |word| - 1;
        var i := |word| - 1;
        while i >= 0
          invariant -1 <= i < |word|
          invariant nodes == BuildFrom(word, i + 1)
        {
          BuildStep(word, i);
          InsertSuffix(i, end);
          i := i - 1;
        }
      }
    }

    /**
     * One step of the constructor's loop: a suffix whose first letter the
     * root has not seen becomes a leaf below the root, any other one is
     * split into the root's child for that letter.
     */
    method InsertSuffix(i: int, end: int)
      requires InsertPre(word, nodes, i) && end == |word| - 1
      modifies this
      ensures nodes == Insert(word, old(nodes), i)
    {
      var c := word[i];
      var child := nodes[0].GetLinks(c);
      if child == Null {
        nodes := (nodes + [NewNode(i, end)])[0 := nodes[0].PutLinks(c, |nodes|)];
      } else {
        InsertSplitEntries(word, nodes, i);
        SplitChild(child, i, c, end, 0);
      }
    }

    /**
     * The matching loop at the head of splitChild: how far the label
     * word[start..end] agrees with the suffix starting at index.
     */
    method MatchLength(start: int, end: int, index: int) returns (i: int)
      requires 0 <= start <= end + 1 && end < |word| && 0 <= index && index + (end - start) < |word|
      ensures i == MatchEnd(word, start, end, index)
    {
      var index2 := index;
      i := start;
      var matching := true;
      while i <= end && matching
        invariant start <= i <= end + 1 && index2 == index + (i - start)
        invariant MatchEnd(word, start, end, index) == if matching then MatchEnd(word, i, end, index2) else i
        invariant !matching ==> i <= end
        decreases end + 1 - i, matching
      {
        if word[i] == word[index2] {
          i := i + 1;
          index2 := index2 + 1;
        } else {
          matching := false;
        }
      }
    }

    /**
     * splitChild: hangs the suffix word[index..] below current, the child
     * of parent under the slot of word[index]. parent is not a parameter of
     * the source; it names the node whose link leads to current.
     */
    method SplitChild(current: int, index: int, chara: char, maxend: int, ghost parent: int)
      requires SplitPre(word, nodes, parent, current, index) && maxend == |word| - 1
      modifies this
      ensures nodes == Split(word, old(nodes), parent, current, index, maxend)
      decreases |word| - index
    {
      ghost var nodes0 := nodes;
      var start := nodes[current].start;
      var end := nodes[current].end;
      var i := MatchLength(start, end, index);
      var index2 := index + (i - start);
      if i > end {
        var c := word[index2];
        var child := nodes[current].GetLinks(c);
        var relabeled := nodes[current := nodes[current].(start := index, end := index2 - 1)];
        SplitFull(word, nodes, parent, current, index, i, relabeled);
        assert child == relabeled[current].links[Slot(c)];
        nodes := relabeled;
        if child == Null {
          nodes := (relabeled + [NewNode(index2, maxend)])[current := relabeled[current].PutLinks(c, |relabeled|)];
          assert nodes == Split(word, nodes0, parent, current, index, maxend);
        } else {
          SplitChild(child, index2, c, maxend, current);
          assert nodes == Split(word, nodes0, parent, current, index, maxend);
        }
      } else {
        SplitPartial(word, nodes, parent, current, index, i);
        assert index2 < |word|;
        ghost var expected := (nodes + [NewNode(i, end), NewNode(index2, maxend)])
                                [current := nodes[current].(start := index, end := index2 - 1)
                                              .PutLinks(word[i], |nodes|).PutLinks(word[index2], |nodes| + 1)];
        assert expected == Split(word, nodes0, parent, current, index, maxend);
        var splitStart := i;
        var splitEnd := end;
        var truncated := nodes[current].(start := index, end := index2 - 1);
        var c1 := word[splitStart];
        var c2 := word[index2];
        var n := |nodes|;
        nodes := (nodes + [NewNode(splitStart, splitEnd), NewNode(index2, maxend)])
                   [current := truncated.PutLinks(c1, n).PutLinks(c2, n + 1)];
        assert nodes == expected;
      }
    }

    /**
     * findString: walks the pattern down from the root; the result is the
     * start of the match the walk found, or -1.
     */
    method FindString(s: seq<char>) returns (r: int)
      requires Valid()
      ensures r == Find(word, nodes, s)
    {
      var current := 0;
      var cStart := 0;
      var cEnd := -1;
      var endPosition := 0;
      var i := 0;
      while i < |s|
        invariant Walk(word, nodes, s, i, current, cStart, cEnd, endPosition)
        invariant Find(word, nodes, s) == FindFrom(word, nodes, s, i, current, cStart, cEnd, endPosition)
        decreases |s| - i
      {
        ghost var (current0, cStart0, cEnd0, endPosition0) := (current, cStart, cEnd, endPosition);
        var c := s[i];
        if cStart > cEnd {
          assert ChildOk(word, nodes, current, Slot(c));
          current := nodes[current].GetLinks(c);
          if current == Null {
            return -1;
          }
          cStart := nodes[current].start;
          cEnd := nodes[current].end;
        }
        if s[i] == word[cStart] {
          WalkStep(word, nodes, s, i, current0, cStart0, cEnd0, endPosition0, current, cStart, cEnd);
          endPosition := cStart;
          cStart := cStart + 1;
        } else {
          return -1;
        }
        i := i + 1;
      }
      return endPosition - |s| + 1;
    }
  }
}
