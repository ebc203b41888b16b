/**
 * The line filter and the letter stack of getSequenceFromFile: each line of
 * the sequence file must consist of DNA letters and blanks, the blanks are
 * dropped, the letters are pushed on a stack (LinkedList.add) and popped
 * back into a character array in reading order. The file is given as its
 * lines, or None when it cannot be opened or read.
 */
module DnaLoader {
  import opened Wrappers
  import opened Dna

  /** The characters of the regular-expression class \s: space, tab, newline, vertical tab, form feed, return. */
  predicate IsRegexSpace(c: char) {
    c == ' ' || c == '\t' || c == '\n' || c == '\U{000B}' || c == '\U{000C}' || c == '\r'
  }

  /** The line terminators of java.util.regex outside UNIX_LINES mode: \n, \r, NEL, LS and PS. */
  predicate IsLineTerminator(c: char) {
    c == '\n' || c == '\r' || c == '\U{0085}' || c == '\U{2028}' || c == '\U{2029}'
  }

  /**
   * Character.isWhitespace: the space, line and paragraph separators other
   * than the non-breaking ones, and the controls tab to return and the
   * four information separators.
   */
  predicate IsWhitespace(c: char) {
    || c == ' ' || c == '\U{1680}' || ('\U{2000}' <= c <= '\U{2006}') || ('\U{2008}' <= c <= '\U{200A}')
    || c == '\U{205F}' || c == '\U{3000}' || c == '\U{2028}' || c == '\U{2029}'
    || ('\U{0009}' <= c <= '\U{000D}') || ('\U{001C}' <= c <= '\U{001F}')
  }

  /** Every character of s is in the class [ACGT\s]. */
  predicate AllDnaOrSpace(s: seq<char>) {
    forall k :: 0 <= k < |s| ==> IsDna(s[k]) || IsRegexSpace(s[k])
  }

  /**
   * Whether find() of ^[ACGT\s]*$ succeeds on a line, as the source
   * compiles it: outside MULTILINE mode $ matches at the end of the input
   * and also just before a final line terminator.
   */
  predicate LineMatchesAsWritten(line: seq<char>) {
    || AllDnaOrSpace(line)
    || (|line| >= 1 && IsLineTerminator(line[|line| - 1]) && AllDnaOrSpace(line[..|line| - 1]))
    || (|line| >= 2 && line[|line| - 2..] == "\r\n" && AllDnaOrSpace(line[..|line| - 2]))
  }

  /**
   * The line filter of the model: the source's, except that a line ending
   * in NEL (U+0085) is rejected. A line ending in LS or PS still passes,
   * as in the source; those two are whitespace and are dropped.
   */
  predicate LineMatches(line: seq<char>) {
    LineMatchesAsWritten(line) && !(|line| > 0 && line[|line| - 1] == '\U{0085}')
  }

  /** The characters of line that are not whitespace, in order. */
  function KeptLetters(line: seq<char>): seq<char>
    decreases |line|
  {
    if |line| == 0 then []
    else KeptLetters(line[..|line| - 1]) + (if IsWhitespace(line[|line| - 1]) then [] else [line[|line| - 1]])
  }

  /** The kept letters of all lines, in reading order. */
  function Letters(lines: seq<seq<char>>): seq<char>
    decreases |lines|
  {
    if |lines| == 0 then [] else Letters(lines[..|lines| - 1]) + KeptLetters(lines[|lines| - 1])
  }

  predicate AllLinesMatch(lines: seq<seq<char>>) {
    forall k :: 0 <= k < |lines| ==> LineMatches(lines[k])
  }

  /**
   * What getSequenceFromFile returns, with the NEL correction of LineMatches:
   * nothing for an unreadable file or a rejected line, else the letters.
   */
  function Load(file: Option<seq<seq<char>>>): Option<seq<char>> {
    if file.None? || !AllLinesMatch(file.value) then None else Some(Letters(file.value))
  }

  function Reverse(s: seq<char>): (r: seq<char>)
    ensures |r| == |s|
    decreases |s|
  {
    if |s| == 0 then [] else [s[|s| - 1]] + Reverse(s[..|s| - 1])
  }

  lemma ReverseSnoc(s: seq<char>, c: char)
    ensures Reverse(s + [c]) == [c] + Reverse(s)
  {
    assert (s + [c])[..|s|] == s;
  }

  lemma {:induction false} ReverseAppend(s: seq<char>, t: seq<char>)
    ensures Reverse(s + t) == Reverse(t) + Reverse(s)
    decreases |t|
  {
    if |t| == 0 {
      assert s + t == s;
    } else {
      var t' := t[..|t| - 1];
      assert s + t == (s + t') + [t[|t| - 1]];
      ReverseSnoc(s + t', t[|t| - 1]);
      ReverseAppend(s, t');
      ReverseSnoc(t', t[|t| - 1]);
      assert t == t' + [t[|t| - 1]];
    }
  }

  lemma {:induction false} ReverseReverse(s: seq<char>)
    ensures Reverse(Reverse(s)) == s
    decreases |s|
  {
    if |s| > 0 {
      var s' := s[..|s| - 1];
      ReverseReverse(s');
      ReverseAppend([s[|s| - 1]], Reverse(s'));
      assert Reverse([s[|s| - 1]]) == [s[|s| - 1]] by {
        assert [s[|s| - 1]][..0] == [];
      }
      assert s == s' + [s[|s| - 1]];
    }
  }

  /** Position k of the reversal is position |s| - 1 - k of s. */
  lemma {:induction false} ReverseAt(s: seq<char>, k: int)
    requires 0 <= k < |s|
    ensures Reverse(s)[k] == s[|s| - 1 - k]
    decreases |s|
  {
    if k > 0 {
      ReverseAt(s[..|s| - 1], k - 1);
    }
  }

  /**
   * A line the filter accepts contributes only DNA letters: blanks of \s,
   * LS and PS are all whitespace.
   */
  lemma KeptLettersAreDna(line: seq<char>)
    requires LineMatches(line)
    ensures IsDnaWord(KeptLetters(line))
  {
    if |line| > 0 {
      var init := line[..|line| - 1];
      assert AllDnaOrSpace(init) by {
        forall k | 0 <= k < |init| ensures IsDna(init[k]) || IsRegexSpace(init[k]) {
          if AllDnaOrSpace(line) {
            assert init[k] == line[k];
          } else if |line| >= 2 && line[|line| - 2..] == "\r\n" && AllDnaOrSpace(line[..|line| - 2]) {
            if k < |line| - 2 {
              assert init[k] == line[..|line| - 2][k];
            } else {
              assert init[k] == line[|line| - 2..][0];
            }
          }
        }
      }
      SpacedLettersAreDna(init);
    }
  }

  lemma {:induction false} SpacedLettersAreDna(line: seq<char>)
    requires AllDnaOrSpace(line)
    ensures IsDnaWord(KeptLetters(line))
    decreases |line|
  {
    if |line| > 0 {
      var init := line[..|line| - 1];
      assert AllDnaOrSpace(init) by {
        forall k | 0 <= k < |init| ensures IsDna(init[k]) || IsRegexSpace(init[k]) {
          assert init[k] == line[k];
        }
      }
      SpacedLettersAreDna(init);
    }
  }

  /** Whatever the loader returns is a DNA word, the alphabet the suffix trie relies on. */
  lemma {:induction false} LoadIsDna(file: Option<seq<seq<char>>>)
    ensures Load(file).Some? ==> IsDnaWord(Load(file).value)
  {
    if Load(file).Some? {
      LettersAreDna(file.value);
    }
  }

  lemma {:induction false} LettersAreDna(lines: seq<seq<char>>)
    requires AllLinesMatch(lines)
    ensures IsDnaWord(Letters(lines))
    decreases |lines|
  {
    if |lines| > 0 {
      var init := lines[..|lines| - 1];
      assert AllLinesMatch(init) by {
        forall k | 0 <= k < |init| ensures LineMatches(init[k]) {
          assert init[k] == lines[k];
        }
      }
      LettersAreDna(init);
      KeptLettersAreDna(lines[|lines| - 1]);
    }
  }

  /**
   * The filter as written lets a line through that ends in NEL (U+0085):
   * $ matches before it, and NEL is not whitespace for Character, so it
   * reaches the word.
   */
  lemma FilterAdmitsNel()
    ensures LineMatchesAsWritten("A\U{0085}") && !LineMatches("A\U{0085}")
    ensures Load(Some(["A\U{0085}"])) == None
    ensures KeptLetters("A\U{0085}") == "A\U{0085}" && !IsDnaWord(KeptLetters("A\U{0085}"))
  {
    var line := "A\U{0085}";
    assert line[..1] == "A" && line[1] == '\U{0085}';
    assert !IsDna(line[1]) && !IsRegexSpace(line[1]) && !IsWhitespace(line[1]);
    assert KeptLetters("A") == "A" by {
      assert "A"[..0] == [];
    }
  }

  /**
   * Apart from NEL the two filters agree: the model accepts exactly the
   * lines the source accepts that do not end in NEL.
   */
  lemma FilterAgreesOutsideNel(line: seq<char>)
    requires |line| == 0 || line[|line| - 1] != '\U{0085}'
    ensures LineMatches(line) <==> LineMatchesAsWritten(line)
  {
  }

  /** A line ending in the line separator LS passes, and LS is dropped with the blanks. */
  lemma LoadAcceptsLineSeparator()
    ensures Load(Some(["A\U{2028}"])) == Some("A")
  {
    var line := "A\U{2028}";
    assert line[..1] == "A" && line[1] == '\U{2028}';
    assert AllDnaOrSpace(line[..1]) && IsLineTerminator(line[1]);
    assert AllLinesMatch([line]);
    assert KeptLetters("A") == "A" by {
      assert "A"[..0] == [];
    }
    var lines: seq<seq<char>> := [line];
    assert lines[..0] == [] && lines[0] == line;
    assert IsWhitespace(line[1]);
    assert KeptLetters(line) == KeptLetters("A");
    assert Letters(lines) == "A";
  }

  /**
   * The stack the loader counts the letters with. elements lists the
   * stack from its head; the node objects are not modelled.
   */
  class LinkedList {
    var elements: seq<char>
    var size: int

    constructor ()
      ensures elements == [] && size == 0
    {
      elements := [];
      size := 0;
    }

    /** add: the new letter becomes the head, the old list follows it, and size grows by one. */
    method Add(c: char)
      modifies this
      ensures elements == [c] + old(elements) && size == old(size) + 1
    {
      elements := [c] + elements;
      size := size + 1;
    }
  }

  /** The inner loop of getSequenceFromFile: pushes the non-whitespace letters of one line. */
  method PushLetters(preSequence: LinkedList, input: seq<char>)
    requires preSequence.size == |preSequence.elements|
    modifies preSequence
    ensures preSequence.elements == Reverse(KeptLetters(input)) + old(preSequence.elements)
    ensures preSequence.size == |preSequence.elements|
  {
    ghost var below := preSequence.elements;
    assert input[..0] == [];
    for i := 0 to |input|
      invariant preSequence.elements == Reverse(KeptLetters(input[..i])) + below
      invariant preSequence.size == |preSequence.elements|
    {
      var c := input[i];
      assert input[..i + 1][..i] == input[..i];
      if !IsWhitespace(c) {
        preSequence.Add(c);
        assert KeptLetters(input[..i + 1]) == KeptLetters(input[..i]) + [c];
        ReverseSnoc(KeptLetters(input[..i]), c);
      } else {
        assert KeptLetters(input[..i + 1]) == KeptLetters(input[..i]);
      }
    }
    assert input[..|input|] == input;
  }

  /** One more accepted line extends the accepted prefix and its letters. */
  lemma LoadStep(lines: seq<seq<char>>, j: int)
    requires 0 <= j < |lines| && AllLinesMatch(lines[..j]) && LineMatches(lines[j])
    ensures AllLinesMatch(lines[..j + 1])
    ensures Letters(lines[..j + 1]) == Letters(lines[..j]) + KeptLetters(lines[j])
  {
    var done := lines[..j + 1];
    assert done[..j] == lines[..j] && done[j] == lines[j];
    forall k | 0 <= k < |done| ensures LineMatches(done[k]) {
      if k < j {
        assert done[k] == lines[..j][k];
      }
    }
  }

  /**
   * The last loop of getSequenceFromFile: walks the stack from its head and
   * fills the array from the back; current is the walk's position.
   */
  method PopAll(preSequence: LinkedList) returns (word: seq<char>)
    requires preSequence.size == |preSequence.elements|
    ensures word == Reverse(preSequence.elements)
  {
    var elements := preSequence.elements;
    var sequence := new char[preSequence.size];
    var current := 0;
    for i := preSequence.size downto 0
      invariant current == |elements| - i
      invariant forall m :: i <= m < |elements| ==> sequence[m] == elements[|elements| - 1 - m]
    {
      sequence[i] := elements[current];
      current := current + 1;
    }
    word := sequence[..];
    forall m | 0 <= m < |word| ensures word[m] == Reverse(elements)[m] {
      ReverseAt(elements, m);
    }
  }

  /**
   * getSequenceFromFile once the file is open: filters each line, pushes
   * its non-whitespace letters, then pops the stack into the array from
   * the back so that the letters come out in reading order.
   */
  method GetSequenceFromFile(file: Option<seq<seq<char>>>) returns (result: Option<seq<char>>)
    ensures result == Load(file)
  {
    if file.None? {
      return None;
    }
    var lines := file.value;
    var preSequence := new LinkedList();
    for j := 0 to |lines|
      invariant AllLinesMatch(lines[..j])
      invariant preSequence.elements == Reverse(Letters(lines[..j])) && preSequence.size == |preSequence.elements|
    {
      var input := lines[j];
      if !LineMatches(input) {
        assert !AllLinesMatch(lines);
        return None;
      }
      PushLetters(preSequence, input);
      ReverseAppend(Letters(lines[..j]), KeptLetters(input));
      LoadStep(lines, j);
    }
    assert lines[..|lines|] == lines;
    var sequence := PopAll(preSequence);
    ReverseReverse(Letters(lines));
    result := Some(sequence);
  }
}
