/** The DNA alphabet and the way the suffix trie hashes its characters. */
module Dna {

  predicate IsDna(c: char) {
    c == 'A' || c == 'C' || c == 'G' || c == 'T'
  }

  predicate IsDnaWord(w: seq<char>) {
    forall k :: 0 <= k < |w| ==> IsDna(w[k])
  }

  /** Number of child slots of a trie node (HASHLINKS). */
  const HashLinks: int := 5

  /** The slot a child starting with c is stored under: the character code modulo 5. */
  function Slot(c: char): (r: int)
    ensures 0 <= r < HashLinks
    ensures c == 'A' ==> r == 0
    ensures c == 'G' ==> r == 1
    ensures c == 'C' ==> r == 2
    ensures c == 'T' ==> r == 4
  {
    (c as int) % HashLinks
  }

  /** On the DNA alphabet the hash has no collisions. */
  lemma SlotInjective(a: char, b: char)
    requires IsDna(a) && IsDna(b)
    ensures Slot(a) == Slot(b) <==> a == b
  {
  }
}
