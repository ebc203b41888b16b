/**
 * The compressed suffix trie of a DNA word, as values.
 *
 * The Java trie is a graph of Node objects. Here every node lives in an
 * arena `seq<Node>`; a reference to a node is its index into the arena,
 * Null (-1) stands for a null reference, node 0 is the root, and creating a
 * node appends it to the arena. A node labels the edge into it with the
 * word interval [start, end]; its five child slots are indexed by Slot.
 */
module SuffixTrieModel {
  import opened Dna
  import opened Sequences

  const Null: int := -1

  datatype Node = Node(start: int, end: int, links: seq<int>)
  {
    /** The child stored under the slot of character c (getLinks). */
    function GetLinks(c: char): int
      requires |links| == HashLinks
    {
      links[Slot(c)]
    }

    /** Stores child under the slot of character c (putLinks). */
    function PutLinks(c: char, child: int): (n: Node)
      requires |links| == HashLinks
      ensures |n.links| == HashLinks && n.start == start && n.end == end
      ensures n.links[Slot(c)] == child
      ensures forall j :: 0 <= j < HashLinks && j != Slot(c) ==> n.links[j] == links[j]
    {
      this.(links := links[Slot(c) := child])
    }
  }

  /** A node labelled [start, end] with no children. */
  function NewNode(start: int, end: int): (n: Node)
    ensures n.start == start && n.end == end && |n.links| == HashLinks
    ensures forall j :: 0 <= j < HashLinks ==> n.links[j] == Null
  {
    Node(start, end, [Null, Null, Null, Null, Null])
  }

  /** Node 0 of every trie: the root, labelled (-1, -1). */
  function Root(): Node {
    NewNode(-1, -1)
  }

  /** Slot j of node x is empty or holds a node whose label starts with a character hashing to j, after x's label. */
  ghost predicate ChildOk(w: seq<char>, nodes: seq<Node>, x: int, j: int) {
    0 <= x < |nodes| && 0 <= j < |nodes[x].links| &&
    var y := nodes[x].links[j];
    y == Null ||
    (1 <= y < |nodes| && 0 <= nodes[y].start < |w| && Slot(w[nodes[y].start]) == j &&
     (x >= 1 ==> nodes[y].start > nodes[x].end))
  }

  /** Slot j of node x and slot j' of node x' hold the same node. */
  ghost predicate Shares(nodes: seq<Node>, x: int, j: int, x': int, j': int) {
    0 <= x < |nodes| && 0 <= j < |nodes[x].links| &&
    0 <= x' < |nodes| && 0 <= j' < |nodes[x'].links| &&
    nodes[x].links[j] != Null && nodes[x].links[j] == nodes[x'].links[j']
  }

  /** No node is stored in two slots: the links form a tree, not a graph with sharing. */
  ghost predicate UniqueParents(nodes: seq<Node>) {
    forall x, j, x', j' :: Shares(nodes, x, j, x', j') ==> x == x' && j == j'
  }

  /** The shape every trie built from the DNA word w keeps. */
  ghost predicate Inv(w: seq<char>, nodes: seq<Node>) {
    && IsDnaWord(w)
    && |nodes| >= 1
    && nodes[0].start == -1 && nodes[0].end == -1
    && (forall x :: 0 <= x < |nodes| ==> |nodes[x].links| == HashLinks)
    && (forall x :: 1 <= x < |nodes| ==> 0 <= nodes[x].start <= nodes[x].end < |w|)
    && (forall x, j :: 0 <= x < |nodes| && 0 <= j < HashLinks ==> ChildOk(w, nodes, x, j))
    && UniqueParents(nodes)
  }

  /** What splitChild needs: current is the child of parent under the slot of w[index], and index precedes current's label. */
  ghost predicate SplitPre(w: seq<char>, nodes: seq<Node>, parent: int, current: int, index: int) {
    && Inv(w, nodes)
    && 0 <= parent < |nodes| && 1 <= current < |nodes| && 0 <= index < |w|
    && nodes[parent].links[Slot(w[index])] == current
    && index < nodes[current].start
    && (parent >= 1 ==> nodes[parent].end < index)
  }

  /**
   * The first position r of [i, e] where w[i..] stops agreeing with w[j..],
   * or e + 1 when the whole interval agrees (the matching loop of splitChild).
   */
  function MatchEnd(w: seq<char>, i: int, e: int, j: int): (r: int)
    requires 0 <= i <= e + 1 && e < |w| && 0 <= j && j + (e - i) < |w|
    ensures i <= r <= e + 1
    ensures r <= e ==> w[r] != w[j + (r - i)]
    decreases e + 1 - i
  {
    if i <= e && w[i] == w[j] then MatchEnd(w, i + 1, e, j + 1) else i
  }

  /** Up to MatchEnd the two stretches of w agree letter by letter. */
  lemma {:induction false} MatchEndAgrees(w: seq<char>, i: int, e: int, j: int)
    requires 0 <= i <= e + 1 && e < |w| && 0 <= j && j + (e - i) < |w|
    ensures var r := MatchEnd(w, i, e, j); w[i..r] == w[j..j + (r - i)]
    decreases e + 1 - i
  {
    if i <= e && w[i] == w[j] {
      MatchEndAgrees(w, i + 1, e, j + 1);
      var r := MatchEnd(w, i, e, j);
      assert r == MatchEnd(w, i + 1, e, j + 1) && i + 1 <= r <= e + 1;
      assert w[i + 1..r] == w[j + 1..j + 1 + (r - (i + 1))];
      assert w[i..r] == [w[i]] + w[i + 1..r];
      assert w[j..j + (r - i)] == [w[j]] + w[j + 1..j + 1 + (r - (i + 1))];
    }
  }

  /** Under Inv a node whose label is non-empty never is its own child, and SplitPre's parent differs from current. */
  lemma ParentDiffers(w: seq<char>, nodes: seq<Node>, parent: int, current: int, index: int)
    requires SplitPre(w, nodes, parent, current, index)
    ensures parent != current
  {
    assert ChildOk(w, nodes, parent, Slot(w[index]));
  }

  /** Relabelling current after a full match keeps the shape, and the descent into the next child is a valid split. */
  lemma RelabelOk(w: seq<char>, nodes: seq<Node>, parent: int, current: int, index: int, i: int, rel: seq<Node>)
    requires SplitPre(w, nodes, parent, current, index)
    requires i == MatchEnd(w, nodes[current].start, nodes[current].end, index)
    requires i > nodes[current].end
    requires rel == nodes[current := nodes[current].(start := index, end := index + (i - nodes[current].start) - 1)]
    ensures index + (i - nodes[current].start) < |w|
    ensures Inv(w, rel)
    ensures var index2 := index + (i - nodes[current].start);
            var child := rel[current].links[Slot(w[index2])];
            child == Null || SplitPre(w, rel, current, child, index2)
  {
    var s := nodes[current].start;
    var e := nodes[current].end;
    var index2 := index + (i - s);
    assert index2 <= e;
    ParentDiffers(w, nodes, parent, current, index);
    forall x | 0 <= x < |rel|
      ensures rel[x].links == nodes[x].links
    {
    }
    forall x, j | 0 <= x < |rel| && 0 <= j < HashLinks
      ensures ChildOk(w, rel, x, j)
    {
      assert ChildOk(w, nodes, x, j);
      var y := nodes[x].links[j];
      if y == current {
        assert ChildOk(w, nodes, parent, Slot(w[index]));
        assert Shares(nodes, x, j, parent, Slot(w[index]));
      } else if y != Null && x == current {
        assert nodes[y].start > e;
      }
    }
    forall x, j, x', j' | Shares(rel, x, j, x', j')
      ensures x == x' && j == j'
    {
      assert Shares(nodes, x, j, x', j');
    }
    var child := rel[current].links[Slot(w[index2])];
    if child != Null {
      assert ChildOk(w, nodes, current, Slot(w[index2]));
      assert child != current by {
        assert ChildOk(w, nodes, parent, Slot(w[index]));
      }
    }
  }

  /** Hanging a fresh leaf under an empty slot of current keeps the shape. */
  lemma AddLeafOk(w: seq<char>, nodes: seq<Node>, current: int, index2: int, r: seq<Node>)
    requires Inv(w, nodes) && 0 <= current < |nodes| && 0 <= index2 < |w|
    requires nodes[current].links[Slot(w[index2])] == Null
    requires current >= 1 ==> nodes[current].end < index2
    requires r == (nodes + [NewNode(index2, |w| - 1)])[current := nodes[current].PutLinks(w[index2], |nodes|)]
    ensures Inv(w, r)
  {
    var n := |nodes|;
    forall x, j | 0 <= x < |r| && 0 <= j < HashLinks
      ensures ChildOk(w, r, x, j)
    {
      if x < n && !(x == current && j == Slot(w[index2])) {
        assert ChildOk(w, nodes, x, j);
      }
    }
    forall x, j, x', j' | Shares(r, x, j, x', j')
      ensures x == x' && j == j'
    {
      var oldx := x < n && !(x == current && j == Slot(w[index2]));
      var oldx' := x' < n && !(x' == current && j' == Slot(w[index2]));
      if oldx {
        assert ChildOk(w, nodes, x, j);
      }
      if oldx' {
        assert ChildOk(w, nodes, x', j');
      }
      if oldx && oldx' {
        assert Shares(nodes, x, j, x', j');
      }
    }
  }

  /** The node sequence a partial split produces at position i of current's label. */
  ghost predicate PartialResult(w: seq<char>, nodes: seq<Node>, parent: int, current: int, index: int, i: int, r: seq<Node>) {
    && SplitPre(w, nodes, parent, current, index)
    && i == MatchEnd(w, nodes[current].start, nodes[current].end, index)
    && i <= nodes[current].end
    && var index2 := index + (i - nodes[current].start);
       index2 < |w| &&
       r == (nodes + [NewNode(i, nodes[current].end), NewNode(index2, |w| - 1)])
              [current := nodes[current].(start := index, end := index2 - 1)
                            .PutLinks(w[i], |nodes|).PutLinks(w[index2], |nodes| + 1)]
  }

  /** In a partial split the two fresh slots differ, and the match stopped after the label's first letter. */
  lemma PartialSlots(w: seq<char>, nodes: seq<Node>, parent: int, current: int, index: int, i: int, r: seq<Node>)
    requires PartialResult(w, nodes, parent, current, index, i, r)
    ensures nodes[current].start < i
    ensures Slot(w[i]) != Slot(w[index + (i - nodes[current].start)])
    ensures parent != current
  {
    var s := nodes[current].start;
    SlotInjective(w[i], w[index + (i - s)]);
    assert ChildOk(w, nodes, parent, Slot(w[index]));
    SlotInjective(w[s], w[index]);
    ParentDiffers(w, nodes, parent, current, index);
  }

  /** After a partial split every slot still holds a well-placed child. */
  lemma PartialChildren(w: seq<char>, nodes: seq<Node>, parent: int, current: int, index: int, i: int, r: seq<Node>)
    requires PartialResult(w, nodes, parent, current, index, i, r)
    ensures forall x :: 0 <= x < |r| ==> |r[x].links| == HashLinks
    ensures forall x :: 1 <= x < |r| ==> 0 <= r[x].start <= r[x].end < |w|
    ensures forall x, j :: 0 <= x < |r| && 0 <= j < HashLinks ==> ChildOk(w, r, x, j)
  {
    var s := nodes[current].start;
    var index2 := index + (i - s);
    var n := |nodes|;
    var k1 := Slot(w[i]);
    var k2 := Slot(w[index2]);
    PartialSlots(w, nodes, parent, current, index, i, r);
    assert r[current].links[k1] == n && r[current].links[k2] == n + 1;
    forall x, j | 0 <= x < |r| && 0 <= j < HashLinks
      ensures ChildOk(w, r, x, j)
    {
      if x < n && !(x == current && (j == k1 || j == k2)) {
        assert ChildOk(w, nodes, x, j);
        var y := nodes[x].links[j];
        if y == current {
          assert ChildOk(w, nodes, parent, Slot(w[index]));
          assert Shares(nodes, x, j, parent, Slot(w[index]));
        }
      }
    }
  }

  /** After a partial split no node is stored in two slots. */
  lemma PartialUnique(w: seq<char>, nodes: seq<Node>, parent: int, current: int, index: int, i: int, r: seq<Node>)
    requires PartialResult(w, nodes, parent, current, index, i, r)
    ensures UniqueParents(r)
  {
    var s := nodes[current].start;
    var index2 := index + (i - s);
    var n := |nodes|;
    var k1 := Slot(w[i]);
    var k2 := Slot(w[index2]);
    PartialSlots(w, nodes, parent, current, index, i, r);
    forall x, j, x', j' | Shares(r, x, j, x', j')
      ensures x == x' && j == j'
    {
      var oldx := x < n && !(x == current && (j == k1 || j == k2));
      var oldx' := x' < n && !(x' == current && (j' == k1 || j' == k2));
      if oldx {
        assert ChildOk(w, nodes, x, j);
      }
      if oldx' {
        assert ChildOk(w, nodes, x', j');
      }
      if oldx && oldx' {
        assert Shares(nodes, x, j, x', j');
      }
    }
  }

  /** Splitting current's label after a partial match keeps the shape. */
  lemma PartialOk(w: seq<char>, nodes: seq<Node>, parent: int, current: int, index: int, i: int, r: seq<Node>)
    requires PartialResult(w, nodes, parent, current, index, i, r)
    ensures Inv(w, r)
  {
    PartialChildren(w, nodes, parent, current, index, i, r);
    PartialUnique(w, nodes, parent, current, index, i, r);
  }

  /**
   * splitChild: hangs the suffix w[index..] below current, the child of
   * parent under w[index]'s slot. The matching prefix of current's label is
   * relabelled to start at index; on a full match the descent continues in
   * the child under the next character (or a leaf is created), otherwise
   * current keeps the matched part and gets two fresh children: the rest of
   * its old label and the rest of the suffix. As in the source, current's
   * old children stay under current rather than moving to the first of the
   * two fresh nodes.
   */
  function Split(w: seq<char>, nodes: seq<Node>, parent: int, current: int, index: int, maxend: int): seq<Node>
    requires SplitPre(w, nodes, parent, current, index) && maxend == |w| - 1
    decreases |w| - index
  {
    var s := nodes[current].start;
    var e := nodes[current].end;
    var i := MatchEnd(w, s, e, index);
    var index2 := index + (i - s);
    if i > e then
      var relabeled := nodes[current := nodes[current].(start := index, end := index2 - 1)];
      RelabelOk(w, nodes, parent, current, index, i, relabeled);
      var c := w[index2];
      var child := relabeled[current].GetLinks(c);
      if child == Null then
        (relabeled + [NewNode(index2, maxend)])[current := relabeled[current].PutLinks(c, |relabeled|)]
      else
        Split(w, relabeled, current, child, index2, maxend)
    else
      var grown := nodes + [NewNode(i, e), NewNode(index2, maxend)];
      grown[current := nodes[current].(start := index, end := index2 - 1)
                         .PutLinks(w[i], |nodes|).PutLinks(w[index2], |nodes| + 1)]
  }

  /**
   * r extends nodes by one or two nodes, keeps the root, and every label of
   * r that is not one of nodes' labels starts at or after index (fresh
   * labels strictly after it).
   */
  ghost predicate Grown(nodes: seq<Node>, r: seq<Node>, index: int) {
    && |nodes| >= 1
    && |nodes| < |r| <= |nodes| + 2
    && r[0] == nodes[0]
    && (forall x :: 0 <= x < |nodes| ==> r[x].start == nodes[x].start || r[x].start >= index)
    && (forall x :: |nodes| <= x < |r| ==> r[x].start > index)
  }

  /** The two outcomes of a split whose whole label matches: a leaf below current, or the split one level down. */
  lemma SplitFull(w: seq<char>, nodes: seq<Node>, parent: int, current: int, index: int, i: int, rel: seq<Node>)
    requires SplitPre(w, nodes, parent, current, index)
    requires i == MatchEnd(w, nodes[current].start, nodes[current].end, index)
    requires i > nodes[current].end
    requires rel == nodes[current := nodes[current].(start := index, end := index + (i - nodes[current].start) - 1)]
    ensures var index2 := index + (i - nodes[current].start);
            && index2 < |w| && Inv(w, rel)
            && var child := rel[current].links[Slot(w[index2])];
               && (child == Null ==>
                     Split(w, nodes, parent, current, index, |w| - 1) ==
                       (rel + [NewNode(index2, |w| - 1)])[current := rel[current].PutLinks(w[index2], |rel|)])
               && (child != Null ==>
                     SplitPre(w, rel, current, child, index2) &&
                     Split(w, nodes, parent, current, index, |w| - 1) == Split(w, rel, current, child, index2, |w| - 1))
  {
    RelabelOk(w, nodes, parent, current, index, i, rel);
  }

  /** A split that stops inside current's label produces the PartialResult nodes. */
  lemma SplitPartial(w: seq<char>, nodes: seq<Node>, parent: int, current: int, index: int, i: int)
    requires SplitPre(w, nodes, parent, current, index)
    requires i == MatchEnd(w, nodes[current].start, nodes[current].end, index) && i <= nodes[current].end
    ensures PartialResult(w, nodes, parent, current, index, i, Split(w, nodes, parent, current, index, |w| - 1))
  {
  }

  /** splitChild keeps the trie's shape. */
  lemma {:induction false} SplitShape(w: seq<char>, nodes: seq<Node>, parent: int, current: int, index: int)
    requires SplitPre(w, nodes, parent, current, index)
    ensures Inv(w, Split(w, nodes, parent, current, index, |w| - 1))
    decreases |w| - index
  {
    var s := nodes[current].start;
    var e := nodes[current].end;
    var i := MatchEnd(w, s, e, index);
    var index2 := index + (i - s);
    var r := Split(w, nodes, parent, current, index, |w| - 1);
    if i > e {
      var relabeled := nodes[current := nodes[current].(start := index, end := index2 - 1)];
      SplitFull(w, nodes, parent, current, index, i, relabeled);
      var child := relabeled[current].links[Slot(w[index2])];
      if child == Null {
        RelabelOk(w, nodes, parent, current, index, i, relabeled);
        AddLeafOk(w, relabeled, current, index2, r);
      } else {
        SplitShape(w, relabeled, current, child, index2);
      }
    } else {
      assert PartialResult(w, nodes, parent, current, index, i, r);
      PartialOk(w, nodes, parent, current, index, i, r);
    }
  }

  /** splitChild adds one or two nodes, keeps the root, and moves labels only to positions from index on. */
  lemma {:induction false} SplitGrows(w: seq<char>, nodes: seq<Node>, parent: int, current: int, index: int)
    requires SplitPre(w, nodes, parent, current, index)
    ensures Grown(nodes, Split(w, nodes, parent, current, index, |w| - 1), index)
    decreases |w| - index
  {
    var s := nodes[current].start;
    var e := nodes[current].end;
    var i := MatchEnd(w, s, e, index);
    var index2 := index + (i - s);
    var r := Split(w, nodes, parent, current, index, |w| - 1);
    if i > e {
      var relabeled := nodes[current := nodes[current].(start := index, end := index2 - 1)];
      SplitFull(w, nodes, parent, current, index, i, relabeled);
      var child := relabeled[current].links[Slot(w[index2])];
      if child != Null {
        SplitGrows(w, relabeled, current, child, index2);
        GrownDescend(nodes, relabeled, Split(w, relabeled, current, child, index2, |w| - 1), current, index, index2);
      } else {
        GrownAppend(nodes, relabeled, [NewNode(index2, |w| - 1)], current, relabeled[current].PutLinks(w[index2], |relabeled|), index);
      }
    } else {
      assert PartialResult(w, nodes, parent, current, index, i, r);
      PartialSlots(w, nodes, parent, current, index, i, r);
      var top := nodes[current].(start := index, end := index2 - 1).PutLinks(w[i], |nodes|).PutLinks(w[index2], |nodes| + 1);
      GrownAppend(nodes, nodes, [NewNode(i, e), NewNode(index2, |w| - 1)], current, top, index);
    }
  }

  /** Appending one or two nodes that start after index, and relabeling current to start at index, is growth from index. */
  lemma GrownAppend(nodes: seq<Node>, rel: seq<Node>, extra: seq<Node>, current: int, top: Node, index: int)
    requires 1 <= current < |nodes| == |rel| && forall x :: 0 <= x < |nodes| && x != current ==> rel[x] == nodes[x]
    requires 1 <= |extra| <= 2 && top.start == index && forall k :: 0 <= k < |extra| ==> extra[k].start > index
    ensures Grown(nodes, (rel + extra)[current := top], index)
  {
    var r := (rel + extra)[current := top];
    assert forall x :: |nodes| <= x < |r| ==> r[x] == extra[x - |nodes|];
  }

  /** Growth one level down, after current's label was moved to start at index, is growth from index. */
  lemma GrownDescend(nodes: seq<Node>, rel: seq<Node>, r: seq<Node>, current: int, index: int, index2: int)
    requires 1 <= current < |nodes| == |rel| && rel == nodes[current := rel[current]] && rel[current].start == index
    requires index <= index2 && Grown(rel, r, index2)
    ensures Grown(nodes, r, index)
  {
    assert forall x :: 0 <= x < |nodes| ==> rel[x].start == nodes[x].start || rel[x].start == index;
  }

  /** Every child of the root has a label starting after position i. */
  ghost predicate RootAbove(nodes: seq<Node>, i: int) {
    |nodes| >= 1 &&
    forall j :: 0 <= j < |nodes[0].links| && 1 <= nodes[0].links[j] < |nodes| ==>
      nodes[nodes[0].links[j]].start > i
  }

  /** The root has a child for character c exactly when c occurs in w[i..]. */
  ghost predicate RootKeys(w: seq<char>, nodes: seq<Node>, i: int)
    requires Inv(w, nodes) && 0 <= i <= |w|
  {
    forall c :: IsDna(c) ==> (nodes[0].links[Slot(c)] != Null <==> c in w[i..])
  }

  /** What the constructor knows before inserting the suffix w[i..]. */
  ghost predicate InsertPre(w: seq<char>, nodes: seq<Node>, i: int) {
    Inv(w, nodes) && 0 <= i < |w| && RootAbove(nodes, i) && RootKeys(w, nodes, i + 1)
  }

  /** One step of the constructor's loop: inserts the suffix w[i..] below the root. */
  function Insert(w: seq<char>, nodes: seq<Node>, i: int): seq<Node>
    requires InsertPre(w, nodes, i)
  {
    var c := w[i];
    var child := nodes[0].GetLinks(c);
    if child == Null then
      (nodes + [NewNode(i, |w| - 1)])[0 := nodes[0].PutLinks(c, |nodes|)]
    else
      assert ChildOk(w, nodes, 0, Slot(c));
      Split(w, nodes, 0, child, i, |w| - 1)
  }

  /** Inserting w[i..] keeps the shape; afterwards the root has a child for exactly the letters of w[i..]. */
  lemma InsertShape(w: seq<char>, nodes: seq<Node>, i: int)
    requires InsertPre(w, nodes, i)
    ensures var r := Insert(w, nodes, i);
            Inv(w, r) && RootAbove(r, i - 1) && RootKeys(w, r, i) && |nodes| < |r| <= |nodes| + 2
  {
    var c := w[i];
    var child := nodes[0].GetLinks(c);
    var r := Insert(w, nodes, i);
    assert w[i..] == [c] + w[i + 1..];
    if child == Null {
      AddLeafOk(w, nodes, 0, i, r);
      forall d | IsDna(d)
        ensures r[0].links[Slot(d)] != Null <==> d in w[i..]
      {
        SlotInjective(c, d);
      }
    } else {
      assert ChildOk(w, nodes, 0, Slot(c));
      SplitShape(w, nodes, 0, child, i);
      SplitGrows(w, nodes, 0, child, i);
    }
  }

  /** The trie after the constructor has inserted the suffixes w[|w|-1..] down to w[i..]. */
  function BuildFrom(w: seq<char>, i: int): seq<Node>
    requires IsDnaWord(w) && 0 <= i <= |w|
    decreases |w| - i, 0
  {
    if i == |w| then
      [Root()]
    else
      BuildShape(w, i + 1);
      Insert(w, BuildFrom(w, i + 1), i)
  }

  /** Every intermediate trie of the constructor has the shape, and its root has a child for exactly the letters of w[i..]. */
  lemma {:induction false} BuildShape(w: seq<char>, i: int)
    requires IsDnaWord(w) && 0 <= i <= |w|
    ensures var r := BuildFrom(w, i);
            Inv(w, r) && RootAbove(r, i - 1) && RootKeys(w, r, i) && |r| <= 1 + 2 * (|w| - i)
    decreases |w| - i, 1
  {
    if i == |w| {
      assert forall x, j :: 0 <= x < 1 && 0 <= j < HashLinks ==> ChildOk(w, [Root()], x, j);
    } else {
      BuildShape(w, i + 1);
      InsertShape(w, BuildFrom(w, i + 1), i);
    }
  }

  /** The trie the constructor builds from the DNA word w. */
  function Build(w: seq<char>): (r: seq<Node>)
    requires IsDnaWord(w)
    ensures Inv(w, r) && RootKeys(w, r, 0)
  {
    BuildShape(w, 0);
    BuildFrom(w, 0)
  }

  /**
   * The state of findString after matching p[..j]: at the root before the
   * first character, otherwise inside or at the end of current's label,
   * having matched p[..j] against increasing positions of w up to endPosition.
   */
  ghost predicate Walk(w: seq<char>, nodes: seq<Node>, p: seq<char>, j: int,
                       current: int, cStart: int, cEnd: int, endPosition: int) {
    && Inv(w, nodes) && 0 <= j <= |p| && 0 <= current < |nodes|
    && (j == 0 ==> current == 0 && cStart > cEnd && endPosition == 0)
    && (j > 0 ==>
          && 1 <= current && cEnd == nodes[current].end && cStart == endPosition + 1
          && 0 <= endPosition <= cEnd
          && IsSubsequence(p[..j], w[..cStart]) && p[j - 1] == w[endPosition])
  }

  /** The remaining iterations of findString's loop from the state Walk describes. */
  function FindFrom(w: seq<char>, nodes: seq<Node>, p: seq<char>, j: int,
                    current: int, cStart: int, cEnd: int, endPosition: int): int
    requires Walk(w, nodes, p, j, current, cStart, cEnd, endPosition)
    decreases |p| - j
  {
    if j == |p| then
      endPosition - |p| + 1
    else if cStart > cEnd && nodes[current].GetLinks(p[j]) == Null then
      -1
    else
      var next := if cStart > cEnd then nodes[current].GetLinks(p[j]) else current;
      assert cStart > cEnd ==> ChildOk(w, nodes, current, Slot(p[j]));
      var cs := if cStart > cEnd then nodes[next].start else cStart;
      var ce := if cStart > cEnd then nodes[next].end else cEnd;
      if p[j] == w[cs] then
        WalkStep(w, nodes, p, j, current, cStart, cEnd, endPosition, next, cs, ce);
        FindFrom(w, nodes, p, j + 1, next, cs + 1, ce, cs)
      else
        -1
  }

  /** A walk that has matched all of p reports where the occurrence it found begins. */
  lemma WalkDone(w: seq<char>, nodes: seq<Node>, p: seq<char>, j: int,
                 current: int, cStart: int, cEnd: int, endPosition: int)
    requires Walk(w, nodes, p, j, current, cStart, cEnd, endPosition) && j == |p|
    ensures |p| == 0 ==> endPosition - |p| + 1 == 1
    ensures |p| > 0 ==> Reported(w, p, endPosition - |p| + 1)
  {
    if j > 0 {
      assert p[..j] == p;
      SubsequenceLength(p, w[..cStart]);
    }
  }

  /** Matching p[j] at position cs of w (after descending, if needed) keeps Walk. */
  lemma WalkStep(w: seq<char>, nodes: seq<Node>, p: seq<char>, j: int,
                 current: int, cStart: int, cEnd: int, endPosition: int, next: int, cs: int, ce: int)
    requires Walk(w, nodes, p, j, current, cStart, cEnd, endPosition) && j < |p|
    requires cStart > cEnd ==> nodes[current].links[Slot(p[j])] == next && next != Null
    requires 0 <= next < |nodes| && (cStart <= cEnd ==> next == current)
    requires cs == (if cStart > cEnd then nodes[next].start else cStart)
    requires ce == (if cStart > cEnd then nodes[next].end else cEnd)
    requires 0 <= cs < |w| && p[j] == w[cs]
    ensures Walk(w, nodes, p, j + 1, next, cs + 1, ce, cs)
  {
    if cStart > cEnd {
      assert ChildOk(w, nodes, current, Slot(p[j]));
    }
    assert cStart <= cs || j == 0;
    if j > 0 {
      assert w[..cs][..cStart] == w[..cStart];
      PrefixSubsequence(p[..j], w[..cs], cStart);
    }
    AppendBoth(p[..j], w[..cs], w[cs]);
    assert p[..j] + [p[j]] == p[..j + 1];
    assert w[..cs] + [w[cs]] == w[..cs + 1];
  }

  /**
   * r is where a reported match of the non-empty pattern p begins: p is a
   * subsequence of w[..r + |p|] whose last letter is w[r + |p| - 1].
   */
  ghost predicate Reported(w: seq<char>, p: seq<char>, r: int) {
    |p| > 0 && 0 <= r && r + |p| <= |w| && IsSubsequence(p, w[..r + |p|]) && p[|p| - 1] == w[r + |p| - 1]
  }

  /** Whatever the rest of the walk reports for a non-empty pattern is -1 or a Reported position. */
  lemma {:induction false} FindFromBounds(w: seq<char>, nodes: seq<Node>, p: seq<char>, j: int,
                                          current: int, cStart: int, cEnd: int, endPosition: int)
    requires Walk(w, nodes, p, j, current, cStart, cEnd, endPosition) && |p| > 0
    ensures var r := FindFrom(w, nodes, p, j, current, cStart, cEnd, endPosition);
            r != -1 ==> Reported(w, p, r)
    decreases |p| - j
  {
    if j == |p| {
      WalkDone(w, nodes, p, j, current, cStart, cEnd, endPosition);
    } else if cStart > cEnd && nodes[current].GetLinks(p[j]) == Null {
    } else {
      var next := if cStart > cEnd then nodes[current].GetLinks(p[j]) else current;
      assert cStart > cEnd ==> ChildOk(w, nodes, current, Slot(p[j]));
      var cs := if cStart > cEnd then nodes[next].start else cStart;
      var ce := if cStart > cEnd then nodes[next].end else cEnd;
      if p[j] == w[cs] {
        WalkStep(w, nodes, p, j, current, cStart, cEnd, endPosition, next, cs, ce);
        assert FindFrom(w, nodes, p, j, current, cStart, cEnd, endPosition) ==
               FindFrom(w, nodes, p, j + 1, next, cs + 1, ce, cs);
        FindFromBounds(w, nodes, p, j + 1, next, cs + 1, ce, cs);
      }
    }
  }

  /**
   * findString: the start of the occurrence of p that the walk down the trie
   * finds, or -1 when the walk falls off the trie or meets a mismatch.
   */
  function Find(w: seq<char>, nodes: seq<Node>, p: seq<char>): int
    requires Inv(w, nodes)
  {
    FindFrom(w, nodes, p, 0, 0, 0, -1, 0)
  }

  /**
   * On every trie the empty pattern yields 1, and any other result than -1
   * is a position r such that p is a subsequence of w[..r + |p|] ending at
   * its last letter; it need not be an occurrence.
   */
  lemma FindBounds(w: seq<char>, nodes: seq<Node>, p: seq<char>)
    requires Inv(w, nodes)
    ensures |p| == 0 ==> Find(w, nodes, p) == 1
    ensures |p| > 0 && Find(w, nodes, p) != -1 ==> Reported(w, p, Find(w, nodes, p))
  {
    assert Walk(w, nodes, p, 0, 0, 0, -1, 0);
    if |p| > 0 {
      FindFromBounds(w, nodes, p, 0, 0, 0, -1, 0);
    }
  }

  /**
   * Below node x the trie spells w[pos..] along a path of contiguous labels:
   * the child in the slot of w[pos] is labelled [pos, e], and below it the
   * path goes on with w[e + 1..], down to the end of the word.
   */
  ghost predicate Spells(w: seq<char>, nodes: seq<Node>, x: int, pos: int)
    decreases |w| - pos
  {
    && 0 <= x < |nodes| && |nodes[x].links| == HashLinks && 0 <= pos <= |w|
    && (pos < |w| ==>
          var y := nodes[x].links[Slot(w[pos])];
          && 0 <= y < |nodes| && nodes[y].start == pos && pos <= nodes[y].end < |w|
          && Spells(w, nodes, y, nodes[y].end + 1))
  }

  /** splitChild leaves every node alone whose label starts at or before index. */
  lemma {:induction false} SplitFrame(w: seq<char>, nodes: seq<Node>, parent: int, current: int, index: int)
    requires SplitPre(w, nodes, parent, current, index)
    ensures var r := Split(w, nodes, parent, current, index, |w| - 1);
            |nodes| <= |r| && forall x :: 0 <= x < |nodes| && nodes[x].start <= index ==> r[x] == nodes[x]
    decreases |w| - index
  {
    var s := nodes[current].start;
    var e := nodes[current].end;
    var i := MatchEnd(w, s, e, index);
    var index2 := index + (i - s);
    var r := Split(w, nodes, parent, current, index, |w| - 1);
    if i > e {
      var rel := nodes[current := nodes[current].(start := index, end := index2 - 1)];
      SplitFull(w, nodes, parent, current, index, i, rel);
      var child := rel[current].links[Slot(w[index2])];
      if child == Null {
        SplitLeafEntries(w, nodes, parent, current, index, index2, r);
      } else {
        SplitFrame(w, rel, current, child, index2);
        forall x | 0 <= x < |nodes| && nodes[x].start <= index ensures r[x] == nodes[x] {
          assert rel[x] == nodes[x];
        }
      }
    } else {
      SplitPartialEntries(w, nodes, parent, current, index, i, r);
    }
  }

  /** A node whose slot for w[pos] holds a node labelled [pos, e] that spells w[e + 1..] spells w[pos..]. */
  lemma SpellsStep(w: seq<char>, nodes: seq<Node>, x: int, pos: int, y: int)
    requires 0 <= x < |nodes| && |nodes[x].links| == HashLinks && 0 <= pos < |w|
    requires nodes[x].links[Slot(w[pos])] == y && 0 <= y < |nodes|
    requires nodes[y].start == pos && pos <= nodes[y].end < |w| && Spells(w, nodes, y, nodes[y].end + 1)
    ensures Spells(w, nodes, x, pos)
  {
  }

  /** A fresh leaf [pos, |w| - 1] in the slot of w[pos] spells w[pos..]. */
  lemma SpellsLeaf(w: seq<char>, nodes: seq<Node>, x: int, pos: int, y: int)
    requires 0 <= x < |nodes| && |nodes[x].links| == HashLinks && 0 <= pos < |w|
    requires nodes[x].links[Slot(w[pos])] == y && 0 <= y < |nodes| && nodes[y] == NewNode(pos, |w| - 1)
    ensures Spells(w, nodes, x, pos)
  {
    assert Spells(w, nodes, y, |w|);
  }

  /** Node x is labelled from index on and spells the rest of w[index..] below it. */
  ghost predicate SpellsFrom(w: seq<char>, nodes: seq<Node>, x: int, index: int) {
    0 <= x < |nodes| && nodes[x].start == index && index <= nodes[x].end < |w| && Spells(w, nodes, x, nodes[x].end + 1)
  }

  /** After splitChild, current is labelled from index on and spells the rest of the suffix w[index..] below it. */
  lemma {:induction false} SplitSpells(w: seq<char>, nodes: seq<Node>, parent: int, current: int, index: int)
    requires SplitPre(w, nodes, parent, current, index)
    ensures SpellsFrom(w, Split(w, nodes, parent, current, index, |w| - 1), current, index)
    decreases |w| - index
  {
    var s := nodes[current].start;
    var e := nodes[current].end;
    var i := MatchEnd(w, s, e, index);
    var index2 := index + (i - s);
    if i > e {
      var rel := nodes[current := nodes[current].(start := index, end := index2 - 1)];
      SplitFull(w, nodes, parent, current, index, i, rel);
      var child := rel[current].links[Slot(w[index2])];
      if child == Null {
        SplitSpellsLeaf(w, nodes, parent, current, index);
      } else {
        SplitSpells(w, rel, current, child, index2);
        SplitFrameAt(w, rel, current, child, index2, current);
        SpellsDescend(w, rel, Split(w, rel, current, child, index2, |w| - 1), current, child, index, index2);
      }
    } else {
      SplitSpellsPartial(w, nodes, parent, current, index);
    }
  }

  /** The full-match case of SplitSpells where current gets a fresh leaf. */
  lemma SplitSpellsLeaf(w: seq<char>, nodes: seq<Node>, parent: int, current: int, index: int)
    requires SplitPre(w, nodes, parent, current, index)
    requires var s, e := nodes[current].start, nodes[current].end;
             var i := MatchEnd(w, s, e, index);
             i > e && (index + (i - s) < |w| ==> nodes[current].links[Slot(w[index + (i - s)])] == Null)
    ensures SpellsFrom(w, Split(w, nodes, parent, current, index, |w| - 1), current, index)
  {
    var s := nodes[current].start;
    var index2 := index + (nodes[current].end + 1 - s);
    var r := Split(w, nodes, parent, current, index, |w| - 1);
    SplitLeafEntries(w, nodes, parent, current, index, index2, r);
    SpellsLeaf(w, r, current, index2, |nodes|);
  }

  /** A node labelled [index, index2 - 1] whose slot for w[index2] holds a node spelling w[index2..] spells w[index..]. */
  lemma SpellsDescend(w: seq<char>, rel: seq<Node>, r: seq<Node>, current: int, child: int, index: int, index2: int)
    requires 0 <= current < |rel| <= |r| && r[current] == rel[current]
    requires rel[current].start == index && rel[current].end == index2 - 1 && 0 <= index <= index2 - 1 && index2 < |w|
    requires |rel[current].links| == HashLinks && rel[current].links[Slot(w[index2])] == child
    requires SpellsFrom(w, r, child, index2)
    ensures SpellsFrom(w, r, current, index)
  {
    SpellsStep(w, r, current, index2, child);
  }

  /** splitChild leaves node x alone when its label starts at or before index. */
  lemma SplitFrameAt(w: seq<char>, nodes: seq<Node>, parent: int, current: int, index: int, x: int)
    requires SplitPre(w, nodes, parent, current, index) && 0 <= x < |nodes| && nodes[x].start <= index
    ensures var r := Split(w, nodes, parent, current, index, |w| - 1);
            |nodes| <= |r| && r[x] == nodes[x]
  {
    SplitFrame(w, nodes, parent, current, index);
  }

  /** The partial-match case of SplitSpells: current keeps the matched part and gets a fresh leaf for the rest of the suffix. */
  lemma SplitSpellsPartial(w: seq<char>, nodes: seq<Node>, parent: int, current: int, index: int)
    requires SplitPre(w, nodes, parent, current, index)
    requires MatchEnd(w, nodes[current].start, nodes[current].end, index) <= nodes[current].end
    ensures SpellsFrom(w, Split(w, nodes, parent, current, index, |w| - 1), current, index)
  {
    var s := nodes[current].start;
    var i := MatchEnd(w, s, nodes[current].end, index);
    var r := Split(w, nodes, parent, current, index, |w| - 1);
    assert PartialResult(w, nodes, parent, current, index, i, r);
    PartialSlots(w, nodes, parent, current, index, i, r);
    SplitPartialEntries(w, nodes, parent, current, index, i, r);
    SpellsLeaf(w, r, current, index + (i - s), |nodes| + 1);
  }

  /** Right after w[i..] is inserted, the root spells it along a path of contiguous labels. */
  lemma InsertSpells(w: seq<char>, nodes: seq<Node>, i: int)
    requires InsertPre(w, nodes, i)
    ensures Spells(w, Insert(w, nodes, i), 0, i)
  {
    var r := Insert(w, nodes, i);
    var child := nodes[0].links[Slot(w[i])];
    if child == Null {
      InsertLeafEntries(w, nodes, i, r);
      SpellsLeaf(w, r, 0, i, |nodes|);
    } else {
      InsertSplitEntries(w, nodes, i);
      SplitSpells(w, nodes, 0, child, i);
      SplitFrame(w, nodes, 0, child, i);
      assert SpellsFrom(w, r, child, i);
      assert r[0] == nodes[0];
      SpellsStep(w, r, 0, i, child);
    }
  }

  /** Walking a prefix of w along the path that spells w finds it at 0. */
  lemma {:induction false} FindAlongPath(w: seq<char>, nodes: seq<Node>, p: seq<char>, j: int,
                                         current: int, cStart: int, cEnd: int, endPosition: int)
    requires Walk(w, nodes, p, j, current, cStart, cEnd, endPosition)
    requires 1 <= |p| <= |w| && p == w[..|p|]
    requires cStart == j <= cEnd + 1 && (j > 0 ==> endPosition == j - 1)
    requires Spells(w, nodes, current, cEnd + 1)
    ensures FindFrom(w, nodes, p, j, current, cStart, cEnd, endPosition) == 0
    decreases |p| - j
  {
    if j < |p| {
      assert p[j] == w[j];
      if cStart > cEnd {
        var next := nodes[current].links[Slot(p[j])];
        var ce := nodes[next].end;
        WalkStep(w, nodes, p, j, current, cStart, cEnd, endPosition, next, j, ce);
        FindAlongPath(w, nodes, p, j + 1, next, j + 1, ce, j);
      } else {
        WalkStep(w, nodes, p, j, current, cStart, cEnd, endPosition, current, j, cEnd);
        FindAlongPath(w, nodes, p, j + 1, current, j + 1, cEnd, j);
      }
    }
  }

  /**
   * The search finds every non-empty prefix of the word at position 0, the
   * whole word included: the last suffix inserted is w itself, and its path
   * spells w from the root.
   */
  lemma FindPrefix(w: seq<char>, k: int)
    requires IsDnaWord(w) && 1 <= k <= |w|
    ensures Find(w, Build(w), w[..k]) == 0
  {
    BuildStep(w, 0);
    InsertSpells(w, BuildFrom(w, 1), 0);
    var p := w[..k];
    assert Walk(w, Build(w), p, 0, 0, 0, -1, 0);
    FindAlongPath(w, Build(w), p, 0, 0, 0, -1, 0);
  }

  /** In particular the whole word is found at 0. */
  lemma FindWholeWord(w: seq<char>)
    requires IsDnaWord(w) && |w| >= 1
    ensures Find(w, Build(w), w) == 0
  {
    FindPrefix(w, |w|);
    assert w[..|w|] == w;
  }

  /** p occurs in w starting at position k. */
  predicate OccursAt(p: seq<char>, w: seq<char>, k: int) {
    0 <= k && k + |p| <= |w| && w[k..k + |p|] == p
  }

  /** One-character patterns are found exactly when the character occurs in the word. */
  lemma FindSingle(w: seq<char>, c: char)
    requires IsDnaWord(w)
    ensures var r := Find(w, Build(w), [c]);
            (r != -1 <==> c in w) && (r != -1 ==> OccursAt([c], w, r))
  {
    var nodes := Build(w);
    var y := nodes[0].links[Slot(c)];
    assert w[0..] == w;
    assert ChildOk(w, nodes, 0, Slot(c));
    if y != Null {
      var k := nodes[y].start;
      if IsDna(c) {
        SlotInjective(c, w[k]);
      }
      if c == w[k] {
        WalkStep(w, nodes, [c], 0, 0, 0, -1, 0, y, k, nodes[y].end);
        assert FindFrom(w, nodes, [c], 1, y, k + 1, nodes[y].end, k) == k;
        assert w[k..k + 1] == [w[k]];
      }
    }
  }

  /** Words whose letters are pairwise different (so at most one of each base). */
  predicate DistinctLetters(w: seq<char>) {
    forall a, b :: 0 <= a < b < |w| ==> w[a] != w[b]
  }

  /** Every node except the root is a childless leaf reaching the end of the word. */
  ghost predicate AllLeaves(w: seq<char>, nodes: seq<Node>) {
    forall x :: 1 <= x < |nodes| ==> nodes[x].end == |w| - 1 && nodes[x].links == NewNode(0, 0).links
  }

  /**
   * With distinct letters every suffix hangs directly below the root: the
   * trie after inserting w[|w|-1..] down to w[i..] is the root and one leaf
   * per suffix, node x being the leaf for w[|w|-x..], and the root's slot
   * for w[k] holds the leaf of w[k..].
   */
  lemma {:induction false} DistinctBuildsLeaves(w: seq<char>, i: int)
    requires IsDnaWord(w) && DistinctLetters(w) && 0 <= i <= |w|
    ensures AllLeaves(w, BuildFrom(w, i))
    ensures var r := BuildFrom(w, i);
            && |r| == |w| - i + 1 && |r[0].links| == HashLinks
            && (forall x :: 1 <= x < |r| ==> r[x] == NewNode(|w| - x, |w| - 1))
            && (forall k :: i <= k < |w| ==> r[0].links[Slot(w[k])] == |w| - k)
    decreases |w| - i
  {
    if i < |w| {
      DistinctBuildsLeaves(w, i + 1);
      DistinctNeverSplits(w, i);
      var nodes := BuildFrom(w, i + 1);
      BuildLeafEntries(w, i);
      var r := BuildFrom(w, i);
      forall x | 1 <= x < |r|
        ensures r[x] == NewNode(|w| - x, |w| - 1)
      {
        if x < |nodes| {
          assert r[x] == nodes[x];
        }
      }
      forall k | i < k < |w|
        ensures r[0].links[Slot(w[k])] == |w| - k
      {
        SlotInjective(w[i], w[k]);
        assert nodes[0].links[Slot(w[k])] == |w| - k;
      }
    }
  }

  /** With distinct letters the root has no child for w[k] when w[k..] is inserted, so splitChild is never called. */
  lemma DistinctNeverSplits(w: seq<char>, k: int)
    requires IsDnaWord(w) && DistinctLetters(w) && 0 <= k < |w|
    ensures var b := BuildFrom(w, k + 1);
            |b| >= 1 && |b[0].links| == HashLinks && b[0].links[Slot(w[k])] == Null
  {
    BuildShape(w, k + 1);
    assert w[k] !in w[k + 1..];
  }

  /** Walking along a leaf labelled w[k..] after matching p[..j] finds k exactly when p occurs at k. */
  lemma {:induction false} LeafWalk(w: seq<char>, nodes: seq<Node>, p: seq<char>, j: int, y: int, k: int)
    requires Walk(w, nodes, p, j, y, k + j, |w| - 1, k + j - 1) && j >= 1
    requires nodes[y].start == k && nodes[y].end == |w| - 1 && nodes[y].links == NewNode(0, 0).links
    requires w[k..k + j] == p[..j]
    ensures FindFrom(w, nodes, p, j, y, k + j, |w| - 1, k + j - 1) == (if OccursAt(p, w, k) then k else -1)
    decreases |p| - j
  {
    if j == |p| {
      assert p[..j] == p;
    } else if k + j > |w| - 1 {
      assert nodes[y].GetLinks(p[j]) == Null;
    } else if p[j] == w[k + j] {
      WalkStep(w, nodes, p, j, y, k + j, |w| - 1, k + j - 1, y, k + j, |w| - 1);
      assert w[k..k + j + 1] == w[k..k + j] + [w[k + j]];
      assert p[..j + 1] == p[..j] + [p[j]];
      LeafWalk(w, nodes, p, j + 1, y, k);
    }
  }

  /** With distinct letters a pattern occurs at most once. */
  lemma OccurrenceUnique(w: seq<char>, p: seq<char>, k: int, k': int)
    requires DistinctLetters(w) && |p| > 0 && OccursAt(p, w, k) && OccursAt(p, w, k')
    ensures k == k'
  {
    assert w[k..k + |p|][0] == p[0] == w[k'..k' + |p|][0];
  }

  /** Any occurrence of p starts with p's first letter, which then has a child of the root. */
  lemma OccurrenceStartsAtRootChild(w: seq<char>, p: seq<char>, k: int)
    requires IsDnaWord(w) && |p| > 0 && OccursAt(p, w, k)
    ensures w[k] == p[0] && Build(w)[0].links[Slot(p[0])] != Null
  {
    var nodes := Build(w);
    assert w[k..k + |p|][0] == p[0];
    assert w[0..] == w;
    assert IsDna(w[k]) && w[k] in w[0..];
  }

  /** The first iteration of findString: descend from the root under p[0] and compare with the child's first letter. */
  lemma FindFirst(w: seq<char>, nodes: seq<Node>, p: seq<char>)
    requires Inv(w, nodes) && |p| > 0
    ensures ChildOk(w, nodes, 0, Slot(p[0]))
    ensures var y := nodes[0].links[Slot(p[0])];
            (y == Null ==> Find(w, nodes, p) == -1) &&
            (y != Null && p[0] != w[nodes[y].start] ==> Find(w, nodes, p) == -1) &&
            (y != Null && p[0] == w[nodes[y].start] ==>
               var k := nodes[y].start;
               Walk(w, nodes, p, 1, y, k + 1, nodes[y].end, k) &&
               Find(w, nodes, p) == FindFrom(w, nodes, p, 1, y, k + 1, nodes[y].end, k))
  {
    assert ChildOk(w, nodes, 0, Slot(p[0]));
    var y := nodes[0].links[Slot(p[0])];
    if y != Null && p[0] == w[nodes[y].start] {
      WalkStep(w, nodes, p, 0, 0, 0, -1, 0, y, nodes[y].start, nodes[y].end);
    }
  }

  /** When every non-root node is a leaf, the search from the root child labelled with p[0] is exact. */
  lemma FindDistinctHit(w: seq<char>, nodes: seq<Node>, p: seq<char>, y: int)
    requires Inv(w, nodes) && AllLeaves(w, nodes) && |p| > 0
    requires y == nodes[0].links[Slot(p[0])] && 1 <= y < |nodes|
    requires p[0] == w[nodes[y].start]
    ensures Find(w, nodes, p) == (if OccursAt(p, w, nodes[y].start) then nodes[y].start else -1)
  {
    var k := nodes[y].start;
    FindFirst(w, nodes, p);
    assert nodes[y].end == |w| - 1 && nodes[y].links == NewNode(0, 0).links;
    assert Walk(w, nodes, p, 1, y, k + 1, |w| - 1, k);
    assert Find(w, nodes, p) == FindFrom(w, nodes, p, 1, y, k + 1, |w| - 1, k);
    assert w[k..k + 1] == [w[k]] && p[..1] == [p[0]];
    LeafWalk(w, nodes, p, 1, y, k);
  }

  /** On a word with distinct letters findString is exact: it finds p exactly when p occurs, and where. */
  lemma FindDistinct(w: seq<char>, p: seq<char>)
    requires IsDnaWord(w) && DistinctLetters(w) && |p| > 0
    ensures var r := Find(w, Build(w), p);
            (r != -1 <==> exists k :: OccursAt(p, w, k)) && (r != -1 ==> OccursAt(p, w, r))
  {
    var nodes := Build(w);
    var c := p[0];
    var y := nodes[0].links[Slot(c)];
    FindFirst(w, nodes, p);
    if y == Null {
      forall k | OccursAt(p, w, k)
        ensures false
      {
        OccurrenceStartsAtRootChild(w, p, k);
      }
    } else {
      var k := nodes[y].start;
      if c == w[k] {
        DistinctBuildsLeaves(w, 0);
        FindDistinctHit(w, nodes, p, y);
        forall k' | OccursAt(p, w, k')
          ensures OccursAt(p, w, k)
        {
          OccurrenceUnique(w, p, k, k');
        }
      } else {
        forall k' | OccursAt(p, w, k')
          ensures false
        {
          OccurrenceStartsAtRootChild(w, p, k');
          SlotInjective(w[k'], w[k]);
        }
      }
    }
  }

  /** One step of the constructor: BuildFrom(w, i) inserts w[i..] into BuildFrom(w, i + 1). */
  lemma BuildStep(w: seq<char>, i: int)
    requires IsDnaWord(w) && 0 <= i < |w|
    ensures InsertPre(w, BuildFrom(w, i + 1), i) && BuildFrom(w, i) == Insert(w, BuildFrom(w, i + 1), i)
  {
    BuildShape(w, i + 1);
  }

  /** When the root has no child for w[i], inserting w[i..] appends the leaf [i, |w| - 1] below the root. */
  lemma InsertLeafEntries(w: seq<char>, nodes: seq<Node>, i: int, r: seq<Node>)
    requires InsertPre(w, nodes, i) && nodes[0].links[Slot(w[i])] == Null && r == Insert(w, nodes, i)
    ensures |r| == |nodes| + 1 && r[0] == nodes[0].PutLinks(w[i], |nodes|)
    ensures forall x :: 1 <= x < |nodes| ==> r[x] == nodes[x]
    ensures r[|nodes|] == NewNode(i, |w| - 1)
  {
  }

  /** When the root has a child for w[i], inserting w[i..] is a split below that child. */
  lemma InsertSplitEntries(w: seq<char>, nodes: seq<Node>, i: int)
    requires InsertPre(w, nodes, i) && nodes[0].links[Slot(w[i])] != Null
    ensures SplitPre(w, nodes, 0, nodes[0].links[Slot(w[i])], i)
    ensures Insert(w, nodes, i) == Split(w, nodes, 0, nodes[0].links[Slot(w[i])], i, |w| - 1)
  {
    assert ChildOk(w, nodes, 0, Slot(w[i]));
  }

  /** A step of the constructor that hangs a leaf below the root, stated on BuildFrom. */
  lemma BuildLeafEntries(w: seq<char>, i: int)
    requires IsDnaWord(w) && 0 <= i < |w|
    ensures var b := BuildFrom(w, i + 1);
            var r := BuildFrom(w, i);
            && |b| >= 1 && |b[0].links| == HashLinks
            && (b[0].links[Slot(w[i])] == Null ==>
                  && |r| == |b| + 1 && r[0] == b[0].PutLinks(w[i], |b|)
                  && (forall x :: 1 <= x < |b| ==> r[x] == b[x])
                  && r[|b|] == NewNode(i, |w| - 1))
  {
    BuildStep(w, i);
    if BuildFrom(w, i + 1)[0].links[Slot(w[i])] == Null {
      InsertLeafEntries(w, BuildFrom(w, i + 1), i, BuildFrom(w, i));
    }
  }

  /** A step of the constructor that splits below the root's child for w[i], stated on BuildFrom. */
  lemma BuildSplitEntries(w: seq<char>, i: int)
    requires IsDnaWord(w) && 0 <= i < |w|
    ensures var b := BuildFrom(w, i + 1);
            && |b| >= 1 && |b[0].links| == HashLinks
            && var c := b[0].links[Slot(w[i])];
               c != Null ==> SplitPre(w, b, 0, c, i) && BuildFrom(w, i) == Split(w, b, 0, c, i, |w| - 1)
  {
    BuildStep(w, i);
    if BuildFrom(w, i + 1)[0].links[Slot(w[i])] != Null {
      InsertSplitEntries(w, BuildFrom(w, i + 1), i);
    }
  }

  /**
   * A split whose whole label matches, at a node with no child for the next
   * letter w[index2]: the label moves to [index, index2 - 1] and a leaf
   * [index2, |w| - 1] is appended below it.
   */
  lemma SplitLeafEntries(w: seq<char>, nodes: seq<Node>, parent: int, current: int, index: int, index2: int, r: seq<Node>)
    requires SplitPre(w, nodes, parent, current, index)
    requires MatchEnd(w, nodes[current].start, nodes[current].end, index) == nodes[current].end + 1
    requires index2 == index + (nodes[current].end + 1 - nodes[current].start)
    requires r == Split(w, nodes, parent, current, index, |w| - 1)
    ensures index2 < |w|
    ensures nodes[current].links[Slot(w[index2])] == Null ==>
              && |r| == |nodes| + 1
              && r[current] == Node(index, index2 - 1, nodes[current].links[Slot(w[index2]) := |nodes|])
              && (forall x :: 0 <= x < |nodes| && x != current ==> r[x] == nodes[x])
              && r[|nodes|] == NewNode(index2, |w| - 1)
  {
    var rel := nodes[current := nodes[current].(start := index, end := index2 - 1)];
    RelabelOk(w, nodes, parent, current, index, nodes[current].end + 1, rel);
  }

  /**
   * A split that stops at position i inside the label: current keeps the
   * matched part [index, index2 - 1] and gets the fresh children [i, end]
   * and [index2, |w| - 1]; its old children stay where they were.
   */
  lemma SplitPartialEntries(w: seq<char>, nodes: seq<Node>, parent: int, current: int, index: int, i: int, r: seq<Node>)
    requires SplitPre(w, nodes, parent, current, index)
    requires i == MatchEnd(w, nodes[current].start, nodes[current].end, index) && i <= nodes[current].end
    requires r == Split(w, nodes, parent, current, index, |w| - 1)
    ensures var index2 := index + (i - nodes[current].start);
            && index2 < |w|
            && |r| == |nodes| + 2
            && r[current] == Node(index, index2 - 1,
                                  nodes[current].links[Slot(w[i]) := |nodes|][Slot(w[index2]) := |nodes| + 1])
            && (forall x :: 0 <= x < |nodes| && x != current ==> r[x] == nodes[x])
            && r[|nodes|] == NewNode(i, nodes[current].end)
            && r[|nodes| + 1] == NewNode(index2, |w| - 1)
  {
  }

  /** The letters of the word AGACAC, one by one. */
  ghost predicate IsAgacac(w: seq<char>) {
    IsDnaWord(w) && |w| == 6 && w[0] == 'A' && w[1] == 'G' && w[2] == 'A' && w[3] == 'C' && w[4] == 'A' && w[5] == 'C'
  }

  /** The two comparisons of the last split of AGACAC: A matches, then C differs from G. */
  lemma AgacacMatch(w: seq<char>)
    requires IsAgacac(w)
    ensures MatchEnd(w, 2, 3, 0) == 3
  {
    assert MatchEnd(w, 3, 3, 1) == 3;
  }

  /** The trie of AGACAC's last suffix C: one leaf below the root. */
  lemma AgacacTrie5(w: seq<char>)
    requires IsAgacac(w)
    ensures var b := BuildFrom(w, 5);
            |b| == 2 && b[0] == Node(-1, -1, [-1, -1, 1, -1, -1]) && b[1] == NewNode(5, 5)
  {
    BuildLeafEntries(w, 5);
    assert BuildFrom(w, 6) == [Root()];
  }

  /** Inserting AC adds a second leaf below the root. */
  lemma AgacacTrie4(w: seq<char>)
    requires IsAgacac(w)
    ensures var b := BuildFrom(w, 4);
            |b| == 3 && b[0] == Node(-1, -1, [2, -1, 1, -1, -1]) && b[1] == NewNode(5, 5) && b[2] == NewNode(4, 5)
  {
    BuildLeafEntries(w, 4);
    AgacacTrie5(w);
  }

  /** Inserting CAC matches the whole label C of node 1 and hangs the leaf AC below it. */
  lemma AgacacTrie3(w: seq<char>)
    requires IsAgacac(w)
    ensures var b := BuildFrom(w, 3);
            |b| == 4 && b[0] == Node(-1, -1, [2, -1, 1, -1, -1]) && b[1] == Node(3, 3, [3, -1, -1, -1, -1]) &&
            b[2] == NewNode(4, 5) && b[3] == NewNode(4, 5)
  {
    var b4 := BuildFrom(w, 4);
    BuildSplitEntries(w, 3);
    AgacacTrie4(w);
    assert MatchEnd(w, 5, 5, 3) == 6;
    SplitLeafEntries(w, b4, 0, b4[0].links[Slot(w[3])], 3, 4, BuildFrom(w, 3));
  }

  /** Inserting ACAC matches the whole label AC of node 2 and hangs the leaf AC below it. */
  lemma AgacacTrie2(w: seq<char>)
    requires IsAgacac(w)
    ensures var b := BuildFrom(w, 2);
            |b| == 5 && b[0] == Node(-1, -1, [2, -1, 1, -1, -1]) && b[1] == Node(3, 3, [3, -1, -1, -1, -1]) &&
            b[2] == Node(2, 3, [4, -1, -1, -1, -1]) && b[3] == NewNode(4, 5) && b[4] == NewNode(4, 5)
  {
    var b3 := BuildFrom(w, 3);
    BuildSplitEntries(w, 2);
    AgacacTrie3(w);
    assert MatchEnd(w, 4, 5, 2) == 6;
    SplitLeafEntries(w, b3, 0, b3[0].links[Slot(w[2])], 2, 4, BuildFrom(w, 2));
  }

  /** Inserting GACAC adds a leaf below the root. */
  lemma AgacacTrie1(w: seq<char>)
    requires IsAgacac(w)
    ensures var b := BuildFrom(w, 1);
            |b| == 6 && b[0] == Node(-1, -1, [2, 5, 1, -1, -1]) && b[1] == Node(3, 3, [3, -1, -1, -1, -1]) &&
            b[2] == Node(2, 3, [4, -1, -1, -1, -1]) && b[3] == NewNode(4, 5) && b[4] == NewNode(4, 5) &&
            b[5] == NewNode(1, 5)
  {
    BuildLeafEntries(w, 1);
    AgacacTrie2(w);
  }

  /**
   * The trie the constructor builds from AGACAC: inserting AGACAC splits
   * the label AC of node 2 after its A into the fresh nodes 6 (C) and 7
   * (GACAC), while node 4 (AC) stays below node 2.
   */
  lemma AgacacTrie(w: seq<char>)
    requires IsAgacac(w)
    ensures var b := Build(w);
            |b| == 8 && b[0] == Node(-1, -1, [2, 5, 1, -1, -1]) && b[2] == Node(0, 0, [4, 7, 6, -1, -1]) &&
            b[4] == NewNode(4, 5) && b[6] == NewNode(3, 3) && b[7] == NewNode(1, 5)
  {
    var b1 := BuildFrom(w, 1);
    BuildSplitEntries(w, 0);
    AgacacTrie1(w);
    AgacacMatch(w);
    SplitPartialEntries(w, b1, 0, b1[0].links[Slot(w[0])], 0, 3, BuildFrom(w, 0));
  }

  /** The two searches on that trie: AAC walks A, then A C along node 4; ACAC falls off below node 6. */
  lemma AgacacFind(w: seq<char>, b: seq<Node>)
    requires IsAgacac(w) && Inv(w, b) && |b| == 8
    requires b[0] == Node(-1, -1, [2, 5, 1, -1, -1]) && b[2] == Node(0, 0, [4, 7, 6, -1, -1])
    requires b[4] == NewNode(4, 5) && b[6] == NewNode(3, 3)
    ensures Find(w, b, "AAC") == 3 && Find(w, b, "ACAC") == -1
  {
    var p := "AAC";
    WalkStep(w, b, p, 0, 0, 0, -1, 0, 2, 0, 0);
    WalkStep(w, b, p, 1, 2, 1, 0, 0, 4, 4, 5);
    WalkStep(w, b, p, 2, 4, 5, 5, 4, 4, 5, 5);
    var q := "ACAC";
    WalkStep(w, b, q, 0, 0, 0, -1, 0, 2, 0, 0);
    WalkStep(w, b, q, 1, 2, 1, 0, 0, 6, 3, 3);
  }

  /**
   * On AGACAC the search is neither sound nor complete, because a partial
   * split leaves the old children under the shortened node: AAC is reported
   * at position 3 although it does not occur, and ACAC, which occurs at 2,
   * is not found.
   */
  lemma AgacacCounterexample(w: seq<char>)
    requires w == "AGACAC"
    ensures Find(w, Build(w), "AAC") == 3 && (forall k :: !OccursAt("AAC", w, k)) &&
            Find(w, Build(w), "ACAC") == -1 && OccursAt("ACAC", w, 2)
  {
    assert IsAgacac(w);
    AgacacTrie(w);
    AgacacFind(w, Build(w));
    forall k | 0 <= k && k + 3 <= |w|
      ensures !OccursAt("AAC", w, k)
    {
      assert w[k..k + 3][0] != 'A' || w[k..k + 3][1] != 'A';
    }
    assert w[2..6] == "ACAC";
  }
}
