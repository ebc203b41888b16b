/**
 * The tasks of the scheduler and the array-backed binary min-heap it sorts
 * them with. The heap is 1-based: slot 0 is never used, the children of
 * slot p are 2p and 2p + 1, entries counts the stored nodes and lastNode
 * is the first free slot.
 */
module MinHeaps {
  import opened Wrappers

  /** A task; startTime is set only when it is scheduled (0 until then). */
  datatype Task = Task(name: string, release: int, deadline: int, startTime: int)

  /** A list or heap node: the key the heap orders by and the payload it carries. */
  datatype Node = Node(key: int, value: Task)

  /** The key of an occupied slot (0 for an empty one, which no caller reads). */
  function Key(o: Option<Node>): int {
    if o.Some? then o.value.key else 0
  }

  /** Slots 1 .. n - 1 are occupied and every other slot is empty. */
  ghost predicate Filled(h: seq<Option<Node>>, n: int) {
    && 1 <= n <= |h|
    && h[0].None?
    && (forall i :: 1 <= i < n ==> h[i].Some?)
    && (forall i :: n <= i < |h| ==> h[i].None?)
  }

  /** The slot above slot i. */
  function Parent(i: int): int {
    i / 2
  }

  /** Slots 1 .. n - 1 are occupied. */
  ghost predicate Occupied(h: seq<Option<Node>>, n: int) {
    forall i :: 1 <= i < n && i < |h| ==> h[i].Some?
  }

  /** h agrees with h0 on slot 0 and on every slot from n on. */
  ghost predicate SameOutside(h0: seq<Option<Node>>, h: seq<Option<Node>>, n: int) {
    && |h| == |h0| && 1 <= n <= |h|
    && h[0] == h0[0]
    && h[n..] == h0[n..]
  }

  /** Among slots 1 .. n - 1 no key is smaller than its parent's. */
  ghost predicate Ordered(h: seq<Option<Node>>, n: int)
    requires n <= |h|
  {
    forall i {:trigger Parent(i)} :: 2 <= i < n ==> Key(h[Parent(i)]) <= Key(h[i])
  }

  /**
   * The heap order while bubbleUp moves slot pos upwards: it holds
   * everywhere except between pos and its parent, and pos's parent is not
   * larger than pos's children.
   */
  ghost predicate UpOk(h: seq<Option<Node>>, n: int, pos: int)
    requires n <= |h|
  {
    && (forall i {:trigger Parent(i)} :: 2 <= i < n && i != pos ==> Key(h[Parent(i)]) <= Key(h[i]))
    && (pos >= 2 ==> forall i {:trigger Parent(i)} :: 2 <= i < n && Parent(i) == pos ==> Key(h[Parent(pos)]) <= Key(h[i]))
  }

  /**
   * The heap order while bubbleDown moves slot pos downwards: it holds
   * everywhere except between pos and its children, and pos's parent is
   * not larger than pos's children.
   */
  ghost predicate DownOk(h: seq<Option<Node>>, n: int, pos: int)
    requires n <= |h|
  {
    && (forall i {:trigger Parent(i)} :: 2 <= i < n && Parent(i) != pos ==> Key(h[Parent(i)]) <= Key(h[i]))
    && (pos >= 2 ==> forall i {:trigger Parent(i)} :: 2 <= i < n && Parent(i) == pos ==> Key(h[Parent(pos)]) <= Key(h[i]))
  }

  /** In an ordered heap the root is a minimum of the stored nodes. */
  lemma {:induction false} RootIsMin(h: seq<Option<Node>>, n: int, i: int)
    requires n <= |h| && Ordered(h, n) && 1 <= i < n
    ensures Key(h[1]) <= Key(h[i])
    decreases i
  {
    if i > 1 {
      RootIsMin(h, n, Parent(i));
    }
  }

  /** Exchanging two slots of 1 .. n - 1 keeps the nodes stored there. */
  lemma SwapKeepsNodes(h: seq<Option<Node>>, n: int, x: int, y: int)
    requires 1 <= x < n && 1 <= y < n && n <= |h|
    ensures multiset(h[x := h[y]][y := h[x]][1..n]) == multiset(h[1..n])
  {
    var s := h[1..n];
    var s1 := s[x - 1 := h[y]];
    assert h[x := h[y]][y := h[x]][1..n] == s1[y - 1 := h[x]];
    assert multiset(s1) == multiset(s) - multiset{h[x]} + multiset{h[y]};
    assert s1[y - 1] == h[y] || x == y;
  }

  /**
   * What bubbleUp and bubbleDown promise: h is an ordered heap of slots
   * 1 .. n - 1 holding the nodes h0 held there, and the other slots are
   * as in h0.
   */
  ghost predicate Rearranged(h0: seq<Option<Node>>, h: seq<Option<Node>>, n: int) {
    && SameOutside(h0, h, n)
    && Occupied(h, n)
    && Ordered(h, n)
    && multiset(h[1..n]) == multiset(h0[1..n])
  }

  /** A hook naming a slot; the quantifier of KeysAtLeast fires only for slots a proof names with it. */
  ghost predicate Listed(o: Option<Node>) {
    true
  }

  /** No slot in m has a key smaller than k. */
  ghost predicate KeysAtLeast(m: multiset<Option<Node>>, k: int) {
    forall o {:trigger Listed(o)} :: o in m ==> k <= Key(o)
  }

  /** A swap of two stored slots followed by a rearrangement is a rearrangement. */
  lemma SwapRearranged(h: seq<Option<Node>>, s: seq<Option<Node>>, t: seq<Option<Node>>, n: int, x: int, y: int)
    requires 1 <= x < n && 1 <= y < n && n <= |h|
    requires s == h[x := h[y]][y := h[x]] && Rearranged(s, t, n)
    ensures Rearranged(h, t, n)
  {
    SwapKeepsNodes(h, n, x, y);
    assert s[n..] == h[n..];
  }

  /** What bubbleUp does to the slots: swap slot pos with a larger parent and go on from there. */
  ghost function SiftUp(h: seq<Option<Node>>, pos: int): (r: seq<Option<Node>>)
    requires 1 <= pos < |h| && Occupied(h, pos + 1)
    ensures |r| == |h|
    decreases pos
  {
    if pos == 1 then h
    else if Key(h[pos]) < Key(h[Parent(pos)]) then
      SiftUp(h[pos := h[Parent(pos)]][Parent(pos) := h[pos]], Parent(pos))
    else h
  }

  /** The child bubbleDown compares slot pos with (n is the first free slot); pos itself if it has none. */
  function MinChild(h: seq<Option<Node>>, n: int, pos: int): int
    requires 1 <= pos && n <= |h|
  {
    if 2 * pos + 1 >= n then (if 2 * pos >= n then pos else 2 * pos)
    else if Key(h[2 * pos]) <= Key(h[2 * pos + 1]) then 2 * pos
    else 2 * pos + 1
  }

  /** What bubbleDown does to the slots: swap slot pos with a smaller child and go on from there. */
  ghost function SiftDown(h: seq<Option<Node>>, n: int, pos: int): (r: seq<Option<Node>>)
    requires 1 <= pos < n <= |h| && Occupied(h, n)
    ensures |r| == |h|
    decreases n - pos
  {
    var m := MinChild(h, n, pos);
    if m != pos && Key(h[pos]) > Key(h[m]) then
      SiftDown(h[pos := h[m]][m := h[pos]], n, m)
    else h
  }

  class MinHeap {
    /** The slots; heap[0] is unused. */
    const heap: array<Option<Node>>
    var entries: int
    /** The first free slot. */
    var lastNode: int
    /** The root's slot. */
    const minPos: int
    /** The number of slots, the capacity plus one. */
    const size: int

    ghost predicate Valid()
      reads this, heap
    {
      && minPos == 1
      && size == heap.Length
      && lastNode == entries + 1
      && Filled(heap[..], lastNode)
      && Ordered(heap[..], lastNode)
    }

    /** The nodes the heap stores. */
    ghost function Contents(): multiset<Option<Node>>
      reads this, heap
      requires 1 <= lastNode <= heap.Length
    {
      multiset(heap[1..lastNode])
    }

    /** An empty heap for up to capacity nodes. */
    constructor (capacity: nat)
      ensures Valid() && entries == 0 && size == capacity + 1 && fresh(heap)
    {
      var slots := new Option<Node>[capacity + 1];
      for i := 0 to capacity + 1
        invariant forall k :: 0 <= k < i ==> slots[k] == None
      {
        slots[i] := None;
      }
      heap := slots;
      entries := 0;
      lastNode := 1;
      minPos := 1;
      size := capacity + 1;
    }

    /** getParent: the slot above slot i. */
    function GetParent(i: int): (r: int)
      requires i >= 1
      ensures r == Parent(i) && 0 <= r < i
    {
      if i % 2 == 0 then i / 2 else (i - 1) / 2
    }

    /** swap: exchanges two slots and nothing else. */
    method Swap(x: int, y: int)
      requires 0 <= x < heap.Length && 0 <= y < heap.Length
      modifies heap
      ensures heap[..] == old(heap[..])[x := old(heap[y])][y := old(heap[x])]
    {
      var temp := heap[x];
      heap[x] := heap[y];
      heap[y] := temp;
    }

    /**
     * bubbleUp, during insert (the new node sits in slot lastNode, which
     * lastNode does not count yet): moves slot pos up until its parent is
     * not larger.
     */
    method BubbleUp(pos: int)
      requires minPos == 1 && 1 <= pos < heap.Length
      requires Occupied(heap[..], pos + 1)
      modifies heap
      ensures heap[..] == SiftUp(old(heap[..]), pos)
      decreases pos
    {
      if pos == minPos {
        return;
      }
      var parent := GetParent(pos);
      if heap[pos].value.key < heap[parent].value.key {
        Swap(pos, parent);
        BubbleUp(parent);
      }
    }

    /**
     * bubbleDown, after removeMin has moved the last node to the root:
     * moves slot pos down below its smaller child until no child is smaller.
     */
    method BubbleDown(pos: int)
      requires minPos == 1 && 1 <= pos < lastNode <= heap.Length
      requires Occupied(heap[..], lastNode)
      modifies heap
      ensures heap[..] == SiftDown(old(heap[..]), lastNode, pos)
      decreases lastNode - pos
    {
      var leftPos := pos * 2;
      var rightPos := pos * 2 + 1;
      var minChild;
      if rightPos >= lastNode {
        if leftPos >= lastNode {
          return;
        } else {
          minChild := leftPos;
        }
      } else {
        if heap[leftPos].value.key <= heap[rightPos].value.key {
          minChild := leftPos;
        } else {
          minChild := rightPos;
        }
      }
      if heap[pos].value.key > heap[minChild].value.key {
        Swap(pos, minChild);
        BubbleDown(minChild);
      }
    }

    /**
     * insert: stores n in the first free slot and bubbles it up. There is
     * no capacity check, so the heap must not be full.
     */
    method Insert(n: Node)
      requires Valid() && lastNode < heap.Length
      modifies this, heap
      ensures Valid()
      ensures entries == old(entries) + 1
      ensures Contents() == old(Contents()) + multiset{Some(n)}
    {
      ghost var h := heap[..];
      heap[lastNode] := Some(n);
      assert heap[..] == h[lastNode := Some(n)];
      entries := entries + 1;
      BubbleUp(lastNode);
      InsertDone(h, lastNode, n, heap[..]);
      lastNode := lastNode + 1;
    }

    /**
     * removeMin: None on an empty heap, which it leaves alone; otherwise
     * the root, which has a minimum key. The last node takes the root's
     * place and bubbles down, and its old slot is cleared. The source reads
     * slot 1 before looking at entries, so the heap needs one slot at least.
     */
    method RemoveMin() returns (r: Option<Node>)
      requires Valid() && heap.Length >= 2
      modifies this, heap
      ensures Valid()
      ensures old(entries) == 0 ==> r.None? && entries == 0 && heap[..] == old(heap[..]) && Contents() == old(Contents())
      ensures old(entries) > 0 ==>
                && r.Some? && r in old(Contents())
                && KeysAtLeast(old(Contents()), r.value.key)
                && entries == old(entries) - 1
                && Contents() == old(Contents()) - multiset{r}
    {
      var currentMin := heap[minPos];
      var actualLast := lastNode - 1;
      if entries == 0 {
        return None;
      }
      ghost var h := heap[..];
      RootIsMinAll(h, lastNode);
      if entries == 1 {
        heap[minPos] := None;
        lastNode := lastNode - 1;
        entries := entries - 1;
        RemoveLast(h, heap[..]);
      } else {
        Swap(minPos, actualLast);
        heap[actualLast] := None;
        lastNode := lastNode - 1;
        entries := entries - 1;
        ghost var cleared := heap[..];
        assert cleared == h[1 := h[actualLast]][actualLast := h[1]][actualLast := None];
        BubbleDown(minPos);
        RemoveDone(h, cleared, heap[..], lastNode);
      }
      r := currentMin;
    }
  }

  /** After writing the new node into slot n - 1 of an ordered heap, bubbleUp may start there. */
  lemma InsertStart(h: seq<Option<Node>>, last: int, n: Node)
    requires 1 <= last < |h| && Ordered(h, last)
    ensures UpOk(h[last := Some(n)], last + 1, last)
  {
  }

  /** bubbleUp stops at the root or below a parent that is not larger. */
  lemma UpStop(h: seq<Option<Node>>, n: int, pos: int)
    requires 1 <= pos < n <= |h| && Occupied(h, n) && UpOk(h, n, pos)
    requires pos == 1 || Key(h[Parent(pos)]) <= Key(h[pos])
    ensures Rearranged(h, h, n)
  {
  }

  /** One step of bubbleUp: after swapping pos with its larger parent, the fault is at the parent. */
  lemma UpStep(h: seq<Option<Node>>, n: int, pos: int)
    requires 2 <= pos < n <= |h| && UpOk(h, n, pos) && Key(h[pos]) < Key(h[Parent(pos)])
    ensures UpOk(h[pos := h[Parent(pos)]][Parent(pos) := h[pos]], n, Parent(pos))
  {
  }

  /** bubbleDown stops at a slot without children. */
  lemma DownLeaf(h: seq<Option<Node>>, n: int, pos: int)
    requires 1 <= pos && n <= |h| && DownOk(h, n, pos) && 2 * pos >= n
    ensures Ordered(h, n)
  {
  }

  /** bubbleDown stops when the smaller child is not smaller than pos. */
  lemma DownStop(h: seq<Option<Node>>, n: int, pos: int, m: int)
    requires 1 <= pos && n <= |h| && DownOk(h, n, pos)
    requires Parent(m) == pos && 2 <= m < n && Key(h[pos]) <= Key(h[m])
    requires forall i {:trigger Parent(i)} :: 2 <= i < n && Parent(i) == pos ==> Key(h[m]) <= Key(h[i])
    ensures Ordered(h, n)
  {
  }

  /** One step of bubbleDown: after swapping pos with its smaller child m, the fault is at m. */
  lemma DownStep(h: seq<Option<Node>>, n: int, pos: int, m: int)
    requires 1 <= pos && n <= |h| && DownOk(h, n, pos)
    requires Parent(m) == pos && 2 <= m < n && Key(h[m]) < Key(h[pos])
    requires forall i {:trigger Parent(i)} :: 2 <= i < n && Parent(i) == pos ==> Key(h[m]) <= Key(h[i])
    ensures DownOk(h[pos := h[m]][m := h[pos]], n, m)
  {
  }

  /** The root of an ordered heap is not larger than any stored node. */
  lemma RootIsMinAll(h: seq<Option<Node>>, n: int)
    requires 2 <= n <= |h| && Ordered(h, n)
    ensures KeysAtLeast(multiset(h[1..n]), Key(h[1]))
  {
    forall o | o in multiset(h[1..n]) ensures Key(h[1]) <= Key(o) {
      var i :| 1 <= i < n && h[i] == o by {
        assert o in h[1..n];
      }
      RootIsMin(h, n, i);
    }
  }

  /** Swapping two stored slots keeps them stored. */
  lemma SwapOccupied(h: seq<Option<Node>>, n: int, x: int, y: int)
    requires 1 <= x < n && 1 <= y < n && n <= |h| && Occupied(h, n)
    ensures Occupied(h[x := h[y]][y := h[x]], n)
  {
  }

  /** bubbleUp from a slot where the order may fail only above it leaves an ordered heap of the same nodes. */
  lemma {:induction false} SiftUpRearranged(h: seq<Option<Node>>, n: int, pos: int)
    requires 1 <= pos < n <= |h| && Occupied(h, n) && UpOk(h, n, pos)
    ensures Rearranged(h, SiftUp(h, pos), n)
    decreases pos
  {
    if pos == 1 || Key(h[pos]) >= Key(h[Parent(pos)]) {
      UpStop(h, n, pos);
    } else {
      var s := h[pos := h[Parent(pos)]][Parent(pos) := h[pos]];
      UpStep(h, n, pos);
      SwapOccupied(h, n, pos, Parent(pos));
      SiftUpRearranged(s, n, Parent(pos));
      SwapRearranged(h, s, SiftUp(s, Parent(pos)), n, pos, Parent(pos));
    }
  }

  /** bubbleDown from a slot where the order may fail only below it leaves an ordered heap of the same nodes. */
  lemma {:induction false} SiftDownRearranged(h: seq<Option<Node>>, n: int, pos: int)
    requires 1 <= pos < n <= |h| && Occupied(h, n) && DownOk(h, n, pos)
    ensures Rearranged(h, SiftDown(h, n, pos), n)
    decreases n - pos
  {
    var m := MinChild(h, n, pos);
    if m == pos {
      DownLeaf(h, n, pos);
      assert h[n..] == h[n..];
    } else if Key(h[pos]) <= Key(h[m]) {
      DownStop(h, n, pos, m);
      assert h[n..] == h[n..];
    } else {
      var s := h[pos := h[m]][m := h[pos]];
      DownStep(h, n, pos, m);
      SwapOccupied(h, n, pos, m);
      SiftDownRearranged(s, n, m);
      SwapRearranged(h, s, SiftDown(s, n, m), n, pos, m);
    }
  }

  /** Filling the first free slot and bubbling it up gives an ordered heap with one more node. */
  lemma InsertDone(h: seq<Option<Node>>, last: int, n: Node, t: seq<Option<Node>>)
    requires 1 <= last < |h| && Filled(h, last) && Ordered(h, last)
    requires t == SiftUp(h[last := Some(n)], last)
    ensures Filled(t, last + 1) && Ordered(t, last + 1)
    ensures multiset(t[1..last + 1]) == multiset(h[1..last]) + multiset{Some(n)}
  {
    var h1 := h[last := Some(n)];
    assert h1[1..last + 1] == h[1..last] + [Some(n)];
    InsertStart(h, last, n);
    SiftUpRearranged(h1, last + 1, last);
    RearrangedFilled(h1, t, last + 1);
  }

  /** A rearrangement of a filled heap is filled. */
  lemma RearrangedFilled(h0: seq<Option<Node>>, h: seq<Option<Node>>, n: int)
    requires Filled(h0, n) && Rearranged(h0, h, n)
    ensures Filled(h, n)
  {
    forall i | n <= i < |h| ensures h[i].None? {
      assert h[i] == h[n..][i - n];
    }
  }

  /** removeMin of the only node leaves an empty heap. */
  lemma RemoveLast(h: seq<Option<Node>>, t: seq<Option<Node>>)
    requires Filled(h, 2) && t == h[1 := None]
    ensures Filled(t, 1) && Ordered(t, 1)
    ensures multiset(t[1..1]) == multiset(h[1..2]) - multiset{h[1]}
  {
    assert h[1..2] == [h[1]];
  }

  /**
   * removeMin with two or more nodes: the last node was swapped to the
   * root, its old slot cleared and the root bubbled down; what is left is
   * an ordered heap of the old nodes minus the root.
   */
  lemma RemoveDone(h: seq<Option<Node>>, cleared: seq<Option<Node>>, t: seq<Option<Node>>, n: int)
    requires 2 <= n && n + 1 <= |h| && Filled(h, n + 1) && Ordered(h, n + 1)
    requires cleared == h[1 := h[n]][n := h[1]][n := None]
    requires t == SiftDown(cleared, n, 1)
    ensures Filled(t, n) && Ordered(t, n)
    ensures multiset(t[1..n]) == multiset(h[1..n + 1]) - multiset{h[1]}
  {
    var swapped := h[1 := h[n]][n := h[1]];
    assert swapped[1..n + 1] == cleared[1..n] + [h[1]];
    SwapKeepsNodes(h, n + 1, 1, n);
    forall i | 2 <= i < n && Parent(i) != 1 ensures Key(cleared[Parent(i)]) <= Key(cleared[i]) {
      assert cleared[i] == h[i] && cleared[Parent(i)] == h[Parent(i)];
    }
    assert Filled(cleared, n) && DownOk(cleared, n, 1);
    SiftDownRearranged(cleared, n, 1);
    RearrangedFilled(cleared, t, n);
  }
}
