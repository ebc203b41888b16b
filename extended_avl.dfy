/**
 * Copying and merging AVL trees (ExtendedAVLTree). A tree is a proper
 * binary tree: internal nodes hold an entry and the height field that the
 * AVL tree keeps for rebalancing, external nodes hold nothing. Parent links
 * are not stored: in a tree value every node's parent is the node above it.
 */
module ExtendedAvl {

  /** An entry of the map; the comparator of the tree is <= on keys. */
  datatype Entry = Entry(key: int, value: int)

  /** A node: an external leaf, or an internal node with its entry and stored height. */
  datatype Tree = External | Internal(left: Tree, entry: Entry, right: Tree, height: int)

  /**
   * The tree object: the root, size (the number of internal and external
   * nodes) and numEntries (the number of internal nodes).
   */
  datatype AvlTree = AvlTree(root: Tree, size: int, numEntries: int)

  function Max(a: int, b: int): int {
    if a >= b then a else b
  }

  /** The number of entries (internal nodes). */
  function Count(t: Tree): nat {
    match t
    case External => 0
    case Internal(l, _, r, _) => Count(l) + 1 + Count(r)
  }

  /** The number of nodes, internal and external. */
  function Nodes(t: Tree): nat {
    match t
    case External => 1
    case Internal(l, _, r, _) => Nodes(l) + 1 + Nodes(r)
  }

  /** The entries in in-order: left subtree, node, right subtree. */
  function InOrder(t: Tree): (s: seq<Entry>)
    ensures |s| == Count(t)
  {
    match t
    case External => []
    case Internal(l, e, r, _) => InOrder(l) + [e] + InOrder(r)
  }

  /** The height field as the AVL tree reads it: an external node has height 0. */
  function Height(t: Tree): int {
    match t
    case External => 0
    case Internal(_, _, _, h) => h
  }

  /** The actual height of the tree. */
  function TrueHeight(t: Tree): nat {
    match t
    case External => 0
    case Internal(l, _, r, _) => 1 + Max(TrueHeight(l), TrueHeight(r)) as nat
  }

  /** Every internal node stores one more than the larger height of its children, as setHeight does. */
  predicate HeightsCorrect(t: Tree) {
    match t
    case External => true
    case Internal(l, _, r, h) => HeightsCorrect(l) && HeightsCorrect(r) && h == 1 + Max(Height(l), Height(r))
  }

  /** The AVL balance condition: at every internal node the children's heights differ by one at most. */
  predicate HeightBalanced(t: Tree) {
    match t
    case External => true
    case Internal(l, _, r, _) =>
      HeightBalanced(l) && HeightBalanced(r) && -1 <= TrueHeight(r) - TrueHeight(l) <= 1
  }

  /** Same shape and the same entry at every position; stored heights may differ. */
  predicate SameShape(a: Tree, b: Tree) {
    match (a, b)
    case (External, External) => true
    case (Internal(l1, e1, r1, _), Internal(l2, e2, r2, _)) => e1 == e2 && SameShape(l1, l2) && SameShape(r1, r2)
    case _ => false
  }

  /** At every internal node the right subtree holds as many entries as the left, or one more. */
  predicate SizeBalanced(t: Tree) {
    match t
    case External => true
    case Internal(l, _, r, _) =>
      SizeBalanced(l) && SizeBalanced(r) && (Count(r) == Count(l) || Count(r) == Count(l) + 1)
  }

  /** Entries in non-decreasing key order, as the in-order list of a search tree is. */
  predicate SortedByKey(s: seq<Entry>) {
    forall i, j :: 0 <= i < j < |s| ==> s[i].key <= s[j].key
  }

  /** A proper binary tree with n entries has 2n + 1 nodes, which is the size merge sets. */
  lemma {:induction false} NodeCount(t: Tree)
    ensures Nodes(t) == 2 * Count(t) + 1
  {
    match t
    case External =>
    case Internal(l, _, r, _) =>
      NodeCount(l);
      NodeCount(r);
  }

  /** Where the stored heights are correct they are the actual heights. */
  lemma {:induction false} HeightsAreTrue(t: Tree)
    requires HeightsCorrect(t)
    ensures Height(t) == TrueHeight(t)
  {
    match t
    case External =>
    case Internal(l, _, r, _) =>
      HeightsAreTrue(l);
      HeightsAreTrue(r);
  }

  /** Trees of the same shape list the same entries in order. */
  lemma {:induction false} SameShapeInOrder(a: Tree, b: Tree)
    requires SameShape(a, b)
    ensures InOrder(a) == InOrder(b)
  {
    match (a, b)
    case (External, External) =>
    case (Internal(l1, _, r1, _), Internal(l2, _, r2, _)) =>
      SameShapeInOrder(l1, l2);
      SameShapeInOrder(r1, r2);
  }

  // ---------------------------------------------------------------- clone

  /**
   * constructRestOfTree: copies the children of orig below a fresh node
   * carrying orig's entry, then sets the copy's height from its children;
   * external nodes are copied without a height.
   */
  function ConstructRestOfTree(orig: Tree): (copy: Tree)
    ensures SameShape(copy, orig) && HeightsCorrect(copy)
    ensures HeightsCorrect(orig) ==> copy == orig
  {
    match orig
    case External => External
    case Internal(l, e, r, _) =>
      var left := ConstructRestOfTree(l);
      var right := ConstructRestOfTree(r);
      Internal(left, e, right, 1 + Max(Height(left), Height(right)))
  }

  /** clone: a tree with the same shape and entries, the heights set, and the counts copied. */
  function Clone(tree: AvlTree): (c: AvlTree)
    ensures SameShape(c.root, tree.root) && InOrder(c.root) == InOrder(tree.root)
    ensures HeightsCorrect(c.root)
    ensures c.size == tree.size && c.numEntries == tree.numEntries
  {
    var root := ConstructRestOfTree(tree.root);
    SameShapeInOrder(root, tree.root);
    AvlTree(root, tree.size, tree.numEntries)
  }

  /** A clone of a tree whose heights are already right is equal to it. */
  lemma CloneOfCorrect(tree: AvlTree)
    requires HeightsCorrect(tree.root)
    ensures Clone(tree) == tree
  {
  }

  // ---------------------------------------------------------------- merge

  /** s with the part from index i on overwritten by t. */
  function Splice(s: seq<Entry>, i: int, t: seq<Entry>): seq<Entry>
    requires 0 <= i && i + |t| <= |s|
  {
    s[..i] + t + s[i + |t|..]
  }

  /** Splicing nothing changes nothing. */
  lemma SpliceEmpty(s: seq<Entry>, i: int)
    requires 0 <= i <= |s|
    ensures Splice(s, i, []) == s
  {
    assert s[..i] + [] + s[i..] == s;
  }

  /** Writing x just after a spliced part extends that part by x. */
  lemma SpliceWrite(s: seq<Entry>, i: int, t: seq<Entry>, x: Entry)
    requires 0 <= i && i + |t| < |s|
    ensures Splice(s, i, t)[i + |t| := x] == Splice(s, i, t + [x])
  {
    assert Splice(s, i, t)[i + |t| := x] == s[..i] + (t + [x]) + s[i + |t| + 1..];
  }

  /** Splicing u just after a spliced part t splices t + u. */
  lemma SpliceSplice(s: seq<Entry>, i: int, t: seq<Entry>, u: seq<Entry>)
    requires 0 <= i && i + |t| + |u| <= |s|
    ensures Splice(Splice(s, i, t), i + |t|, u) == Splice(s, i, t + u)
  {
    var s1 := Splice(s, i, t);
    assert s1[..i + |t|] == s[..i] + t;
    assert s1[i + |t| + |u|..] == s[i + |t| + |u|..];
  }

  /**
   * getInOrderList: writes the entries of the subtree below current, in
   * in-order, into list from index i on, and returns the index after the
   * last one written. current must be internal: the source reads the entry
   * of its left child.
   */
  method GetInOrderList(list: array<Entry>, current: Tree, i: int) returns (r: int)
    requires current.Internal? && 0 <= i && i + Count(current) <= list.Length
    modifies list
    ensures r == i + Count(current)
    ensures list[..] == Splice(old(list[..]), i, InOrder(current))
    decreases current
  {
    ghost var a := list[..];
    r := i;
    if current.left.Internal? {
      r := GetInOrderList(list, current.left, r);
    } else {
      SpliceEmpty(a, i);
    }
    SpliceWrite(a, i, InOrder(current.left), current.entry);
    list[r] := current.entry;
    r := r + 1;
    ghost var b := list[..];
    ghost var left := InOrder(current.left) + [current.entry];
    if current.right.Internal? {
      r := GetInOrderList(list, current.right, r);
      SpliceSplice(a, i, left, InOrder(current.right));
      assert InOrder(current) == left + InOrder(current.right);
    } else {
      assert InOrder(current) == left;
    }
  }

  /**
   * The stable merge of two lists: the head with the smaller key goes first,
   * and on equal keys the head of a goes first.
   */
  function MergeEntries(a: seq<Entry>, b: seq<Entry>): (m: seq<Entry>)
    ensures |m| == |a| + |b|
    decreases |a| + |b|
  {
    if |a| == 0 then b
    else if |b| == 0 then a
    else if a[0].key <= b[0].key then [a[0]] + MergeEntries(a[1..], b)
    else [b[0]] + MergeEntries(a, b[1..])
  }

  /** The merge holds exactly the entries of both lists. */
  lemma {:induction false} MergeMultiset(a: seq<Entry>, b: seq<Entry>)
    ensures multiset(MergeEntries(a, b)) == multiset(a) + multiset(b)
    decreases |a| + |b|
  {
    if |a| > 0 && |b| > 0 {
      if a[0].key <= b[0].key {
        MergeMultiset(a[1..], b);
        assert a == [a[0]] + a[1..];
      } else {
        MergeMultiset(a, b[1..]);
        assert b == [b[0]] + b[1..];
      }
    }
  }

  /** Every key of s is at least k. */
  predicate KeysFrom(s: seq<Entry>, k: int) {
    forall x :: x in s ==> x.key >= k
  }

  /** Merging two sorted lists gives a sorted list. */
  lemma {:induction false} MergeSorted(a: seq<Entry>, b: seq<Entry>)
    requires SortedByKey(a) && SortedByKey(b)
    ensures SortedByKey(MergeEntries(a, b))
    decreases |a| + |b|
  {
    if |a| > 0 && |b| > 0 {
      SortedTail(a);
      SortedTail(b);
      if a[0].key <= b[0].key {
        MergeSorted(a[1..], b);
        SortedFrom(b, a[0].key);
        MergeKeysFrom(a[1..], b, a[0].key);
        HeadThenSorted(a[0], MergeEntries(a[1..], b));
      } else {
        MergeSorted(a, b[1..]);
        SortedFrom(a, b[0].key);
        MergeKeysFrom(a, b[1..], b[0].key);
        HeadThenSorted(b[0], MergeEntries(a, b[1..]));
      }
    }
  }

  /** The tail of a sorted list is sorted and bounded below by the head. */
  lemma SortedTail(s: seq<Entry>)
    requires SortedByKey(s) && |s| > 0
    ensures SortedByKey(s[1..]) && KeysFrom(s[1..], s[0].key)
  {
    forall x | x in s[1..] ensures x.key >= s[0].key {
      var j :| 0 <= j < |s[1..]| && s[1..][j] == x;
      assert s[j + 1] == x;
    }
  }

  /** A sorted list whose head is at least k has every key at least k. */
  lemma SortedFrom(s: seq<Entry>, k: int)
    requires SortedByKey(s) && (|s| > 0 ==> s[0].key >= k)
    ensures KeysFrom(s, k)
  {
    forall x | x in s ensures x.key >= k {
      var j :| 0 <= j < |s| && s[j] == x;
      if j > 0 {
        assert s[0].key <= s[j].key;
      }
    }
  }

  /** A lower bound on the keys of both lists bounds the keys of their merge. */
  lemma MergeKeysFrom(a: seq<Entry>, b: seq<Entry>, k: int)
    requires KeysFrom(a, k) && KeysFrom(b, k)
    ensures KeysFrom(MergeEntries(a, b), k)
  {
    MergeMultiset(a, b);
    forall x | x in MergeEntries(a, b) ensures x.key >= k {
      assert x in multiset(MergeEntries(a, b));
      assert x in multiset(a) || x in multiset(b);
    }
  }

  /** A head no larger than anything after it, followed by a sorted list, is sorted. */
  lemma HeadThenSorted(h: Entry, rest: seq<Entry>)
    requires SortedByKey(rest) && KeysFrom(rest, h.key)
    ensures SortedByKey([h] + rest)
  {
    var s := [h] + rest;
    forall i, j | 0 <= i < j < |s| ensures s[i].key <= s[j].key {
      if i > 0 {
        assert s[i] == rest[i - 1] && s[j] == rest[j - 1];
      } else {
        assert s[j] == rest[j - 1];
      }
    }
  }

  /** The entries of s with key k, in their order in s. */
  function WithKey(s: seq<Entry>, k: int): seq<Entry> {
    if |s| == 0 then []
    else (if s[0].key == k then [s[0]] else []) + WithKey(s[1..], k)
  }

  /** A sorted list whose first key is above k has no entry with key k. */
  lemma {:induction false} WithKeyNone(s: seq<Entry>, k: int)
    requires SortedByKey(s) && |s| > 0 && s[0].key > k
    ensures WithKey(s, k) == []
    decreases |s|
  {
    if |s| > 1 {
      WithKeyNone(s[1..], k);
    }
  }

  /**
   * The merge is stable: for every key, the entries with that key come out
   * in their order in a followed by their order in b.
   */
  lemma {:induction false} MergeStable(a: seq<Entry>, b: seq<Entry>, k: int)
    requires SortedByKey(a) && SortedByKey(b)
    ensures WithKey(MergeEntries(a, b), k) == WithKey(a, k) + WithKey(b, k)
    decreases |a| + |b|
  {
    if |a| == 0 {
      assert a == [];
    } else if |b| == 0 {
      assert b == [];
    } else if a[0].key <= b[0].key {
      MergeStable(a[1..], b, k);
      StableLeft(a, b, k);
    } else {
      MergeStable(a, b[1..], k);
      if b[0].key == k {
        WithKeyNone(a, k);
      }
      StableRight(a, b, k);
    }
  }

  /** The step of MergeStable that takes the head of a. */
  lemma StableLeft(a: seq<Entry>, b: seq<Entry>, k: int)
    requires |a| > 0 && |b| > 0 && a[0].key <= b[0].key
    requires WithKey(MergeEntries(a[1..], b), k) == WithKey(a[1..], k) + WithKey(b, k)
    ensures WithKey(MergeEntries(a, b), k) == WithKey(a, k) + WithKey(b, k)
  {
    var h := if a[0].key == k then [a[0]] else [];
    MergeTakeLeft(a, b);
    WithKeyCons(a[0], MergeEntries(a[1..], b), k);
    WithKeyCons(a[0], a[1..], k);
    assert [a[0]] + a[1..] == a;
    ConcatAssoc(h, WithKey(a[1..], k), WithKey(b, k));
  }

  /** The step of MergeStable that takes the head of b, which comes before every entry of a with its key. */
  lemma StableRight(a: seq<Entry>, b: seq<Entry>, k: int)
    requires |a| > 0 && |b| > 0 && a[0].key > b[0].key
    requires b[0].key == k ==> WithKey(a, k) == []
    requires WithKey(MergeEntries(a, b[1..]), k) == WithKey(a, k) + WithKey(b[1..], k)
    ensures WithKey(MergeEntries(a, b), k) == WithKey(a, k) + WithKey(b, k)
  {
    MergeTakeRight(a, b);
    WithKeyCons(b[0], MergeEntries(a, b[1..]), k);
    WithKeyCons(b[0], b[1..], k);
    assert [b[0]] + b[1..] == b;
    if b[0].key == k {
      assert WithKey(a, k) + WithKey(b[1..], k) == WithKey(b[1..], k);
    } else {
      assert WithKey(b, k) == WithKey(b[1..], k);
    }
  }

  lemma ConcatAssoc(x: seq<Entry>, y: seq<Entry>, z: seq<Entry>)
    ensures x + (y + z) == (x + y) + z
  {
  }

  /** Filtering a list with a head added. */
  lemma WithKeyCons(x: Entry, s: seq<Entry>, k: int)
    ensures WithKey([x] + s, k) == (if x.key == k then [x] else []) + WithKey(s, k)
  {
    assert ([x] + s)[1..] == s;
  }

  /** Taking the head of a when its key is not above b's head. */
  lemma MergeTakeLeft(a: seq<Entry>, b: seq<Entry>)
    requires |a| > 0 && (|b| == 0 || a[0].key <= b[0].key)
    ensures MergeEntries(a, b) == [a[0]] + MergeEntries(a[1..], b)
  {
    if |b| == 0 {
      assert MergeEntries(a[1..], b) == a[1..];
      assert a == [a[0]] + a[1..];
    }
  }

  /** Taking the head of b when a is used up or its head's key is above b's. */
  lemma MergeTakeRight(a: seq<Entry>, b: seq<Entry>)
    requires |b| > 0 && (|a| == 0 || a[0].key > b[0].key)
    ensures MergeEntries(a, b) == [b[0]] + MergeEntries(a, b[1..])
  {
    if |a| == 0 {
      assert b == [b[0]] + b[1..];
    }
  }

  /** Taking a[i1] next continues the merge of a and b. */
  lemma AdvanceLeft(a: seq<Entry>, b: seq<Entry>, i1: int, i2: int, done: seq<Entry>)
    requires 0 <= i1 < |a| && 0 <= i2 <= |b| && (i2 == |b| || a[i1].key <= b[i2].key)
    requires done + MergeEntries(a[i1..], b[i2..]) == MergeEntries(a, b)
    ensures (done + [a[i1]]) + MergeEntries(a[i1 + 1..], b[i2..]) == MergeEntries(a, b)
  {
    MergeTakeLeft(a[i1..], b[i2..]);
    assert a[i1..][1..] == a[i1 + 1..];
    ConcatAssoc(done, [a[i1]], MergeEntries(a[i1 + 1..], b[i2..]));
  }

  /** Taking b[i2] next continues the merge of a and b. */
  lemma AdvanceRight(a: seq<Entry>, b: seq<Entry>, i1: int, i2: int, done: seq<Entry>)
    requires 0 <= i1 <= |a| && 0 <= i2 < |b| && (i1 == |a| || a[i1].key > b[i2].key)
    requires done + MergeEntries(a[i1..], b[i2..]) == MergeEntries(a, b)
    ensures (done + [b[i2]]) + MergeEntries(a[i1..], b[i2 + 1..]) == MergeEntries(a, b)
  {
    MergeTakeRight(a[i1..], b[i2..]);
    assert b[i2..][1..] == b[i2 + 1..];
    ConcatAssoc(done, [b[i2]], MergeEntries(a[i1..], b[i2 + 1..]));
  }

  /** Writes x after the iR entries already merged into list3, leaving the part from n on alone. */
  method Emit(list3: array<Entry>, iR: int, x: Entry, ghost n: int, ghost done: seq<Entry>)
    requires 0 <= iR < n <= list3.Length && list3[..iR] == done
    modifies list3
    ensures list3[..iR + 1] == done + [x]
    ensures list3[n..] == old(list3[n..])
  {
    list3[iR] := x;
    assert list3[..iR + 1] == list3[..iR] + [x];
  }

  /**
   * One round of the first loop of mergeInOrderList: compares the next
   * keys of both lists and moves the entry of list1 when its key is not
   * larger, else the entry of list2.
   */
  method MergeStep(list1: array<Entry>, list2: array<Entry>, list3: array<Entry>, i1: int, i2: int,
                   ghost a: seq<Entry>, ghost b: seq<Entry>, ghost n: int, ghost done: seq<Entry>)
    returns (i1': int, i2': int, ghost done': seq<Entry>)
    requires list3 != list1 && list3 != list2 && list1[..] == a && list2[..] == b
    requires n == |a| + |b| <= list3.Length
    requires 0 <= i1 < |a| && 0 <= i2 < |b|
    requires list3[..i1 + i2] == done && done + MergeEntries(a[i1..], b[i2..]) == MergeEntries(a, b)
    modifies list3
    ensures i1' + i2' == i1 + i2 + 1 && i1 <= i1' <= |a| && i2 <= i2' <= |b|
    ensures list3[..i1' + i2'] == done' && done' + MergeEntries(a[i1'..], b[i2'..]) == MergeEntries(a, b)
    ensures list3[n..] == old(list3[n..])
  {
    if list1[i1].key <= list2[i2].key {
      AdvanceLeft(a, b, i1, i2, done);
      Emit(list3, i1 + i2, list1[i1], n, done);
      done' := done + [a[i1]];
      i1', i2' := i1 + 1, i2;
    } else {
      AdvanceRight(a, b, i1, i2, done);
      Emit(list3, i1 + i2, list2[i2], n, done);
      done' := done + [b[i2]];
      i1', i2' := i1, i2 + 1;
    }
  }

  /**
   * mergeInOrderList: merges list1 and list2 into the front of list3 with
   * three index loops, taking from list1 while its key compares <= 0 with
   * list2's, then copying what is left of either.
   */
  method MergeInOrderList(list1: array<Entry>, list2: array<Entry>, list3: array<Entry>)
    requires list3.Length >= list1.Length + list2.Length
    requires list3 != list1 && list3 != list2
    modifies list3
    ensures list3[..list1.Length + list2.Length] == MergeEntries(list1[..], list2[..])
    ensures list3[list1.Length + list2.Length..] == old(list3[list1.Length + list2.Length..])
  {
    ghost var a := list1[..];
    ghost var b := list2[..];
    ghost var n := list1.Length + list2.Length;
    ghost var done: seq<Entry> := [];
    var i1, i2, iR := 0, 0, 0;
    assert a[0..] == a && b[0..] == b;
    while i1 < list1.Length && i2 < list2.Length
      invariant 0 <= i1 <= list1.Length && 0 <= i2 <= list2.Length && iR == i1 + i2
      invariant list1[..] == a && list2[..] == b
      invariant list3[..iR] == done && done + MergeEntries(a[i1..], b[i2..]) == MergeEntries(a, b)
      invariant list3[n..] == old(list3[n..])
    {
      i1, i2, done := MergeStep(list1, list2, list3, i1, i2, a, b, n, done);
      iR := iR + 1;
    }
    if i1 < list1.Length {
      assert b[i2..] == [];
      iR := CopyRest(list1, i1, list3, iR, n, done);
      assert MergeEntries(a[i1..], b[i2..]) == a[i1..];
    } else {
      assert a[i1..] == [];
      iR := CopyRest(list2, i2, list3, iR, n, done);
    }
  }

  /**
   * The two copying loops of mergeInOrderList: once one list is used up,
   * the rest of the other, src[i0..], goes to list3 from index iR0 on.
   */
  method CopyRest(src: array<Entry>, i0: int, list3: array<Entry>, iR0: int, ghost n: int, ghost done: seq<Entry>)
    returns (iR: int)
    requires src != list3 && 0 <= i0 <= src.Length && 0 <= iR0 && iR0 + src.Length - i0 == n <= list3.Length
    requires list3[..iR0] == done
    modifies list3
    ensures iR == n && list3[..n] == done + src[i0..]
    ensures list3[n..] == old(list3[n..])
  {
    var i := i0;
    iR := iR0;
    while i < src.Length
      invariant i0 <= i <= src.Length && iR == iR0 + i - i0
      invariant list3[..iR] == done + src[i0..i]
      invariant list3[n..] == old(list3[n..])
    {
      Emit(list3, iR, src[i], n, done + src[i0..i]);
      assert src[i0..i + 1] == src[i0..i] + [src[i]];
      i := i + 1;
      iR := iR + 1;
    }
    assert src[i0..] == src[i0..src.Length];
  }

  /** A slice is the part before index mid, the entry at mid and the part after it. */
  lemma SliceAround(s: seq<Entry>, lo: int, mid: int, hi: int)
    requires 0 <= lo <= mid < hi <= |s|
    ensures s[lo..hi] == s[lo..mid] + [s[mid]] + s[mid + 1..hi]
  {
    assert s[lo..hi] == s[lo..mid] + s[mid..hi];
    assert s[mid..hi] == [s[mid]] + s[mid + 1..hi];
  }

  /**
   * listToTree: roots the subtree for list[start..end] at the middle index
   * start + (end - start) / 2, builds the left part from the entries before
   * it (an external node when there are none) and the right part from those
   * after it. The new nodes carry height 0 until heights are set.
   */
  function ListToTree(list: seq<Entry>, start: int, end: int): (t: Tree)
    requires 0 <= start <= end < |list|
    ensures t.Internal? && InOrder(t) == list[start..end + 1]
    ensures SizeBalanced(t)
    decreases end - start
  {
    var current := start + (end - start) / 2;
    if start == end then
      assert list[start..end + 1] == [list[current]];
      Internal(External, list[current], External, 0)
    else
      var left := if current != start then ListToTree(list, start, current - 1) else External;
      var right := ListToTree(list, current + 1, end);
      ListToTreeStep(list, start, current, end, left, right);
      Internal(left, list[current], right, 0)
  }

  /** The node listToTree builds from its two recursive results lists list[start..end] and is size-balanced. */
  lemma ListToTreeStep(list: seq<Entry>, start: int, current: int, end: int, left: Tree, right: Tree)
    requires 0 <= start < end < |list| && current == start + (end - start) / 2
    requires InOrder(left) == list[start..current] && SizeBalanced(left)
    requires InOrder(right) == list[current + 1..end + 1] && SizeBalanced(right)
    ensures InOrder(Internal(left, list[current], right, 0)) == list[start..end + 1]
    ensures SizeBalanced(Internal(left, list[current], right, 0))
  {
    SliceAround(list, start, current, end + 1);
    assert Count(left) == current - start && Count(right) == end - current;
  }

  /**
   * finalSettingOfHeight: sets the height of every internal node below node
   * in post-order, each from its children's.
   */
  function FinalSettingOfHeight(node: Tree): (t: Tree)
    requires node.Internal?
    ensures t.Internal? && SameShape(t, node) && HeightsCorrect(t)
  {
    var left := if node.left.Internal? then FinalSettingOfHeight(node.left) else node.left;
    var right := if node.right.Internal? then FinalSettingOfHeight(node.right) else node.right;
    Internal(left, node.entry, right, 1 + Max(Height(left), Height(right)))
  }

  /** Trees of the same shape have the same entry counts below every node. */
  lemma {:induction false} SameShapeSizeBalanced(a: Tree, b: Tree)
    requires SameShape(a, b) && SizeBalanced(b)
    ensures SizeBalanced(a) && Count(a) == Count(b) && TrueHeight(a) == TrueHeight(b)
  {
    match (a, b)
    case (External, External) =>
    case (Internal(l1, _, r1, _), Internal(l2, _, r2, _)) =>
      SameShapeSizeBalanced(l1, l2);
      SameShapeSizeBalanced(r1, r2);
  }

  /** The number of binary digits of n. */
  function Bits(n: nat): nat {
    if n == 0 then 0 else 1 + Bits(n / 2)
  }

  /** One more entry adds a binary digit at most. */
  lemma {:induction false} BitsStep(n: nat)
    ensures Bits(n) <= Bits(n + 1) <= Bits(n) + 1
  {
    if n > 0 && (n + 1) / 2 != n / 2 {
      BitsStep(n / 2);
    }
  }

  /**
   * A size-balanced tree with n entries has the height of a complete tree,
   * the number of binary digits of n, and satisfies the AVL condition.
   */
  lemma {:induction false} SizeBalancedIsAvl(t: Tree)
    requires SizeBalanced(t)
    ensures TrueHeight(t) == Bits(Count(t)) && HeightBalanced(t)
  {
    match t
    case External =>
    case Internal(l, _, r, _) =>
      SizeBalancedIsAvl(l);
      SizeBalancedIsAvl(r);
      var cl, cr := Count(l), Count(r);
      BitsStep(cl);
      if cr == cl {
        assert (cl + 1 + cr) / 2 == cr;
      } else {
        assert (cl + 1 + cr) / 2 == cr;
        assert Bits(cl) <= Bits(cr) <= Bits(cl) + 1;
      }
      assert Bits(Count(t)) == 1 + Bits(cr);
      assert TrueHeight(t) == 1 + Bits(cr);
  }

  /**
   * merge: lists the entries of both trees in order, merges the two lists
   * and rebuilds a tree from the merged list with all heights set. Both
   * trees must hold an entry (the source reads the left child of each root)
   * and know their entry count.
   */
  method Merge(tree1: AvlTree, tree2: AvlTree) returns (merged: AvlTree)
    requires tree1.root.Internal? && tree1.numEntries == Count(tree1.root)
    requires tree2.root.Internal? && tree2.numEntries == Count(tree2.root)
    ensures InOrder(merged.root) == MergeEntries(InOrder(tree1.root), InOrder(tree2.root))
    ensures merged.numEntries == tree1.numEntries + tree2.numEntries && merged.size == 2 * merged.numEntries + 1
    ensures merged.numEntries == Count(merged.root) && merged.size == Nodes(merged.root)
    ensures HeightsCorrect(merged.root) && HeightBalanced(merged.root)
  {
    var tree1Nodes := new Entry[tree1.numEntries];
    var tree2Nodes := new Entry[tree2.numEntries];
    var mergeNodes := new Entry[tree1.numEntries + tree2.numEntries];
    var n1 := GetInOrderList(tree1Nodes, tree1.root, 0);
    var n2 := GetInOrderList(tree2Nodes, tree2.root, 0);
    assert tree1Nodes[..] == InOrder(tree1.root);
    assert tree2Nodes[..] == InOrder(tree2.root);
    MergeInOrderList(tree1Nodes, tree2Nodes, mergeNodes);
    assert mergeNodes[..] == mergeNodes[..tree1Nodes.Length + tree2Nodes.Length];
    var built := ListToTree(mergeNodes[..], 0, mergeNodes.Length - 1);
    assert mergeNodes[..][0..mergeNodes.Length] == mergeNodes[..];
    var root := FinalSettingOfHeight(built);
    SameShapeInOrder(root, built);
    SameShapeSizeBalanced(root, built);
    SizeBalancedIsAvl(root);
    NodeCount(root);
    var numEntries := tree1.numEntries + tree2.numEntries;
    merged := AvlTree(root, numEntries * 2 + 1, numEntries);
  }

  /** Merging two search trees gives a search tree holding the entries of both. */
  lemma MergedIsSearchTree(tree1: AvlTree, tree2: AvlTree, merged: AvlTree)
    requires SortedByKey(InOrder(tree1.root)) && SortedByKey(InOrder(tree2.root))
    requires InOrder(merged.root) == MergeEntries(InOrder(tree1.root), InOrder(tree2.root))
    ensures SortedByKey(InOrder(merged.root))
    ensures multiset(InOrder(merged.root)) == multiset(InOrder(tree1.root)) + multiset(InOrder(tree2.root))
  {
    MergeSorted(InOrder(tree1.root), InOrder(tree2.root));
    MergeMultiset(InOrder(tree1.root), InOrder(tree2.root));
  }
}
