/**
 * MyDlist: a doubly linked list of words between a header and a trailer
 * sentinel, and its static set operations. cloneList and union copy
 * nodes into a new list, stripDuplicates unlinks later copies of a word in
 * place, and intersection walks the shorter list against the other.
 *
 * The list's node sequence is kept as the ghost field nodes; Valid() ties
 * it to the prev/next links, so every contract is stated on the words the
 * list holds, Elements().
 */
module MyDlists {
  import opened WordSets

  /** A list node. Its element is set once, when the node is made. */
  class DNode {
    const element: string
    var prev: DNode?
    var next: DNode?

    constructor (e: string, p: DNode?, n: DNode?)
      ensures element == e && prev == p && next == n
    {
      element := e;
      prev := p;
      next := n;
    }
  }

  /** The words held by a run of nodes. */
  function Words(ns: seq<DNode>): seq<string> {
    seq(|ns|, k requires 0 <= k < |ns| => ns[k].element)
  }

  lemma WordsSnoc(ns: seq<DNode>, v: DNode)
    ensures Words(ns + [v]) == Words(ns) + [v.element]
  {
  }

  lemma WordsTake(ns: seq<DNode>, q: int)
    requires 0 <= q <= |ns|
    ensures Words(ns)[..q] == Words(ns[..q])
  {
  }

  /** No node occurs twice. */
  ghost predicate Distinct(c: seq<DNode>) {
    forall i, j :: 0 <= i < j < |c| ==> c[i] != c[j]
  }

  /** Leaving out one node keeps the rest distinct. */
  lemma DistinctDelete(c: seq<DNode>, i: int)
    requires Distinct(c) && 0 <= i < |c|
    ensures Distinct(c[..i] + c[i + 1..])
  {
    var d := c[..i] + c[i + 1..];
    forall a, b | 0 <= a < b < |d| ensures d[a] != d[b] {
      assert d[a] == c[if a < i then a else a + 1] && d[b] == c[if b < i then b else b + 1];
    }
  }

  /** Each node's next is its successor, and each successor's prev points back. */
  ghost predicate Linked(c: seq<DNode>)
    reads c
  {
    forall k :: 0 <= k < |c| - 1 ==> c[k].next == c[k + 1] && c[k + 1].prev == c[k]
  }

  class MyDlist {
    const header: DNode
    const trailer: DNode
    var size: int
    /** The nodes strictly between the sentinels, in list order. */
    ghost var nodes: seq<DNode>
    ghost var Repr: set<object>

    /** The whole chain, from header to trailer. */
    ghost function Chain(): seq<DNode>
      reads this
    {
      [header] + nodes + [trailer]
    }

    ghost predicate Valid()
      reads this, Repr
    {
      this in Repr && header in Repr && trailer in Repr &&
      (forall k :: 0 <= k < |nodes| ==> nodes[k] in Repr) &&
      Distinct(Chain()) && Linked(Chain()) &&
      header.prev == null && trailer.next == null &&
      size == |nodes|
    }

    /** The words of the list, from the first node after the header. */
    ghost function Elements(): seq<string>
      reads this
    {
      Words(nodes)
    }

    /** What Valid() says about the link from position k of the chain to the next one. */
    lemma Around(k: int)
      requires Valid() && 0 <= k <= |nodes|
      ensures Chain()[k] in Repr && Chain()[k + 1] in Repr
      ensures Chain()[k].next == Chain()[k + 1] && Chain()[k + 1].prev == Chain()[k]
    {
      var c := Chain();
      assert Linked(c);
      assert c[k] == if k == 0 then header else nodes[k - 1];
      assert c[k + 1] == if k == |nodes| then trailer else nodes[k];
    }

    /** Only the last position of the chain holds the trailer. */
    lemma AtTrailer(k: int)
      requires Valid() && 0 <= k < |nodes| + 2 && Chain()[k] == trailer
      ensures k == |nodes| + 1
    {
      var c := Chain();
      assert c[|c| - 1] == trailer;
      assert Distinct(c);
    }

    /** An empty list: the header and the trailer point at each other. */
    constructor ()
      ensures Valid() && fresh(Repr) && nodes == []
    {
      var h := new DNode("", null, null);
      var t := new DNode("", h, null);
      header, trailer := h, t;
      size := 0;
      nodes := [];
      Repr := {this, h, t};
      new;
      h.next := t;
    }

    /** Links a new node in just before the trailer. */
    method AddLast(v: DNode)
      requires Valid() && v !in Repr
      modifies Repr, v
      ensures Valid() && nodes == old(nodes) + [v] && Repr == old(Repr) + {v}
    {
      var w := trailer.prev;
      ghost var c := Chain();
      Around(|nodes|);
      v.prev := w;
      v.next := trailer;
      w.next := v;
      trailer.prev := v;
      size := size + 1;
      nodes := nodes + [v];
      Repr := Repr + {v};
      assert Chain() == c[..|c| - 1] + [v, trailer];
    }

    /**
     * The unlinking step of stripDuplicates: the neighbours of node q are
     * joined to each other, the size drops by one, and the node leaves the
     * list with its own links untouched.
     */
    method Unlink(v: DNode, ghost q: int)
      requires Valid() && 0 <= q < |nodes| && nodes[q] == v
      modifies Repr
      ensures Valid() && nodes == old(nodes[..q] + nodes[q + 1..]) && Repr == old(Repr) - {v}
      ensures v.next == old(v.next) && v.next == old(Chain()[q + 2]) && v.next == Chain()[q + 1]
      ensures old(Chain()[q]).next == v.next && v.next.prev == old(Chain()[q])
    {
      ghost var c := Chain();
      Around(q);
      Around(q + 1);
      var previous := v.prev;
      var next := v.next;
      previous.next := next;
      next.prev := previous;
      size := size - 1;
      nodes := nodes[..q] + nodes[q + 1..];
      Repr := Repr - {v};
      var c' := Chain();
      assert c' == c[..q + 1] + c[q + 2..];
      assert Distinct(c) && c[0] == header && c[|c| - 1] == trailer;
      DistinctDelete(c, q + 1);
      forall j | 0 <= j < |nodes| ensures nodes[j] in Repr {
        var i := if j < q then j + 1 else j + 2;
        assert nodes[j] == c[i] && c[i] in old(Repr) && c[i] != c[q + 1];
      }
      forall j | 0 <= j < |c'| - 1 ensures c'[j].next == c'[j + 1] && c'[j + 1].prev == c'[j] {
        if j < q {
          assert c'[j] == c[j] && c'[j + 1] == c[j + 1];
          assert c[j] != previous && c[j + 1] != next;
          assert old(c[j].next) == c[j + 1] && old(c[j + 1].prev) == c[j];
        } else if j > q {
          assert c'[j] == c[j + 1] && c'[j + 1] == c[j + 2];
          assert c[j + 1] != previous && c[j + 2] != next;
          assert old(c[j + 1].next) == c[j + 2] && old(c[j + 2].prev) == c[j + 1];
        }
      }
    }
  }

  /**
   * The copying loop of cloneList and of union: a new node with the same
   * element is added after the last node of dest, for every node of src.
   */
  method AppendCopies(dest: MyDlist, src: MyDlist)
    requires dest.Valid() && src.Valid() && dest.Repr !! src.Repr
    modifies dest.Repr
    ensures dest.Valid() && fresh(dest.Repr - old(dest.Repr))
    ensures dest.Elements() == old(dest.Elements()) + src.Elements()
  {
    src.Around(0);
    var uNode := src.header.next;
    ghost var k := 0;
    while uNode != src.trailer
      invariant dest.Valid() && fresh(dest.Repr - old(dest.Repr)) && dest.Repr !! src.Repr
      invariant 0 <= k <= |src.nodes| && uNode == src.Chain()[k + 1]
      invariant dest.Elements() == old(dest.Elements()) + src.Elements()[..k]
      decreases |src.nodes| - k
    {
      src.Around(k + 1);
      var newNode := new DNode(uNode.element, null, null);
      ghost var before := dest.nodes;
      dest.AddLast(newNode);
      WordsSnoc(before, newNode);
      assert src.Elements()[..k + 1] == src.Elements()[..k] + [uNode.element];
      uNode := uNode.next;
      k := k + 1;
    }
    src.AtTrailer(k + 1);
    assert src.Elements()[..k] == src.Elements();
  }

  /** cloneList: a list of new nodes holding the words of u, in order; u is unchanged. */
  method CloneList(u: MyDlist) returns (clone: MyDlist)
    requires u.Valid()
    ensures clone.Valid() && fresh(clone.Repr)
    ensures clone.Elements() == u.Elements()
  {
    clone := new MyDlist();
    if u.size != 0 {
      AppendCopies(clone, u);
    }
  }

  /**
   * The state of the inner loop of stripDuplicates, which removes the later
   * copies of x = ns[p]: of the original nodes ns (with words es), those
   * before position k have been looked at; the list's nodes are ns[..p + 1],
   * then the looked-at words other than x (q nodes in all), then ns[k..].
   */
  ghost predicate Scanning(nodes: seq<DNode>, x: string, p: int, q: int, k: int, ns: seq<DNode>, es: seq<string>) {
    es == Words(ns) &&
    0 <= p < q <= |nodes| && q <= k <= |ns| &&
    nodes[..p + 1] == ns[..p + 1] && nodes[q..] == ns[k..] &&
    Words(nodes)[..q] == es[..p + 1] + Without(es[p + 1..k], x)
  }

  /** A round of the inner loop that unlinks node q, which holds x, keeps Scanning. */
  lemma {:induction false} ScanDrop(before: seq<DNode>, x: string, p: int, q: int, k: int, ns: seq<DNode>, es: seq<string>)
    requires Scanning(before, x, p, q, k, ns, es) && q < |before| && before[q].element == x
    ensures k < |ns| && before[q] == ns[k]
    ensures Scanning(before[..q] + before[q + 1..], x, p, q, k + 1, ns, es)
  {
    assert |before[q..]| == |ns[k..]| && before[q..][0] == ns[k];
    var after := before[..q] + before[q + 1..];
    assert after[..q] == before[..q] && after[q..] == ns[k + 1..];
    WordsTake(after, q);
    WordsTake(before, q);
    assert es[p + 1..k + 1] == es[p + 1..k] + [x];
    Snoc(es[p + 1..k], x, x, []);
  }

  /** A round of the inner loop that keeps node q, which does not hold x, keeps Scanning one node further on. */
  lemma {:induction false} ScanKeep(before: seq<DNode>, x: string, p: int, q: int, k: int, ns: seq<DNode>, es: seq<string>)
    requires Scanning(before, x, p, q, k, ns, es) && q < |before| && before[q].element != x
    ensures k < |ns| && before[q] == ns[k]
    ensures Scanning(before, x, p, q + 1, k + 1, ns, es)
  {
    assert |before[q..]| == |ns[k..]| && before[q..][0] == ns[k];
    assert before[q + 1..] == ns[k + 1..];
    assert Words(before)[..q + 1] == Words(before)[..q] + [before[q].element];
    assert es[p + 1..k + 1] == es[p + 1..k] + [es[k]];
    Snoc(es[p + 1..k], es[k], x, []);
  }

  /**
   * The inner loop of stripDuplicates: every later node holding the word
   * of uNode (node p) is unlinked, and then its own links are cleared.
   */
  method RemoveLaterCopies(u: MyDlist, uNode: DNode, ghost p: int)
    requires u.Valid() && 0 <= p < |u.nodes| && u.nodes[p] == uNode
    modifies u.Repr
    ensures u.Valid() && u.Repr <= old(u.Repr)
    ensures p < |u.nodes| <= old(|u.nodes|) && u.nodes[..p + 1] == old(u.nodes[..p + 1]) && u.nodes[p] == uNode
    ensures u.Elements() == old(u.Elements()[..p + 1]) + Without(old(u.Elements()[p + 1..]), uNode.element)
  {
    ghost var ns, es := u.nodes, u.Elements();
    u.Around(p + 1);
    var uNodeNext := uNode.next;
    ghost var q, k := p + 1, p + 1;
    assert Scanning(u.nodes, uNode.element, p, q, k, ns, es);
    while uNodeNext != u.trailer
      invariant u.Valid() && u.Repr <= old(u.Repr)
      invariant Scanning(u.nodes, uNode.element, p, q, k, ns, es)
      invariant uNodeNext == u.Chain()[q + 1]
      decreases |u.nodes| - q
    {
      uNodeNext, q, k := StripNext(u, uNode.element, uNodeNext, p, q, k, ns, es);
    }
    u.AtTrailer(q + 1);
    assert |u.nodes[q..]| == |ns[k..]|;
    assert u.Elements()[..q] == u.Elements() && es[p + 1..k] == es[p + 1..];
  }

  /**
   * One round of the inner loop of stripDuplicates: the node after the
   * scanned part is unlinked when it holds x, and the scan moves on to the
   * node that followed it.
   */
  method StripNext(u: MyDlist, x: string, uNodeNext: DNode, ghost p: int, ghost q: int, ghost k: int,
                   ghost ns: seq<DNode>, ghost es: seq<string>)
    returns (next: DNode, ghost q': int, ghost k': int)
    requires u.Valid() && Scanning(u.nodes, x, p, q, k, ns, es)
    requires uNodeNext == u.Chain()[q + 1] && uNodeNext != u.trailer
    modifies u.Repr
    ensures u.Valid() && u.Repr <= old(u.Repr)
    ensures Scanning(u.nodes, x, p, q', k', ns, es)
    ensures next == u.Chain()[q' + 1]
    ensures |u.nodes| - q' < old(|u.nodes|) - q
  {
    ghost var before := u.nodes;
    u.Around(q + 1);
    assert q < |before| && uNodeNext == before[q];
    if x == uNodeNext.element {
      u.Unlink(uNodeNext, q);
      var garbage := uNodeNext;
      next := uNodeNext.next;
      assert garbage !in u.Repr;
      garbage.prev := null;
      garbage.next := null;
      ScanDrop(before, x, p, q, k, ns, es);
      q' := q;
    } else {
      next := uNodeNext.next;
      ScanKeep(before, x, p, q, k, ns, es);
      q' := q + 1;
    }
    k' := k + 1;
  }

  /**
   * stripDuplicates: only the first node holding each word stays in the
   * list, in the original order, and size counts the nodes that remain.
   */
  method StripDuplicates(u: MyDlist)
    requires u.Valid()
    modifies u.Repr
    ensures u.Valid() && u.Repr <= old(u.Repr)
    ensures u.Elements() == Dedup(old(u.Elements()))
  {
    if u.size != 0 {
      ghost var e0 := u.Elements();
      u.Around(0);
      var uNode := u.header.next;
      ghost var p := 0;
      while uNode != u.trailer
        invariant u.Valid() && u.Repr <= old(u.Repr)
        invariant 0 <= p <= |u.nodes| && uNode == u.Chain()[p + 1]
        invariant StrippedUpTo(u.Elements(), p)
        invariant Dedup(u.Elements()) == Dedup(e0)
        decreases |u.nodes| - p
      {
        assert p < |u.nodes|;
        ghost var e := u.Elements();
        assert uNode.element == e[p];
        RemoveLaterCopies(u, uNode, p);
        StripRound(e, p);
        u.Around(p + 1);
        assert u.Chain()[p + 1] == u.nodes[p];
        uNode := uNode.next;
        p := p + 1;
      }
      u.AtTrailer(p + 1);
      StrippedAll(u.Elements());
    }
  }

  /** union: u's words followed by v's, each kept only at its first occurrence; u and v are unchanged. */
  method Union(u: MyDlist, v: MyDlist) returns (aUnion: MyDlist)
    requires u.Valid() && v.Valid()
    ensures aUnion.Valid() && fresh(aUnion.Repr)
    ensures aUnion.Elements() == Dedup(u.Elements() + v.Elements())
  {
    ghost var eu, ev := u.Elements(), v.Elements();
    aUnion := new MyDlist();
    AppendCopies(aUnion, u);
    assert aUnion.Elements() == eu;
    AppendCopies(aUnion, v);
    assert aUnion.Elements() == eu + ev;
    assert u !in aUnion.Repr && v !in aUnion.Repr;
    StripDuplicates(aUnion);
    assert u.Elements() == eu && v.Elements() == ev;
  }

  /** The inner loop of actualIntersection: one copy of x for every node of b holding x. */
  method AppendMatches(dest: MyDlist, x: string, b: MyDlist)
    requires dest.Valid() && b.Valid() && dest.Repr !! b.Repr
    modifies dest.Repr
    ensures dest.Valid() && fresh(dest.Repr - old(dest.Repr))
    ensures dest.Elements() == old(dest.Elements()) + Matches(x, b.Elements())
  {
    b.Around(0);
    var bNode := b.header.next;
    ghost var k := 0;
    while bNode != b.trailer
      invariant dest.Valid() && fresh(dest.Repr - old(dest.Repr)) && dest.Repr !! b.Repr
      invariant 0 <= k <= |b.nodes| && bNode == b.Chain()[k + 1]
      invariant dest.Elements() == old(dest.Elements()) + Matches(x, b.Elements()[..k])
      decreases |b.nodes| - k
    {
      b.Around(k + 1);
      assert b.Elements()[..k + 1] == b.Elements()[..k] + [bNode.element];
      Snoc(b.Elements()[..k], bNode.element, x, []);
      AppendIfEqual(dest, x, bNode.element);
      bNode := bNode.next;
      k := k + 1;
    }
    b.AtTrailer(k + 1);
    assert b.Elements()[..k] == b.Elements();
  }

  /** The body of the inner loop of actualIntersection: a new node holding x when y equals x. */
  method AppendIfEqual(dest: MyDlist, x: string, y: string)
    requires dest.Valid()
    modifies dest.Repr
    ensures dest.Valid() && fresh(dest.Repr - old(dest.Repr))
    ensures dest.Elements() == old(dest.Elements()) + (if y == x then [x] else [])
  {
    if x == y {
      var newNode := new DNode(x, null, null);
      ghost var before := dest.nodes;
      dest.AddLast(newNode);
      WordsSnoc(before, newNode);
    }
  }

  /**
   * actualIntersection: for each word of s in order, one copy per equal
   * word of b, in a list of new nodes; s and b are unchanged (they may be
   * the same list).
   */
  method ActualIntersection(s: MyDlist, b: MyDlist) returns (intersect: MyDlist)
    requires s.Valid() && b.Valid()
    ensures intersect.Valid() && fresh(intersect.Repr)
    ensures intersect.Elements() == Inter(s.Elements(), b.Elements())
  {
    intersect := new MyDlist();
    s.Around(0);
    var sNode := s.header.next;
    ghost var k := 0;
    while sNode != s.trailer
      invariant intersect.Valid() && fresh(intersect.Repr)
      invariant 0 <= k <= |s.nodes| && sNode == s.Chain()[k + 1]
      invariant intersect.Elements() == Inter(s.Elements()[..k], b.Elements())
      decreases |s.nodes| - k
    {
      sNode := IntersectNext(intersect, s, sNode, b, k);
      k := k + 1;
    }
    s.AtTrailer(k + 1);
    assert s.Elements()[..k] == s.Elements();
  }

  /** One round of the outer loop of actualIntersection: the matches of node k of s are appended. */
  method IntersectNext(intersect: MyDlist, s: MyDlist, sNode: DNode, b: MyDlist, ghost k: int) returns (next: DNode)
    requires intersect.Valid() && s.Valid() && b.Valid() && intersect.Repr !! s.Repr && intersect.Repr !! b.Repr
    requires 0 <= k < |s.nodes| && sNode == s.Chain()[k + 1]
    requires intersect.Elements() == Inter(s.Elements()[..k], b.Elements())
    modifies intersect.Repr
    ensures intersect.Valid() && fresh(intersect.Repr - old(intersect.Repr))
    ensures next == s.Chain()[k + 2]
    ensures intersect.Elements() == Inter(s.Elements()[..k + 1], b.Elements())
  {
    s.Around(k + 1);
    ghost var se, be := s.Elements(), b.Elements();
    assert se[..k + 1] == se[..k] + [sNode.element];
    Snoc(se[..k], sNode.element, "", be);
    AppendMatches(intersect, sNode.element, b);
    assert s.Elements() == se && b.Elements() == be;
    next := sNode.next;
  }

  /**
   * intersection: the nested walk runs over the shorter list (u on a tie);
   * either way each word occurs as often as the product of its numbers of
   * occurrences in u and in v.
   */
  method Intersection(u: MyDlist, v: MyDlist) returns (intersect: MyDlist)
    requires u.Valid() && v.Valid()
    ensures intersect.Valid() && fresh(intersect.Repr)
    ensures intersect.Elements() ==
      if |u.Elements()| <= |v.Elements()| then Inter(u.Elements(), v.Elements())
      else Inter(v.Elements(), u.Elements())
    ensures forall y :: multiset(intersect.Elements())[y] == multiset(u.Elements())[y] * multiset(v.Elements())[y]
  {
    if u.size <= v.size {
      intersect := ActualIntersection(u, v);
    } else {
      intersect := ActualIntersection(v, u);
    }
    forall y ensures multiset(intersect.Elements())[y] == multiset(u.Elements())[y] * multiset(v.Elements())[y] {
      InterCount(u.Elements(), v.Elements(), y);
      InterCount(v.Elements(), u.Elements(), y);
    }
  }
}
