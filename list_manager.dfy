/**
 * The intrusive doubly-linked list manager: the manager keeps only the
 * head and tail pointers, every node carries its own next and prev links,
 * and the nodes belong to the caller (the manager never allocates or frees
 * one). The ghost sequence `elems` is the list as its owner sees it.
 */
module Lists {
  import opened ListSpec

  /** A list element: the two intrusive links every chunk carries. */
  class Node {
    var next: Node?
    var prev: Node?

    constructor ()
      ensures next == null && prev == null
    {
      next := null;
      prev := null;
    }
  }

  /** A node in no list has both links null. */
  ghost predicate Detached(n: Node)
    reads n
  {
    n.next == null && n.prev == null
  }

  /** The node at position k of s points at its neighbours in s, and at null past either end. */
  ghost predicate LinkedAt(s: seq<Node>, k: nat)
    requires k < |s|
    reads s
  {
    s[k].next == (if k + 1 < |s| then s[k + 1] else null) &&
    s[k].prev == (if k > 0 then s[k - 1] else null)
  }

  /** Every node of s is linked to its neighbours: s is a null-terminated doubly-linked chain. */
  ghost predicate Chain(s: seq<Node>)
    reads s
  {
    forall k :: 0 <= k < |s| ==> LinkedAt(s, k)
  }

  /**
   * Unlinking position i of a chain: when every node away from i keeps its
   * links and the two neighbours of i now point at each other, what is left
   * is a chain again.
   */
  lemma RemoveChain(s: seq<Node>, i: nat)
    requires Distinct(s) && i < |s|
    requires forall k :: 0 <= k < |s| && k + 1 != i && k != i && k != i + 1 ==> LinkedAt(s, k)
    requires i > 0 ==>
      s[i - 1].next == (if i + 1 < |s| then s[i + 1] else null) &&
      s[i - 1].prev == (if i > 1 then s[i - 2] else null)
    requires i + 1 < |s| ==>
      s[i + 1].prev == (if i > 0 then s[i - 1] else null) &&
      s[i + 1].next == (if i + 2 < |s| then s[i + 2] else null)
    ensures Chain(Remove(s, i))
  {
    var e := Remove(s, i);
    RemoveMembers(s, i);
    forall k | 0 <= k < |e|
      ensures LinkedAt(e, k)
    {
      if k + 1 < i {
        assert LinkedAt(s, k);
      } else if k + 1 == i {
        assert e[k] == s[i - 1];
      } else if k == i {
        assert e[k] == s[i + 1];
      } else {
        assert LinkedAt(s, k + 1);
      }
    }
  }

  /**
   * Linking x in at position j of a chain: when every node away from j keeps
   * its links, the nodes on either side of j point at x and x points at them,
   * the result is a chain.
   */
  lemma InsertChain(t: seq<Node>, j: nat, x: Node)
    requires j <= |t|
    requires forall k :: 0 <= k < |t| && k + 1 != j && k != j ==> LinkedAt(t, k)
    requires j > 0 ==> t[j - 1].next == x && t[j - 1].prev == (if j > 1 then t[j - 2] else null)
    requires j < |t| ==> t[j].prev == x && t[j].next == (if j + 1 < |t| then t[j + 1] else null)
    requires x.prev == (if j > 0 then t[j - 1] else null)
    requires x.next == (if j < |t| then t[j] else null)
    ensures Chain(Insert(t, j, x))
  {
    var e := Insert(t, j, x);
    InsertRemove(t, j, x);
    forall k | 0 <= k < |e|
      ensures LinkedAt(e, k)
    {
      if k + 1 < j {
        assert LinkedAt(t, k);
      } else if k + 1 == j {
        assert e[k] == t[j - 1];
      } else if k == j {
        assert e[k] == x;
      } else if k == j + 1 {
        assert e[k] == t[j];
      } else {
        assert LinkedAt(t, k - 1);
      }
    }
  }

  /** The node reached from n by following k next links (null once the chain ends). */
  ghost function WalkNext(n: Node?, k: nat): Node?
    reads *
  {
    if k == 0 || n == null then n else WalkNext(n.next, k - 1)
  }

  /** The node reached from n by following k prev links (null once the chain ends). */
  ghost function WalkPrev(n: Node?, k: nat): Node?
    reads *
  {
    if k == 0 || n == null then n else WalkPrev(n.prev, k - 1)
  }

  /** One step more from n is one next link further than k steps. */
  lemma {:induction false} WalkNextStep(n: Node?, k: nat)
    ensures WalkNext(n, k + 1) == (var m := WalkNext(n, k); if m == null then null else m.next)
  {
    if k > 0 && n != null {
      WalkNextStep(n.next, k - 1);
    }
  }

  /** One step more from n is one prev link further than k steps. */
  lemma {:induction false} WalkPrevStep(n: Node?, k: nat)
    ensures WalkPrev(n, k + 1) == (var m := WalkPrev(n, k); if m == null then null else m.prev)
  {
    if k > 0 && n != null {
      WalkPrevStep(n.prev, k - 1);
    }
  }

  /** The node before x in s, null when x is the head: what x.prev holds in a valid list. */
  function Pred(s: seq<Node>, x: Node): Node?
    requires x in s
  {
    var k := IndexOf(s, x);
    if k > 0 then s[k - 1] else null
  }

  /** The predecessor of a node is another node of the same list. */
  lemma PredIn(s: seq<Node>, x: Node)
    requires Distinct(s) && x in s
    ensures Pred(s, x) != null ==> Pred(s, x) in s && Pred(s, x) != x
  {
  }

  /** When a does not hold x, the predecessor of x in a + [x] + q is the last node of a. */
  lemma PredSplit(a: seq<Node>, x: Node, q: seq<Node>)
    requires x !in a
    ensures x in a + [x] + q
    ensures Pred(a + [x] + q, x) == if a == [] then null else a[|a| - 1]
  {
    IndexOfSplit(a, x, q);
  }

  /** Popping x keeps every other node present, null standing for no node. */
  lemma WithoutKept(s: seq<Node>, x: Node, y: Node?)
    ensures y != null && y in s && y != x ==> y in Without(s, x)
  {
    if y != null && y in s && y != x {
      WithoutKeeps(s, x, y);
    }
  }

  /**
   * Re-inserting x, already unlinked, after p, the predecessor its partner
   * had: AddAfter(x, p) when p is a node. With no predecessor the corrected
   * Swap calls AddHead(x) (toHead); the source's AddAfter(x, nullptr) does
   * nothing, which leaves x out.
   */
  function Relink(t: seq<Node>, x: Node, p: Node?, toHead: bool): seq<Node>
    requires p != null ==> p in t && p != x
  {
    if p != null then MoveAfter<Node>(t, x, p) else if toHead then [x] + t else t
  }

  /** Relinking x keeps every node already there. */
  lemma RelinkKeeps(t: seq<Node>, x: Node, p: Node?, toHead: bool, z: Node?)
    requires p != null ==> p in t && p != x
    ensures z != null && z in t && z != x ==> z in Relink(t, x, p, toHead)
  {
    if z != null && z in t && z != x && p != null {
      WithoutKeeps(t, x, z);
      var u := Without(t, x);
      InsertKeeps(u, IndexOf(u, p) + 1, x, z);
    }
  }

  /**
   * The list Swap(x, y) leaves, step by step as the source works: when one
   * is the other's predecessor it is moved to just before the other;
   * otherwise both are popped, x is relinked after y's old predecessor and
   * then y after x's old predecessor.
   */
  function SwapEffect(s: seq<Node>, x: Node, y: Node, toHead: bool): seq<Node>
    requires Distinct(s) && x in s && y in s && x != y
  {
    if Pred(s, x) == y then
      WithoutKeeps(s, x, y);
      MoveBefore(Without(s, x), x, y)
    else if Pred(s, y) == x then
      WithoutKeeps(s, y, x);
      MoveBefore(Without(s, y), y, x)
    else
      var p1 := Pred(s, x);
      PredIn(s, x);
      WithoutKeeps(s, x, y);
      WithoutDistinct(s, x);
      var t1 := Without(s, x);
      var p2 := Pred(t1, y);
      PredIn(t1, y);
      var t2 := Without(t1, y);
      WithoutKept(t1, y, p2);
      WithoutKept(s, x, p1);
      WithoutKept(t1, y, p1);
      var t3 := Relink(t2, x, p2, toHead);
      RelinkKeeps(t2, x, p2, toHead, p1);
      Relink(t3, y, p1, toHead)
  }

  /**
   * Swapping two adjacent nodes, in either argument order: the one ahead is
   * moved to just after the other (the source re-inserts the second before
   * the first).
   */
  lemma SwapEffectAdjacent(a: seq<Node>, u: Node, v: Node, c: seq<Node>, toHead: bool)
    requires Distinct(a + [u, v] + c)
    ensures u in a + [u, v] + c && v in a + [u, v] + c && u != v
    ensures SwapEffect(a + [u, v] + c, u, v, toHead) == a + [v, u] + c
    ensures SwapEffect(a + [u, v] + c, v, u, toHead) == a + [v, u] + c
  {
    var s := a + [u, v] + c;
    assert s == a + [u] + ([v] + c) && s == (a + [u]) + [v] + c;
    assert s[|a|] == u && s[|a| + 1] == v;
    DistinctSplit(a, u, [v] + c);
    DistinctSplit(a + [u], v, c);
    assert Pred(s, u) != v by {
      PredSplit(a, u, [v] + c);
      assert a != [] ==> a[|a| - 1] == s[|a| - 1];
    }
    assert Pred(s, v) == u by {
      PredSplit(a + [u], v, c);
    }
    assert MoveBefore(Without(s, v), v, u) == a + [v, u] + c by {
      WithoutSplit(a + [u], v, c);
      MoveBeforeSplit(a, u, c, v);
    }
  }

  /** The corrected Swap exchanges x and y. */
  lemma SwapEffectSwapped(s: seq<Node>, x: Node, y: Node)
    requires Distinct(s) && x in s && y in s && x != y
    ensures SwapEffect(s, x, y, true) == Swapped(s, IndexOf(s, x), IndexOf(s, y))
  {
    var i, j := IndexOf(s, x), IndexOf(s, y);
    var lo, hi := if i < j then i else j, if i < j then j else i;
    if hi == lo + 1 {
      SplitAdjacent(s, lo);
      SwapEffectAdjacent(s[..lo], s[lo], s[lo + 1], s[lo + 2..], true);
      SwappedAdjacentAt(s, lo);
    } else {
      SplitApart(s, lo, hi);
      SwapEffectApart(s[..lo], s[lo], s[lo + 1..hi - 1], s[hi - 1], s[hi], s[hi + 1..], true);
      SwappedApartAt(s, lo, hi);
    }
  }

  /** The source's Swap exchanges x and y too, except where SwappedAsWritten drops a node. */
  lemma SwapEffectAsWritten(s: seq<Node>, x: Node, y: Node)
    requires Distinct(s) && x in s && y in s && x != y
    ensures SwapEffect(s, x, y, false) == SwappedAsWritten(s, IndexOf(s, x), IndexOf(s, y))
  {
    var i, j := IndexOf(s, x), IndexOf(s, y);
    var lo, hi := if i < j then i else j, if i < j then j else i;
    if hi == lo + 1 {
      SplitAdjacent(s, lo);
      SwapEffectAdjacent(s[..lo], s[lo], s[lo + 1], s[lo + 2..], false);
      SwappedAdjacentAt(s, lo);
    } else {
      SplitApart(s, lo, hi);
      SwapEffectApart(s[..lo], s[lo], s[lo + 1..hi - 1], s[hi - 1], s[hi], s[hi + 1..], false);
      SwappedApartAt(s, lo, hi);
    }
  }

  /** SwapEffect for two nodes that are not adjacent, given the lists its steps pass through. */
  lemma SwapEffectSteps(s: seq<Node>, x: Node, y: Node, t1: seq<Node>, t2: seq<Node>, t3: seq<Node>,
                        p1: Node?, p2: Node?, toHead: bool)
    requires Distinct(s) && x in s && y in s && x != y
    requires Pred(s, x) == p1 && p1 != y && Pred(s, y) != x
    requires Without(s, x) == t1 && y in t1 && Pred(t1, y) == p2 && Without(t1, y) == t2
    requires p2 != null ==> p2 in t2 && p2 != x
    requires Relink(t2, x, p2, toHead) == t3
    requires p1 != null ==> p1 in t3
    ensures SwapEffect(s, x, y, toHead) == Relink(t3, y, p1, toHead)
  {
  }

  /** SwapEffect when y is x's predecessor: x is popped and put back before y. */
  lemma SwapEffectBefore(s: seq<Node>, x: Node, y: Node, toHead: bool)
    requires Distinct(s) && x in s && y in s && x != y
    requires Pred(s, x) == y
    ensures y in Without(s, x)
    ensures SwapEffect(s, x, y, toHead) == MoveBefore(Without(s, x), x, y)
  {
    WithoutKeeps(s, x, y);
  }

  /** SwapEffect when x is y's predecessor: y is popped and put back before x. */
  lemma SwapEffectAfter(s: seq<Node>, x: Node, y: Node, toHead: bool)
    requires Distinct(s) && x in s && y in s && x != y
    requires Pred(s, x) != y && Pred(s, y) == x
    ensures x in Without(s, y)
    ensures SwapEffect(s, x, y, toHead) == MoveBefore(Without(s, y), y, x)
  {
    WithoutKeeps(s, y, x);
  }

  /** SwapEffect when neither is the other's predecessor: pop both, then relink both. */
  lemma SwapEffectApartUnfold(s: seq<Node>, x: Node, y: Node, toHead: bool)
    requires Distinct(s) && x in s && y in s && x != y
    requires Pred(s, x) != y && Pred(s, y) != x
    ensures y in Without(s, x)
    ensures var p2 := Pred(Without(s, x), y); p2 != null ==> p2 in Without(Without(s, x), y) && p2 != x
    ensures Pred(s, x) != null ==> Pred(s, x) in Without(Without(s, x), y)
    ensures var t3 := Relink(Without(Without(s, x), y), x, Pred(Without(s, x), y), toHead);
      Pred(s, x) != null ==> Pred(s, x) in t3
    ensures SwapEffect(s, x, y, toHead) ==
      Relink(Relink(Without(Without(s, x), y), x, Pred(Without(s, x), y), toHead), y, Pred(s, x), toHead)
  {
    PredIn(s, x);
    WithoutKeeps(s, x, y);
    WithoutDistinct(s, x);
    var t1 := Without(s, x);
    var p2 := Pred(t1, y);
    PredIn(t1, y);
    WithoutKept(t1, y, p2);
    WithoutKept(s, x, Pred(s, x));
    WithoutKept(t1, y, Pred(s, x));
    RelinkKeeps(Without(t1, y), x, p2, toHead, Pred(s, x));
  }

  /** Relinking x puts it in the list, unless there is no position and no head repair. */
  lemma RelinkHas(t: seq<Node>, x: Node, p: Node?, toHead: bool)
    requires p != null ==> p in t && p != x
    ensures p != null || toHead ==> x in Relink(t, x, p, toHead)
  {
    if p != null {
      MoveAfterHas(t, x, p, x);
    }
  }

  /**
   * The only node the source's Swap can leave out is one of its two
   * arguments, and only when they are not adjacent: x when y had no
   * predecessor once x was popped, y when x had none.
   */
  lemma SwapEffectKeeps(s: seq<Node>, x: Node, y: Node, o: Node)
    requires Distinct(s) && x in s && y in s && x != y && o in s
    ensures o in SwapEffect(s, x, y, false) ||
      (Pred(s, x) != y && Pred(s, y) != x && y in Without(s, x) &&
       ((o == x && Pred(Without(s, x), y) == null) || (o == y && Pred(s, x) == null)))
  {
    if Pred(s, x) == y {
      WithoutKeeps(s, x, y);
      if o != x {
        WithoutKeeps(s, x, o);
      }
      MoveBeforeHas(Without(s, x), x, y, o);
    } else if Pred(s, y) == x {
      WithoutKeeps(s, y, x);
      if o != y {
        WithoutKeeps(s, y, o);
      }
      MoveBeforeHas(Without(s, y), y, x, o);
    } else {
      SwapEffectApartUnfold(s, x, y, false);
      var t1 := Without(s, x);
      var t2 := Without(t1, y);
      var p2 := Pred(t1, y);
      var t3 := Relink(t2, x, p2, false);
      if o != x && o != y {
        WithoutKeeps(s, x, o);
        WithoutKeeps(t1, y, o);
        RelinkKeeps(t2, x, p2, false, o);
        RelinkKeeps(t3, y, Pred(s, x), false, o);
      } else if o == x {
        RelinkHas(t2, x, p2, false);
        RelinkKeeps(t3, y, Pred(s, x), false, x);
      } else {
        RelinkHas(t3, y, Pred(s, x), false);
      }
    }
  }

  /**
   * Swapping two nodes that are not adjacent, in s = a + [u] + b + [r, v] + c,
   * in either argument order: they trade places, except that with no head
   * fix (the source's version) the later one drops out when the earlier one
   * was the head.
   */
  lemma SwapEffectApart(a: seq<Node>, u: Node, b: seq<Node>, r: Node, v: Node, c: seq<Node>, toHead: bool)
    requires Distinct(a + [u] + b + [r, v] + c)
    ensures u in a + [u] + b + [r, v] + c && v in a + [u] + b + [r, v] + c && u != v
    ensures SwapEffect(a + [u] + b + [r, v] + c, u, v, toHead) ==
      if a == [] && !toHead then b + [r, u] + c else a + [v] + b + [r, u] + c
    ensures SwapEffect(a + [u] + b + [r, v] + c, v, u, toHead) ==
      if a == [] && !toHead then b + [r, u] + c else a + [v] + b + [r, u] + c
  {
    DistinctApart(a, u, b, r, v, c);
    PredApart(a, u, b, r, v, c);
    SwapApartForward(a, u, b, r, v, c, toHead);
    SwapApartBackward(a, u, b, r, v, c, toHead);
  }

  /** The node before a + [u] + ..., as Pred names it, null when a is empty. */
  function Last(a: seq<Node>): Node?
  {
    if a == [] then null else a[|a| - 1]
  }

  /** Swap(u, v), u ahead of v: the steps pop u, pop v, put u after r, then v after u's old predecessor. */
  lemma SwapApartForward(a: seq<Node>, u: Node, b: seq<Node>, r: Node, v: Node, c: seq<Node>, toHead: bool)
    requires Distinct(a + [u] + b + [r, v] + c)
    requires u !in a && u !in b && u !in c && u != r && u != v
    requires v !in a && v !in b && v !in c && v != r
    requires r !in a && r !in b
    requires a != [] ==> a[|a| - 1] !in a[..|a| - 1]
    requires u in a + [u] + b + [r, v] + c && v in a + [u] + b + [r, v] + c
    requires Pred(a + [u] + b + [r, v] + c, u) == Last(a)
    requires Pred(a + [u] + b + [r, v] + c, v) == r
    ensures SwapEffect(a + [u] + b + [r, v] + c, u, v, toHead) ==
      if a == [] && !toHead then b + [r, u] + c else a + [v] + b + [r, u] + c
  {
    ApartPopFirst(a, u, b, r, v, c);
    PredSecond(a, b, r, v, c);
    ApartPopSecond(a, b, r, v, c);
    RelinkFirst(a, u, b, r, c, toHead);
    RelinkAheadAfterFirst(a, v, b, r, u, c, toHead);
    SwapEffectSteps(a + [u] + b + [r, v] + c, u, v, a + b + [r, v] + c, a + b + [r] + c,
                    a + b + [r, u] + c, Last(a), r, toHead);
  }

  /** Swap(v, u), u ahead of v: the steps pop v, pop u, put v after u's old predecessor, then u after r. */
  lemma SwapApartBackward(a: seq<Node>, u: Node, b: seq<Node>, r: Node, v: Node, c: seq<Node>, toHead: bool)
    requires Distinct(a + [u] + b + [r, v] + c)
    requires u !in a && u !in b && u !in c && u != r && u != v
    requires v !in a && v !in b && v !in c && v != r
    requires r !in a && r !in b
    requires a != [] ==> a[|a| - 1] !in a[..|a| - 1]
    requires u in a + [u] + b + [r, v] + c && v in a + [u] + b + [r, v] + c
    requires Pred(a + [u] + b + [r, v] + c, u) == Last(a)
    requires Pred(a + [u] + b + [r, v] + c, v) == r
    ensures SwapEffect(a + [u] + b + [r, v] + c, v, u, toHead) ==
      if a == [] && !toHead then b + [r, u] + c else a + [v] + b + [r, u] + c
  {
    ApartPopLast(a, u, b, r, v, c);
    PredEarlier(a, u, b, r, c);
    ApartPopEarlier(a, u, b, r, c);
    RelinkAheadFirst(a, v, b, r, c, toHead);
    RelinkBehind(a, v, b, r, u, c, toHead);
    SwapEffectSteps(a + [u] + b + [r, v] + c, v, u, a + [u] + b + [r] + c, a + b + [r] + c,
                    if a == [] && !toHead then b + [r] + c else a + [v] + b + [r] + c, r, Last(a), toHead);
  }

  /** The predecessors of u and v in a + [u] + b + [r, v] + c. */
  lemma PredApart(a: seq<Node>, u: Node, b: seq<Node>, r: Node, v: Node, c: seq<Node>)
    requires u !in a && v !in a && v !in b && v != u && v != r
    ensures u in a + [u] + b + [r, v] + c && v in a + [u] + b + [r, v] + c
    ensures Pred(a + [u] + b + [r, v] + c, u) == Last(a)
    ensures Pred(a + [u] + b + [r, v] + c, v) == r
  {
    var s := a + [u] + b + [r, v] + c;
    assert s == a + [u] + (b + [r, v] + c);
    PredSplit(a, u, b + [r, v] + c);
    assert s == (a + [u] + b + [r]) + [v] + c;
    PredSplit(a + [u] + b + [r], v, c);
  }

  /** v's predecessor once u has gone. */
  lemma PredSecond(a: seq<Node>, b: seq<Node>, r: Node, v: Node, c: seq<Node>)
    requires v !in a && v !in b && v != r
    ensures v in a + b + [r, v] + c && Pred(a + b + [r, v] + c, v) == r
  {
    assert a + b + [r, v] + c == (a + b + [r]) + [v] + c;
    PredSplit(a + b + [r], v, c);
  }

  /** u's predecessor once v has gone. */
  lemma PredEarlier(a: seq<Node>, u: Node, b: seq<Node>, r: Node, c: seq<Node>)
    requires u !in a
    ensures u in a + [u] + b + [r] + c && Pred(a + [u] + b + [r] + c, u) == Last(a)
  {
    assert a + [u] + b + [r] + c == a + [u] + (b + [r] + c);
    PredSplit(a, u, b + [r] + c);
  }

  /** Relinking v after u's old predecessor, once u sits after r. */
  lemma RelinkAheadAfterFirst(a: seq<Node>, v: Node, b: seq<Node>, r: Node, u: Node, c: seq<Node>, toHead: bool)
    requires v !in a && v !in b && v !in c && v != r && v != u
    requires a != [] ==> a[|a| - 1] !in a[..|a| - 1]
    ensures Last(a) != null ==> Last(a) in a + b + [r, u] + c
    ensures Relink(a + b + [r, u] + c, v, Last(a), toHead) ==
      if a == [] && !toHead then b + [r, u] + c else a + [v] + b + [r, u] + c
  {
    if a != [] {
      ApartRelinkSecond(a, v, b, r, u, c);
    } else {
      assert [] + b + [r, u] + c == b + [r, u] + c;
      assert [v] + (b + [r, u] + c) == [] + [v] + b + [r, u] + c;
    }
  }

  /** Relinking v after u's old predecessor, with both popped. */
  lemma RelinkAheadFirst(a: seq<Node>, v: Node, b: seq<Node>, r: Node, c: seq<Node>, toHead: bool)
    requires v !in a && v !in b && v !in c && v != r
    requires a != [] ==> a[|a| - 1] !in a[..|a| - 1]
    ensures Last(a) != null ==> Last(a) in a + b + [r] + c
    ensures Relink(a + b + [r] + c, v, Last(a), toHead) ==
      if a == [] && !toHead then b + [r] + c else a + [v] + b + [r] + c
  {
    if a != [] {
      ApartRelinkAhead(a, v, b, r, c);
    } else {
      assert [] + b + [r] + c == b + [r] + c;
      assert [v] + (b + [r] + c) == [] + [v] + b + [r] + c;
    }
  }

  /** Relinking u after r, with v still out. */
  lemma RelinkFirst(a: seq<Node>, u: Node, b: seq<Node>, r: Node, c: seq<Node>, toHead: bool)
    requires r !in a && r !in b && u !in a && u !in b && u !in c && u != r
    ensures r in a + b + [r] + c
    ensures Relink(a + b + [r] + c, u, r, toHead) == a + b + [r, u] + c
  {
    ApartRelinkFirst(a, u, b, r, c);
  }

  /** Relinking u after r, once v is back in. */
  lemma RelinkBehind(a: seq<Node>, v: Node, b: seq<Node>, r: Node, u: Node, c: seq<Node>, toHead: bool)
    requires u !in a && u !in b && u !in c && u != r && u != v
    requires r !in a && r !in b && r != v
    ensures r in (if a == [] && !toHead then b + [r] + c else a + [v] + b + [r] + c)
    ensures Relink(if a == [] && !toHead then b + [r] + c else a + [v] + b + [r] + c, u, r, toHead) ==
      if a == [] && !toHead then b + [r, u] + c else a + [v] + b + [r, u] + c
  {
    if a == [] && !toHead {
      ApartRelinkLast(b, r, c, u);
    } else {
      ApartRelinkLast(a + [v] + b, r, c, u);
    }
  }

  class ListManager {
    var first: Node?
    var last: Node?
    ghost var elems: seq<Node>

    /**
     * The representation invariant: no node occurs twice, consecutive nodes
     * point at each other, the chain ends in null on both sides, and first
     * and last are its two ends (both null for the empty list).
     */
    ghost predicate Valid()
      reads this, elems
    {
      Distinct(elems) && Chain(elems) &&
      (elems == [] ==> first == null && last == null) &&
      (elems != [] ==> first == elems[0] && last == elems[|elems| - 1])
    }

    /** A new manager holds the empty list. */
    constructor ()
      ensures Valid() && elems == []
      ensures first == null && last == null
    {
      first := null;
      last := null;
      elems := [];
    }

    /** The links of the node at position i, and whether it is an end. */
    lemma Neighbours(i: nat)
      requires Valid() && i < |elems|
      ensures elems[i].prev == (if i > 0 then elems[i - 1] else null)
      ensures elems[i].next == (if i + 1 < |elems| then elems[i + 1] else null)
      ensures first == elems[i] <==> i == 0
      ensures last == elems[i] <==> i == |elems| - 1
    {
      assert LinkedAt(elems, i);
      DistinctIndex(elems, 0);
      DistinctIndex(elems, i);
      DistinctIndex(elems, |elems| - 1);
    }

    /** A listed node's prev link is its predecessor in elems, as Pred names it. */
    lemma PrevIsPred(obj: Node)
      requires Valid() && obj in elems
      ensures obj.prev == Pred(elems, obj)
    {
      Neighbours(IndexOf<Node>(elems, obj));
    }

    /**
     * Walking next links from the head visits the list in order and reaches
     * null after exactly |elems| steps: the chain is finite and acyclic.
     */
    lemma {:induction false} TraverseForward(k: nat)
      requires Valid() && k <= |elems|
      ensures WalkNext(first, k) == if k < |elems| then elems[k] else null
    {
      if k > 0 {
        TraverseForward(k - 1);
        assert LinkedAt(elems, k - 1);
        WalkNextStep(first, k - 1);
      }
    }

    /**
     * Walking prev links from the tail visits the list in reverse and
     * reaches null after exactly |elems| steps.
     */
    lemma {:induction false} TraverseBackward(k: nat)
      requires Valid() && k <= |elems|
      ensures WalkPrev(last, k) == if k < |elems| then elems[|elems| - 1 - k] else null
    {
      if k > 0 {
        TraverseBackward(k - 1);
        assert LinkedAt(elems, |elems| - k);
        WalkPrevStep(last, k - 1);
      }
    }

    /** In a valid list each node's successor points back at it, and so does its predecessor. */
    lemma LinksConsistent(n: Node)
      requires Valid() && n in elems
      ensures n.next != null ==> n.next in elems && n.next.prev == n
      ensures n.prev != null ==> n.prev in elems && n.prev.next == n
      ensures n.next == null <==> last == n
      ensures n.prev == null <==> first == n
    {
      var i := IndexOf<Node>(elems, n);
      Neighbours(i);
      if i + 1 < |elems| {
        assert LinkedAt(elems, i + 1);
      }
      if i > 0 {
        assert LinkedAt(elems, i - 1);
      }
    }

    /** The head of the list, null when it is empty. */
    method GetHead() returns (r: Node?)
      ensures r == first
      ensures Valid() ==> r == (if elems == [] then null else elems[0])
    {
      r := first;
    }

    /** The tail of the list, null when it is empty. */
    method GetTail() returns (r: Node?)
      ensures r == last
      ensures Valid() ==> r == (if elems == [] then null else elems[|elems| - 1])
    {
      r := last;
    }

    /** The successor of ref; null for a null ref and for the tail. */
    method GetNext(ref: Node?) returns (r: Node?)
      ensures ref == null ==> r == null
      ensures ref != null ==> r == ref.next
      ensures Valid() && ref != null && ref in elems ==>
        r == (var k := IndexOf<Node>(elems, ref); if k + 1 < |elems| then elems[k + 1] else null)
    {
      r := if ref != null then ref.next else null;
      if Valid() && ref != null && ref in elems {
        assert LinkedAt(elems, IndexOf<Node>(elems, ref));
      }
    }

    /** The predecessor of ref; null for a null ref and for the head. */
    method GetPrev(ref: Node?) returns (r: Node?)
      ensures ref == null ==> r == null
      ensures ref != null ==> r == ref.prev
      ensures Valid() && ref != null && ref in elems ==>
        r == (var k := IndexOf<Node>(elems, ref); if k > 0 then elems[k - 1] else null)
    {
      r := if ref != null then ref.prev else null;
      if Valid() && ref != null && ref in elems {
        assert LinkedAt(elems, IndexOf<Node>(elems, ref));
      }
    }

    /**
     * Unlinks obj: its neighbours are joined, first and last move to the
     * neighbour when obj was an end, and obj's own links become null.
     * Nothing happens for null, nor for a node in no list.
     */
    method Pop(obj: Node?)
      requires Valid()
      requires obj != null ==> obj in elems || Detached(obj)
      modifies this, elems, obj
      ensures Valid()
      ensures obj == null ==> elems == old(elems)
      ensures obj != null ==> elems == Without<Node>(old(elems), obj) && Detached(obj) && obj !in elems
      ensures forall o :: o in elems ==> o in old(elems)
      ensures obj != null && old(first) == obj ==> first == old(obj.next)
      ensures obj != null && old(last) == obj ==> last == old(obj.prev)
      ensures obj == null || old(first) != obj ==> first == old(first)
      ensures obj == null || old(last) != obj ==> last == old(last)
      ensures obj == null || obj !in old(elems) ==> unchanged(old(elems))
    {
      if obj != null {
        ghost var s := elems;
        ghost var i := if obj in s then IndexOf<Node>(s, obj) else 0;
        ghost var p, n := obj.prev, obj.next;
        if obj in s {
          Neighbours(i);
          assert p != obj && n != obj && (p != null ==> p != n);
        } else {
          assert first != obj && last != obj;
        }
        if first == obj {
          first := obj.next;
        }
        if last == obj {
          last := obj.prev;
        }
        if obj.next != null {
          obj.next.prev := obj.prev;
        }
        if obj.prev != null {
          obj.prev.next := obj.next;
        }
        obj.next := null;
        obj.prev := null;
        elems := Without<Node>(s, obj);
        forall o | o in elems
          ensures o in s
        {
          WithoutMember(s, obj, o);
        }
        if obj in s {
          assert Chain(elems) by {
            forall k | 0 <= k < |s| && k + 1 != i && k != i && k != i + 1
              ensures LinkedAt(s, k)
            {
              assert s[k] != obj && s[k] != p && s[k] != n;
              assert old(LinkedAt(s, k));
            }
            if i > 0 {
              assert old(LinkedAt(s, i - 1));
            }
            if i + 1 < |s| {
              assert old(LinkedAt(s, i + 1));
            }
            RemoveChain(s, i);
          }
          WithoutDistinct(s, obj);
          assert obj !in elems;
          if |s| > 1 {
            RemoveEnds(s, i);
            assert first == elems[0];
            assert last == elems[|elems| - 1];
          }
        } else {
          assert Chain(elems) by {
            forall k | 0 <= k < |s|
              ensures LinkedAt(s, k)
            {
              assert old(LinkedAt(s, k));
            }
          }
        }
      }
    }

    /**
     * Exchanges the places of obj1 and obj2. When one is the other's
     * predecessor it is unlinked and linked back in just before the other;
     * otherwise both are unlinked and each goes where the other was: after
     * the other's old predecessor, or at the head when the other had none.
     * Nothing happens when either is null.
     */
    method Swap(obj1: Node?, obj2: Node?)
      requires Valid()
      requires obj1 != null && obj2 != null ==> obj1 in elems && obj2 in elems && obj1 != obj2
      modifies this, elems
      ensures Valid()
      ensures obj1 != null && obj2 != null ==>
        elems == Swapped(old(elems), IndexOf<Node>(old(elems), obj1), IndexOf<Node>(old(elems), obj2))
      ensures obj1 == null || obj2 == null ==> unchanged(this) && unchanged(old(elems))
    {
      if obj1 != null && obj2 != null {
        ghost var s := elems;
        PrevIsPred(obj1);
        PrevIsPred(obj2);
        if obj1.prev == obj2 {
          PopAddBefore(obj1, obj2);
          SwapEffectBefore(s, obj1, obj2, true);
        } else if obj2.prev == obj1 {
          PopAddBefore(obj2, obj1);
          SwapEffectAfter(s, obj1, obj2, true);
        } else {
          SwapApart(obj1, obj2, true);
        }
        SwapEffectSwapped(s, obj1, obj2);
      }
    }

    /**
     * Swap as the source writes it: its last two steps are AddAfter(obj1,
     * prev2) and AddAfter(obj2, prev1), and AddAfter with a null position
     * does nothing, so when obj1 or obj2 was the head (and the two are not
     * adjacent) the other one is left out of the list.
     */
    method SwapAsWritten(obj1: Node?, obj2: Node?)
      requires Valid()
      requires obj1 != null && obj2 != null ==> obj1 in elems && obj2 in elems && obj1 != obj2
      modifies this, elems
      ensures Valid()
      ensures obj1 != null && obj2 != null ==>
        elems == SwappedAsWritten(old(elems), IndexOf<Node>(old(elems), obj1), IndexOf<Node>(old(elems), obj2))
      ensures obj1 == null || obj2 == null ==> unchanged(this) && unchanged(old(elems))
      ensures forall o :: o in old(elems) && o !in elems ==> Detached(o)
    {
      if obj1 != null && obj2 != null {
        ghost var s := elems;
        PrevIsPred(obj1);
        PrevIsPred(obj2);
        if obj1.prev == obj2 {
          PopAddBefore(obj1, obj2);
          SwapEffectBefore(s, obj1, obj2, false);
        } else if obj2.prev == obj1 {
          PopAddBefore(obj2, obj1);
          SwapEffectAfter(s, obj1, obj2, false);
        } else {
          SwapApart(obj1, obj2, false);
        }
        SwapEffectAsWritten(s, obj1, obj2);
        forall o | o in s && o !in elems
          ensures Detached(o)
        {
          SwapEffectKeeps(s, obj1, obj2, o);
        }
      }
    }

    /** Swap's step for adjacent nodes: Pop(obj), then AddBefore(obj, ref). */
    method PopAddBefore(obj: Node, ref: Node)
      requires Valid() && obj in elems && ref in elems && obj != ref
      modifies this, elems
      ensures Valid()
      ensures ref in Without(old(elems), obj)
      ensures elems == MoveBefore<Node>(Without(old(elems), obj), obj, ref)
    {
      ghost var s := elems;
      Pop(obj);
      WithoutKeeps(s, obj, ref);
      AddBefore(obj, ref);
    }

    /**
     * Swap's step for nodes that are not adjacent: both are popped, then
     * obj1 goes after obj2's old predecessor and obj2 after obj1's.
     */
    method SwapApart(obj1: Node, obj2: Node, toHead: bool)
      requires Valid() && obj1 in elems && obj2 in elems && obj1 != obj2
      requires Pred(elems, obj1) != obj2 && Pred(elems, obj2) != obj1
      modifies this, elems
      ensures Valid()
      ensures elems == SwapEffect(old(elems), obj1, obj2, toHead)
      ensures obj2 in Without(old(elems), obj1)
      ensures !toHead && Pred(Without(old(elems), obj1), obj2) == null ==> Detached(obj1)
      ensures !toHead && Pred(old(elems), obj1) == null ==> Detached(obj2)
    {
      ghost var s := elems;
      var prev1, prev2 := PopPair(obj1, obj2);
      SwapEffectApartUnfold(s, obj1, obj2, toHead);
      RelinkPair(obj1, prev2, obj2, prev1, toHead, s);
    }

    /**
     * The first half of Swap when the two are not adjacent: remember obj1's
     * predecessor, pop obj1, remember obj2's predecessor, pop obj2.
     */
    method PopPair(obj1: Node, obj2: Node) returns (prev1: Node?, prev2: Node?)
      requires Valid() && obj1 in elems && obj2 in elems && obj1 != obj2
      modifies this, elems
      ensures Valid()
      ensures prev1 == Pred(old(elems), obj1)
      ensures obj2 in Without(old(elems), obj1) && prev2 == Pred(Without(old(elems), obj1), obj2)
      ensures elems == Without(Without(old(elems), obj1), obj2)
      ensures Detached(obj1) && Detached(obj2) && obj1 !in elems && obj2 !in elems
      ensures forall i :: 0 <= i < |elems| ==> elems[i] in old(elems)
    {
      ghost var s := elems;
      PrevIsPred(obj1);
      prev1 := obj1.prev;
      Pop(obj1);
      WithoutKeeps(s, obj1, obj2);
      PrevIsPred(obj2);
      prev2 := obj2.prev;
      Pop(obj2);
    }

    /**
     * The second half: obj1 goes back in after prev2, then obj2 after prev1.
     * home is the list as it was before the two were popped, so the nodes
     * this may touch are the ones Swap may touch.
     */
    method RelinkPair(obj1: Node, prev2: Node?, obj2: Node, prev1: Node?, toHead: bool, ghost home: seq<Node>)
      requires Valid() && obj1 != obj2
      requires Detached(obj1) && Detached(obj2) && obj1 !in elems && obj2 !in elems
      requires prev2 != null ==> prev2 in elems
      requires prev1 != null ==> prev1 in elems
      requires obj1 in home && obj2 in home && forall i :: 0 <= i < |elems| ==> elems[i] in home
      modifies this, home
      ensures Valid()
      ensures elems == Relink(Relink(old(elems), obj1, prev2, toHead), obj2, prev1, toHead)
      ensures prev2 == null && !toHead ==> Detached(obj1)
      ensures prev1 == null && !toHead ==> Detached(obj2)
    {
      ghost var t := elems;
      RelinkNode(obj1, prev2, toHead);
      RelinkKeeps(t, obj1, prev2, toHead, prev1);
      RelinkNode(obj2, prev1, toHead);
    }

    /**
     * AddAfter(obj, p); with toHead, a null position means AddHead(obj)
     * instead (the source calls AddAfter there too, which then does nothing).
     */
    method RelinkNode(obj: Node, p: Node?, toHead: bool)
      requires Valid() && Detached(obj) && obj !in elems
      requires p != null ==> p in elems
      modifies this, elems, obj
      ensures Valid()
      ensures elems == Relink(old(elems), obj, p, toHead)
      ensures forall o :: o in elems ==> o in old(elems) || o == obj
      ensures p == null && !toHead ==> Detached(obj)
    {
      if toHead && p == null {
        AddHead(obj);
      } else {
        AddAfter(obj, p);
      }
    }

    /**
     * Moves obj to just after ref: obj is first unlinked from wherever it
     * was, then linked in between ref and ref's successor; last becomes obj
     * when ref had no successor. Nothing happens when either is null.
     */
    method AddAfter(obj: Node?, ref: Node?)
      requires Valid()
      requires obj != null ==> obj in elems || Detached(obj)
      requires obj != null && ref != null ==> ref in elems && ref != obj
      modifies this, elems, obj
      ensures Valid()
      ensures obj != null && ref != null ==> elems == MoveAfter<Node>(old(elems), obj, ref)
      ensures forall o :: o in elems ==> o in old(elems) || o == obj
      ensures obj == null || ref == null ==>
        elems == old(elems) && first == old(first) && last == old(last) && unchanged(old(elems))
      ensures obj != null && ref == null ==> unchanged(obj)
    {
      if obj != null && ref != null {
        ghost var s := elems;
        Pop(obj);
        ghost var t := elems;
        WithoutKeeps(s, obj, ref);
        LinkAfter(obj, ref);
        assert elems == MoveAfter<Node>(s, obj, ref);
        forall o | o in elems
          ensures o in s || o == obj
        {
          InsertMember(t, IndexOf<Node>(t, ref) + 1, obj, o);
        }
      }
    }

    /**
     * The linking half of AddAfter: obj, which is in no list, goes in
     * between ref and ref's successor, or becomes the tail.
     */
    method LinkAfter(obj: Node, ref: Node)
      requires Valid() && ref in elems && obj !in elems
      modifies this, elems, obj
      ensures Valid()
      ensures elems == Insert(old(elems), IndexOf<Node>(old(elems), ref) + 1, obj)
    {
      ghost var t := elems;
      ghost var j := IndexOf<Node>(t, ref) + 1;
      Neighbours(j - 1);
      if j < |t| {
        assert LinkedAt(t, j);
      }
      label Before:
      obj.next := ref.next;
      obj.prev := ref;
      if ref.next != null {
        ref.next.prev := obj;
      } else {
        last := obj;
      }
      ref.next := obj;
      elems := Insert<Node>(t, j, obj);
      assert Chain(elems) by {
        forall k | 0 <= k < |t| && k + 1 != j && k != j
          ensures LinkedAt(t, k)
        {
          assert old@Before(LinkedAt(t, k));
        }
        InsertChain(t, j, obj);
      }
      InsertEnds(t, j, obj);
      InsertDistinct(t, j, obj);
    }

    /**
     * Moves obj to just before ref: obj is first unlinked from wherever it
     * was, then linked in between ref's predecessor and ref; first becomes
     * obj when ref had no predecessor. Nothing happens when either is null.
     */
    method AddBefore(obj: Node?, ref: Node?)
      requires Valid()
      requires obj != null ==> obj in elems || Detached(obj)
      requires obj != null && ref != null ==> ref in elems && ref != obj
      modifies this, elems, obj
      ensures Valid()
      ensures obj != null && ref != null ==> elems == MoveBefore<Node>(old(elems), obj, ref)
      ensures forall o :: o in elems ==> o in old(elems) || o == obj
      ensures obj == null || ref == null ==>
        elems == old(elems) && first == old(first) && last == old(last) && unchanged(old(elems))
      ensures obj != null && ref == null ==> unchanged(obj)
    {
      if obj != null && ref != null {
        ghost var s := elems;
        Pop(obj);
        ghost var t := elems;
        WithoutKeeps(s, obj, ref);
        LinkBefore(obj, ref);
        assert elems == MoveBefore<Node>(s, obj, ref);
        forall o | o in elems
          ensures o in s || o == obj
        {
          InsertMember(t, IndexOf<Node>(t, ref), obj, o);
        }
      }
    }

    /**
     * The linking half of AddBefore: obj, which is in no list, goes in
     * between ref's predecessor and ref, or becomes the head.
     */
    method LinkBefore(obj: Node, ref: Node)
      requires Valid() && ref in elems && obj !in elems
      modifies this, elems, obj
      ensures Valid()
      ensures elems == Insert(old(elems), IndexOf<Node>(old(elems), ref), obj)
    {
      ghost var t := elems;
      ghost var j := IndexOf<Node>(t, ref);
      Neighbours(j);
      if j > 0 {
        assert LinkedAt(t, j - 1);
      }
      label Before:
      obj.next := ref;
      obj.prev := ref.prev;
      if ref.prev != null {
        ref.prev.next := obj;
      } else {
        first := obj;
      }
      ref.prev := obj;
      elems := Insert<Node>(t, j, obj);
      assert Chain(elems) by {
        forall k | 0 <= k < |t| && k + 1 != j && k != j
          ensures LinkedAt(t, k)
        {
          assert old@Before(LinkedAt(t, k));
        }
        InsertChain(t, j, obj);
      }
      InsertEnds(t, j, obj);
      InsertDistinct(t, j, obj);
    }

    /**
     * Appends obj, which must be in no list: it becomes the tail, and the
     * head as well when the list was empty.
     */
    method AddTail(obj: Node)
      requires Valid() && obj !in elems
      modifies this, elems, obj
      ensures Valid()
      ensures elems == old(elems) + [obj]
      ensures last == obj
      ensures old(elems) != [] ==> first == old(first)
    {
      ghost var t := elems;
      label Before:
      obj.next := null;
      obj.prev := last;
      if last == null {
        last := obj;
        first := obj;
      } else {
        Neighbours(|t| - 1);
        last.next := obj;
      }
      last := obj;
      elems := Insert(t, |t|, obj);
      assert elems == t + [obj];
      forall k | 0 <= k < |t| && k + 1 != |t|
        ensures LinkedAt(t, k)
      {
        assert old@Before(LinkedAt(t, k));
      }
      if |t| > 1 {
        assert old@Before(LinkedAt(t, |t| - 2));
      }
      InsertChain(t, |t|, obj);
      InsertDistinct(t, |t|, obj);
    }

    /**
     * Prepends obj, which must be in no list: it becomes the head, and the
     * tail as well when the list was empty.
     */
    method AddHead(obj: Node)
      requires Valid() && obj !in elems
      modifies this, elems, obj
      ensures Valid()
      ensures elems == [obj] + old(elems)
      ensures first == obj
      ensures old(elems) != [] ==> last == old(last)
    {
      ghost var t := elems;
      if t != [] {
        Neighbours(0);
      }
      label Before:
      obj.next := first;
      obj.prev := null;
      if first == null {
        last := obj;
        first := obj;
      } else {
        first.prev := obj;
      }
      first := obj;
      elems := Insert(t, 0, obj);
      assert Chain(elems) by {
        forall k | 0 < k < |t|
          ensures LinkedAt(t, k)
        {
          assert old@Before(LinkedAt(t, k));
        }
        InsertChain(t, 0, obj);
      }
      assert elems == [obj] + t by {
        assert t[..0] == [] && t[0..] == t;
      }
      assert Distinct(elems) by {
        InsertDistinct(t, 0, obj);
      }
    }
  }
}
