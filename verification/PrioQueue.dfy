/** The timer heap of avahi-core/prioq.c: a binary heap kept as a tree of linked nodes.

    Three views of one structure have to agree: the tree links (left, right, parent), the
    level-order list (next, prev) and the coordinates (x, y) of every node. The ghost field `nodes`
    lists the nodes in level order, so that the node at index k has its children at 2k+1 and 2k+2.
 */
module PrioQueue {
  import opened Lists

  class Node<T> {
    var data: T
    var x: nat
    var y: nat
    var left: Node?<T>
    var right: Node?<T>
    var parent: Node?<T>
    var next: Node?<T>
    var prev: Node?<T>

    constructor (data: T)
      ensures this.data == data
      ensures left == right == parent == next == prev == null
      ensures x == y == 0
    {
      this.data := data;
      left, right, parent, next, prev := null, null, null, null, null;
      x, y := 0, 0;
    }
  }

  // ---------------------------------------------------------------- orders

  ghost predicate Opposite<T>(compare: (T, T) -> int, a: T, b: T) {
    compare(a, b) > 0 <==> compare(b, a) < 0
  }

  ghost predicate Transitive<T>(compare: (T, T) -> int, a: T, b: T, c: T) {
    compare(a, b) <= 0 && compare(b, c) <= 0 ==> compare(a, c) <= 0
  }

  /** What heap order needs of a three-way comparison: a total preorder. */
  ghost predicate TotalPreorder<T(!new)>(compare: (T, T) -> int) {
    && (forall a, b :: Opposite(compare, a, b))
    && (forall a, b, c :: Transitive(compare, a, b, c))
  }

  // ---------------------------------------------------------------- positions

  function Pow2(n: nat): (p: nat)
    ensures p >= 1
  {
    if n == 0 then 1 else 2 * Pow2(n - 1)
  }

  function Shift(x: nat, k: nat): nat {
    if k == 0 then x else Shift(x, k - 1) / 2
  }

  function PositionOf(x: nat, y: nat): nat {
    Pow2(y) - 1 + x
  }

  lemma {:induction false} ShiftBelow(x: nat, y: nat, r: nat)
    requires x < Pow2(y) && r <= y
    ensures Shift(x, y - r) < Pow2(r)
    decreases y - r
  {
    if r < y {
      ShiftBelow(x, y, r + 1);
    }
  }

  /** The ancestor at depth r of position (x, y) is at (x >> (y - r), r), never after (x, y). */
  lemma {:induction false} AncestorBefore(x: nat, y: nat, r: nat)
    requires r <= y
    ensures PositionOf(Shift(x, y - r), r) <= PositionOf(x, y)
    decreases y - r
  {
    if r < y {
      AncestorBefore(x, y, r + 1);
    }
  }

  lemma ShiftEnds(x: nat, y: nat)
    requires x < Pow2(y)
    ensures PositionOf(Shift(x, y), 0) == 0 && Shift(x, 0) == x
  {
    ShiftBelow(x, y, 0);
  }

  /** One more bit of x leads to a child. */
  lemma OneLevelDown(x: nat, y: nat, r: nat)
    requires x < Pow2(y) && r < y
    ensures var up := PositionOf(Shift(x, y - r), r);
            PositionOf(Shift(x, y - r - 1), r + 1) == 2 * up + if Shift(x, y - r - 1) % 2 == 1 then 2 else 1
  {
    ShiftBelow(x, y, r + 1);
    ParentPosition(Shift(x, y - r - 1), r + 1);
  }

  /** A position has exactly one pair of coordinates. */
  lemma {:induction false} CoordinatesUnique(x: nat, y: nat, x': nat, y': nat)
    requires x < Pow2(y) && x' < Pow2(y') && PositionOf(x, y) == PositionOf(x', y')
    ensures x == x' && y == y'
  {
    if y < y' {
      Pow2Doubles(y, y');
    } else if y' < y {
      Pow2Doubles(y', y);
    }
  }

  lemma {:induction false} Pow2Doubles(a: nat, b: nat)
    requires a < b
    ensures 2 * Pow2(a) <= Pow2(b)
    decreases b - a
  {
    if a + 1 < b {
      Pow2Doubles(a + 1, b);
    }
  }

  /** The parent is one level up, in the column that two children share. */
  lemma ParentPosition(x: nat, y: nat)
    requires y > 0 && x < Pow2(y)
    ensures x / 2 < Pow2(y - 1) && PositionOf(x, y) > 0 && PositionOf(x / 2, y - 1) == (PositionOf(x, y) - 1) / 2
    ensures PositionOf(x, y) == 2 * PositionOf(x / 2, y - 1) + if x % 2 == 1 then 2 else 1
  {
  }

  // ---------------------------------------------------------------- the three views

  ghost function NodeSet<T>(s: seq<Node<T>>): set<Node<T>> {
    set n | n in s
  }

  ghost function At<T>(s: seq<Node<T>>, i: int): Node?<T> {
    if 0 <= i < |s| then s[i] else null
  }

  ghost predicate TreeLinksAt<T>(s: seq<Node<T>>, i: int)
    requires 0 <= i < |s|
    reads s`left, s`right, s`parent
  {
    && s[i].parent == (if i == 0 then null else s[(i - 1) / 2])
    && s[i].left == At(s, 2 * i + 1)
    && s[i].right == At(s, 2 * i + 2)
  }

  ghost predicate TreeLinks<T>(s: seq<Node<T>>)
    reads s`left, s`right, s`parent
  {
    forall i :: 0 <= i < |s| ==> TreeLinksAt(s, i)
  }

  ghost predicate ListLinksAt<T>(s: seq<Node<T>>, i: int)
    requires 0 <= i < |s|
    reads s`next, s`prev
  {
    && s[i].next == At(s, i + 1)
    && s[i].prev == At(s, i - 1)
  }

  ghost predicate ListLinks<T>(s: seq<Node<T>>)
    reads s`next, s`prev
  {
    forall i :: 0 <= i < |s| ==> ListLinksAt(s, i)
  }

  ghost predicate CoordinatesAt<T>(s: seq<Node<T>>, i: int)
    requires 0 <= i < |s|
    reads s`x, s`y
  {
    s[i].x < Pow2(s[i].y) && PositionOf(s[i].x, s[i].y) == i
  }

  ghost predicate Coordinates<T>(s: seq<Node<T>>)
    reads s`x, s`y
  {
    forall i :: 0 <= i < |s| ==> CoordinatesAt(s, i)
  }

  lemma CoordinatesDistinct<T>(s: seq<Node<T>>)
    requires Coordinates(s)
    ensures NoDuplicates(s)
  {
    forall i, j
      ensures Apart(s, i, j)
    {
      if 0 <= i < |s| && 0 <= j < |s| {
        assert CoordinatesAt(s, i) && CoordinatesAt(s, j);
      }
    }
  }

  lemma LoneInTree<T>(n: Node<T>)
    requires n.left == n.right == n.parent == null
    ensures TreeLinks([n])
  {
    assert TreeLinksAt([n], 0);
  }

  lemma LoneInList<T>(n: Node<T>)
    requires n.next == n.prev == null
    ensures ListLinks([n])
  {
    assert ListLinksAt([n], 0);
  }

  lemma LoneAtOrigin<T>(n: Node<T>)
    requires n.x == n.y == 0
    ensures Coordinates([n])
  {
    hide Pow2, PositionOf;
    RootPosition();
    assert CoordinatesAt([n], 0);
  }

  lemma RootPosition()
    ensures Pow2(0) == 1 && PositionOf(0, 0) == 0
  {
  }

  /** The last node is a leaf. */
  lemma LastLinks<T>(s: seq<Node<T>>)
    requires s != [] && TreeLinks(s) && ListLinks(s)
    ensures var n := s[|s| - 1]; n.next == null && n.left == null && n.right == null && n.prev == At(s, |s| - 2)
  {
    assert TreeLinksAt(s, |s| - 1) && ListLinksAt(s, |s| - 1);
  }

  // ---------------------------------------------------------------- swapping two positions

  ghost function Swapped<T>(s: seq<T>, i: int, j: int): seq<T>
    requires 0 <= i < |s| && 0 <= j < |s|
  {
    s[i := s[j]][j := s[i]]
  }

  /** The transposition of a and b. */
  ghost function Sigma<T>(a: Node<T>, b: Node<T>, n: Node?<T>): Node?<T> {
    if n == a then b else if n == b then a else n
  }

  ghost function Partner<T>(a: Node<T>, b: Node<T>, n: Node<T>): Node<T> {
    if n == a then b else if n == b then a else n
  }

  ghost predicate ListInverse<T>(S: set<Node<T>>, a: Node<T>)
    reads S
  {
    && a in S && a.next != a && a.prev != a
    && (a.next != null ==> a.next in S && a.next != a.prev)
    && (a.prev != null ==> a.prev in S)
    && (forall n :: n in S ==> (n.next == a <==> a.prev == n))
    && (forall n :: n in S ==> (n.prev == a <==> a.next == n))
  }

  ghost predicate TreeInverse<T>(S: set<Node<T>>, a: Node<T>)
    reads S
  {
    && a in S && a.left != a && a.right != a && a.parent != a
    && (a.left != null ==> a.left in S && a.left != a.right && a.left != a.parent)
    && (a.right != null ==> a.right in S && a.right != a.parent)
    && (a.parent != null ==> a.parent in S)
    && (forall n :: n in S ==> (n.left == a || n.right == a <==> a.parent == n))
    && (forall n :: n in S && n.left == a ==> n.right != a)
    && (forall n :: n in S ==> (n.parent == a <==> a.left == n || a.right == n))
  }

  lemma ListInverseAt<T>(s: seq<Node<T>>, i: int)
    requires NoDuplicates(s) && ListLinks(s) && 0 <= i < |s|
    ensures ListInverse(NodeSet(s), s[i])
  {
    assert ListLinksAt(s, i);
    assert Apart(s, i, i + 1) && Apart(s, i, i - 1) && Apart(s, i - 1, i + 1);
    forall n | n in NodeSet(s)
      ensures n.next == s[i] <==> s[i].prev == n
      ensures n.prev == s[i] <==> s[i].next == n
    {
      var k :| 0 <= k < |s| && s[k] == n;
      assert ListLinksAt(s, k);
      assert Apart(s, i, k + 1) && Apart(s, i, k - 1) && Apart(s, k, i + 1) && Apart(s, k, i - 1);
    }
  }

  lemma TreeInversePair<T>(s: seq<Node<T>>, i: int, k: int)
    requires NoDuplicates(s) && 0 <= i < |s| && 0 <= k < |s| && TreeLinksAt(s, i) && TreeLinksAt(s, k)
    ensures s[k].left == s[i] || s[k].right == s[i] <==> s[i].parent == s[k]
    ensures s[k].left == s[i] ==> s[k].right != s[i]
  {
    assert Apart(s, k, (i - 1) / 2) && Apart(s, i, 2 * k + 1) && Apart(s, i, 2 * k + 2);
    assert s[i].parent == s[k] <==> i > 0 && (i - 1) / 2 == k;
    assert s[k].left == s[i] <==> 2 * k + 1 == i;
    assert s[k].right == s[i] <==> 2 * k + 2 == i;
  }

  lemma TreeInverseAt<T>(s: seq<Node<T>>, i: int)
    requires NoDuplicates(s) && TreeLinks(s) && 0 <= i < |s|
    ensures TreeInverse(NodeSet(s), s[i])
  {
    assert TreeLinksAt(s, i);
    assert Apart(s, i, 2 * i + 1) && Apart(s, i, 2 * i + 2) && Apart(s, i, (i - 1) / 2);
    assert Apart(s, 2 * i + 1, 2 * i + 2) && Apart(s, 2 * i + 1, (i - 1) / 2) && Apart(s, 2 * i + 2, (i - 1) / 2);
    forall n | n in NodeSet(s)
      ensures n.left == s[i] || n.right == s[i] <==> s[i].parent == n
      ensures n.left == s[i] ==> n.right != s[i]
      ensures n.parent == s[i] <==> s[i].left == n || s[i].right == n
    {
      var k :| 0 <= k < |s| && s[k] == n;
      TreeInversePair(s, i, k);
      TreeInversePair(s, k, i);
    }
  }

  /** Renaming the links of a node by the transposition moves it to its place in the swapped sequence. */
  lemma ListLinksSwapped<T>(s: seq<Node<T>>, i: int, j: int, k: int, next: Node?<T>, prev: Node?<T>)
    requires 0 <= i < |s| && 0 <= j < |s| && i != j && NoDuplicates(s) && 0 <= k < |s|
    requires next == At(s, k + 1) && prev == At(s, k - 1)
    requires Swapped(s, i, j)[k].next == Sigma(s[i], s[j], next)
    requires Swapped(s, i, j)[k].prev == Sigma(s[i], s[j], prev)
    ensures ListLinksAt(Swapped(s, i, j), k)
  {
    SwappedAt(s, i, j, k + 1);
    SwappedAt(s, i, j, k - 1);
  }

  lemma TreeLinksSwapped<T>(s: seq<Node<T>>, i: int, j: int, k: int, left: Node?<T>, right: Node?<T>, parent: Node?<T>)
    requires 0 <= i < |s| && 0 <= j < |s| && i != j && NoDuplicates(s) && 0 <= k < |s|
    requires left == At(s, 2 * k + 1) && right == At(s, 2 * k + 2)
    requires parent == if k == 0 then null else At(s, (k - 1) / 2)
    requires Swapped(s, i, j)[k].left == Sigma(s[i], s[j], left)
    requires Swapped(s, i, j)[k].right == Sigma(s[i], s[j], right)
    requires Swapped(s, i, j)[k].parent == Sigma(s[i], s[j], parent)
    ensures TreeLinksAt(Swapped(s, i, j), k)
  {
    SwappedAt(s, i, j, 2 * k + 1);
    SwappedAt(s, i, j, 2 * k + 2);
    SwappedAt(s, i, j, (k - 1) / 2);
  }

  lemma SwappedMultiset<T>(s: seq<T>, i: int, j: int)
    requires 0 <= i < |s| && 0 <= j < |s|
    ensures multiset(Swapped(s, i, j)) == multiset(s)
  {
  }

  lemma DataSwapped<T>(s: seq<Node<T>>, i: int, j: int)
    requires 0 <= i < |s| && 0 <= j < |s|
    ensures Data(Swapped(s, i, j)) == Swapped(Data(s), i, j)
  {
    hide Data;
    var t := Swapped(s, i, j);
    var d := Data(s);
    var e := Data(t);
    assert |e| == |Swapped(d, i, j)|;
    forall k | 0 <= k < |s|
      ensures e[k] == Swapped(d, i, j)[k]
    {
      assert t[k] == s[if k == i then j else if k == j then i else k] || i == j;
    }
  }

  lemma DataAppended<T>(s: seq<Node<T>>, n: Node<T>)
    ensures Data(s + [n]) == Data(s) + [n.data]
  {
    assert (s + [n])[..|s|] == s;
  }

  lemma DataFront<T>(s: seq<Node<T>>, k: nat)
    requires k <= |s|
    ensures Data(s[..k]) == Data(s)[..k]
  {
  }

  lemma SwappedEnds<T>(s: seq<T>, i: int, j: int)
    requires 0 <= i < |s| && 0 <= j < |s|
    ensures |Swapped(s, i, j)| == |s| && Swapped(s, i, j)[j] == s[i] && (i != j ==> Swapped(s, i, j)[i] == s[j])
  {
  }

  lemma SwappedAt<T>(s: seq<Node<T>>, i: int, j: int, k: int)
    requires 0 <= i < |s| && 0 <= j < |s| && i != j && NoDuplicates(s)
    ensures At(Swapped(s, i, j), k) == Sigma(s[i], s[j], At(s, k))
  {
    assert Apart(s, i, k) && Apart(s, j, k);
  }

  lemma SwappedNode<T>(s: seq<Node<T>>, i: int, j: int, k: int)
    requires 0 <= i < |s| && 0 <= j < |s| && i != j && NoDuplicates(s) && 0 <= k < |s|
    ensures Swapped(s, i, j)[k] in s
    ensures Partner(s[i], s[j], Swapped(s, i, j)[k]) == s[k]
  {
    assert Apart(s, i, j) && Apart(s, i, k) && Apart(s, j, k);
  }

  // ---------------------------------------------------------------- heap order

  ghost function Data<T>(s: seq<Node<T>>): (d: seq<T>)
    reads s`data
    ensures |d| == |s| && forall i :: 0 <= i < |s| ==> d[i] == s[i].data
  {
    if s == [] then [] else Data(s[..|s| - 1]) + [s[|s| - 1].data]
  }

  /** The element at index i is not before its parent. */
  ghost predicate InOrder<T>(d: seq<T>, compare: (T, T) -> int, i: int)
    requires 1 <= i < |d|
  {
    compare(d[(i - 1) / 2], d[i]) <= 0
  }

  ghost predicate HeapOrder<T>(d: seq<T>, compare: (T, T) -> int) {
    forall i :: 1 <= i < |d| ==> InOrder(d, compare, i)
  }

  /** The element at index i is not before its grandparent. */
  ghost predicate InOrderAbove<T>(d: seq<T>, compare: (T, T) -> int, i: int)
    requires 3 <= i < |d|
  {
    compare(d[((i - 1) / 2 - 1) / 2], d[i]) <= 0
  }

  /** Heap order but for the two sides of position p, whose children are still not before its parent. */
  ghost predicate HeapOrderExcept<T>(d: seq<T>, compare: (T, T) -> int, p: int) {
    && (forall i :: 1 <= i < |d| && i != p && (i - 1) / 2 != p ==> InOrder(d, compare, i))
    && (forall i :: 3 <= i < |d| && (i - 1) / 2 == p ==> InOrderAbove(d, compare, i))
  }

  /** In heap order the element at the root is a least one. */
  lemma {:induction false} RootIsLeast<T(!new)>(d: seq<T>, compare: (T, T) -> int, i: nat)
    requires TotalPreorder(compare) && HeapOrder(d, compare) && i < |d|
    ensures compare(d[0], d[i]) <= 0
  {
    if i == 0 {
      assert Opposite(compare, d[0], d[0]);
    } else {
      RootIsLeast(d, compare, (i - 1) / 2);
      assert InOrder(d, compare, i);
      assert Transitive(compare, d[0], d[(i - 1) / 2], d[i]);
    }
  }

  /** A key may change arbitrarily at one position without breaking the order elsewhere. */
  lemma ChangedKey<T(!new)>(d: seq<T>, compare: (T, T) -> int, p: nat, v: T)
    requires TotalPreorder(compare) && HeapOrder(d, compare) && p < |d|
    ensures HeapOrderExcept(d[p := v], compare, p)
  {
    var e := d[p := v];
    forall i | 1 <= i < |e| && i != p && (i - 1) / 2 != p
      ensures InOrder(e, compare, i)
    {
      assert InOrder(d, compare, i);
    }
    forall i | 3 <= i < |e| && (i - 1) / 2 == p
      ensures InOrderAbove(e, compare, i)
    {
      assert InOrder(d, compare, i) && InOrder(d, compare, p);
      assert Transitive(compare, d[(p - 1) / 2], d[p], d[i]);
    }
  }

  /** Moving an element that is before its parent one level up. */
  lemma SiftUp<T(!new)>(d: seq<T>, compare: (T, T) -> int, k: nat)
    requires TotalPreorder(compare) && HeapOrderExcept(d, compare, k) && 1 <= k < |d| && !InOrder(d, compare, k)
    ensures HeapOrderExcept(Swapped(d, k, (k - 1) / 2), compare, (k - 1) / 2)
  {
    var up := (k - 1) / 2;
    var e := Swapped(d, k, up);
    forall i | 1 <= i < |e| && i != up && (i - 1) / 2 != up
      ensures InOrder(e, compare, i)
    {
      if (i - 1) / 2 == k {
        assert InOrderAbove(d, compare, i);
      } else {
        assert InOrder(d, compare, i);
      }
    }
    forall i | 3 <= i < |e| && (i - 1) / 2 == up
      ensures InOrderAbove(e, compare, i)
    {
      assert InOrder(d, compare, up);
      if i != k {
        assert InOrder(d, compare, i);
        assert Transitive(compare, d[(up - 1) / 2], d[up], d[i]);
      }
    }
  }

  /** A new last element has no children yet. */
  lemma Appended<T(!new)>(d: seq<T>, compare: (T, T) -> int, v: T)
    requires HeapOrder(d, compare)
    ensures HeapOrderExcept(d + [v], compare, |d|)
  {
    forall i | 1 <= i < |d|
      ensures InOrder(d + [v], compare, i)
    {
      assert InOrder(d, compare, i);
    }
  }

  /** Putting the last element in the place of another one. */
  lemma Replaced<T(!new)>(d: seq<T>, compare: (T, T) -> int, p: nat)
    requires TotalPreorder(compare) && HeapOrder(d, compare) && p < |d| - 1
    ensures HeapOrderExcept(Swapped(d, |d| - 1, p)[..|d| - 1], compare, p)
  {
    var e := d[p := d[|d| - 1]];
    ChangedKey(d, compare, p, d[|d| - 1]);
    var f := Swapped(d, |d| - 1, p)[..|d| - 1];
    forall i | 1 <= i < |f| && i != p && (i - 1) / 2 != p
      ensures InOrder(f, compare, i)
    {
      assert InOrder(e, compare, i);
    }
    forall i | 3 <= i < |f| && (i - 1) / 2 == p
      ensures InOrderAbove(f, compare, i)
    {
      assert InOrderAbove(e, compare, i);
    }
  }

  lemma PrefixInOrder<T(!new)>(d: seq<T>, compare: (T, T) -> int, k: nat)
    requires HeapOrder(d, compare) && k <= |d|
    ensures HeapOrder(d[..k], compare)
  {
    forall i | 1 <= i < k
      ensures InOrder(d[..k], compare, i)
    {
      assert InOrder(d, compare, i);
    }
  }

  ghost predicate ChildNotBefore<T>(d: seq<T>, compare: (T, T) -> int, k: int, v: T, i: int)
    requires 0 <= i < |d|
  {
    i >= 1 && (i - 1) / 2 == k ==> compare(v, d[i]) <= 0
  }

  /** v is not after any child of position k. */
  ghost predicate BoundsChildren<T>(d: seq<T>, compare: (T, T) -> int, k: int, v: T) {
    forall i :: 0 <= i < |d| ==> ChildNotBefore(d, compare, k, v, i)
  }

  lemma NoChildren<T>(d: seq<T>, compare: (T, T) -> int, k: nat, v: T)
    requires 2 * k + 1 >= |d|
    ensures BoundsChildren(d, compare, k, v)
  {
  }

  lemma AlwaysOpposite<T(!new)>(compare: (T, T) -> int, a: T, b: T)
    requires TotalPreorder(compare)
    ensures Opposite(compare, a, b)
  {
  }

  /** Moving an element that is after its smaller child one level down. */
  lemma SiftDown<T(!new)>(d: seq<T>, compare: (T, T) -> int, k: nat, down: nat)
    requires HeapOrderExcept(d, compare, k) && k < down < |d| && (down - 1) / 2 == k
    requires Opposite(compare, d[k], d[down]) && compare(d[k], d[down]) > 0
    requires BoundsChildren(d, compare, k, d[down])
    ensures HeapOrderExcept(Swapped(d, k, down), compare, down)
    ensures InOrder(Swapped(d, k, down), compare, down)
  {
    var e := Swapped(d, k, down);
    forall i | 1 <= i < |e| && i != down && (i - 1) / 2 != down
      ensures InOrder(e, compare, i)
    {
      if i == k {
        assert InOrderAbove(d, compare, down);
      } else if (i - 1) / 2 == k {
        assert ChildNotBefore(d, compare, k, d[down], i);
      } else {
        assert InOrder(d, compare, i);
      }
    }
    forall i | 3 <= i < |e| && (i - 1) / 2 == down
      ensures InOrderAbove(e, compare, i)
    {
      assert InOrder(d, compare, i);
    }
  }

  lemma BoundsThrough<T(!new)>(d: seq<T>, compare: (T, T) -> int, k: nat, v: T, w: T)
    requires TotalPreorder(compare) && compare(v, w) <= 0 && BoundsChildren(d, compare, k, w)
    ensures BoundsChildren(d, compare, k, v)
  {
    forall i | 0 <= i < |d|
      ensures ChildNotBefore(d, compare, k, v, i)
    {
      assert ChildNotBefore(d, compare, k, w, i);
      assert Transitive(compare, v, w, d[i]);
    }
  }

  lemma Settled<T(!new)>(d: seq<T>, compare: (T, T) -> int, k: nat)
    requires HeapOrderExcept(d, compare, k) && k < |d| && BoundsChildren(d, compare, k, d[k])
    requires k > 0 ==> InOrder(d, compare, k)
    ensures HeapOrder(d, compare)
  {
    forall i | 1 <= i < |d|
      ensures InOrder(d, compare, i)
    {
      assert ChildNotBefore(d, compare, k, d[k], i);
    }
  }

  // ---------------------------------------------------------------- the queue

  class PrioQueue<T(!new)> {
    const compare: (T, T) -> int
    var root: Node?<T>
    var last: Node?<T>
    var nNodes: nat
    ghost var nodes: seq<Node<T>>
    ghost var repr: set<Node<T>>

    ghost predicate InRepr()
      reads this`nodes, this`repr
    {
      forall i :: 0 <= i < |nodes| ==> nodes[i] in repr
    }

    /** All three views agree with `nodes`. */
    ghost predicate Linked()
      reads this, nodes
    {
      && InRepr() && TreeLinks(nodes) && ListLinks(nodes) && Coordinates(nodes)
      && root == At(nodes, 0) && last == At(nodes, |nodes| - 1) && nNodes == |nodes|
    }

    ghost predicate Valid()
      reads this, nodes
    {
      Linked() && TotalPreorder(compare) && HeapOrder(Data(nodes), compare)
    }

    constructor (compare: (T, T) -> int)
      requires TotalPreorder(compare)
      ensures Valid() && nodes == [] && this.compare == compare
    {
      this.compare := compare;
      root, last, nNodes := null, null, 0;
      nodes, repr := [], {};
    }

    /** Walks down from the root along the bits of x, most significant first. */
    method GetNodeAtXY(x: nat, y: nat) returns (n: Node<T>)
      requires TreeLinks(nodes) && Coordinates(nodes) && root == At(nodes, 0)
      requires x < Pow2(y) && PositionOf(x, y) < |nodes|
      ensures n == nodes[PositionOf(x, y)] && n.x == x && n.y == y
    {
      hide PositionOf, Pow2, Shift, TreeLinks, Coordinates;
      ShiftEnds(x, y);
      AncestorBefore(x, y, 0);
      n := root;
      var r := 0;
      while r < y
        invariant 0 <= r <= y && PositionOf(Shift(x, y - r), r) < |nodes|
        invariant n == nodes[PositionOf(Shift(x, y - r), r)]
      {
        AncestorBefore(x, y, r + 1);
        OneLevelDown(x, y, r);
        LinksAt(PositionOf(Shift(x, y - r), r));
        if Shift(x, y - r - 1) % 2 == 1 {
          n := n.right;
        } else {
          n := n.left;
        }
        r := r + 1;
      }
      PlaceOf(PositionOf(x, y));
      CoordinatesUnique(n.x, n.y, x, y);
    }

    lemma LinksAt(i: int)
      requires TreeLinks(nodes) && 0 <= i < |nodes|
      ensures TreeLinksAt(nodes, i)
    {
    }

    lemma PlaceOf(i: int)
      requires Coordinates(nodes) && 0 <= i < |nodes|
      ensures CoordinatesAt(nodes, i)
    {
    }

    // -------------------------------------------------------------- exchange_nodes, part by part

    /** Gives a and b each other's place in the level-order list. */
    method SwapSiblings(a: Node<T>, b: Node<T>, ghost S: set<Node<T>>)
      requires ListInverse(S, a) && ListInverse(S, b) && a != b
      modifies this`last, S`next, S`prev
      ensures forall n :: n in S ==> n.next == Sigma(a, b, old(Partner(a, b, n).next))
      ensures forall n :: n in S ==> n.prev == Sigma(a, b, old(Partner(a, b, n).prev))
      ensures last == if old(a.next) == null then b else if old(b.next) == null then a else old(last)
    {
      var ap, an := a.prev, a.next;
      var bp, bn := b.prev, b.next;
      if a.next == b {
        a.prev := b;
        b.next := a;
        a.next := bn;
        if bn != null { bn.prev := a; } else { last := a; }
        b.prev := ap;
        if ap != null { ap.next := b; }
      } else if b.next == a {
        a.next := b;
        b.prev := a;
        a.prev := bp;
        if bp != null { bp.next := a; }
        b.next := an;
        if an != null { an.prev := b; } else { last := b; }
      } else {
        a.prev := bp;
        if bp != null { bp.next := a; }
        a.next := bn;
        if bn != null { bn.prev := a; } else { last := a; }
        b.prev := ap;
        if ap != null { ap.next := b; }
        b.next := an;
        if an != null { an.prev := b; } else { last := b; }
      }
    }

    /** Hooks a and b under each other's parents; neither is the other's parent. */
    method SwapParents(a: Node<T>, b: Node<T>, ghost S: set<Node<T>>)
      requires TreeInverse(S, a) && TreeInverse(S, b) && a != b
      requires a.parent != b && b.parent != a
      modifies this`root, S`parent, S`left, S`right
      ensures forall n :: n in S ==> n.left == Sigma(a, b, old(n.left)) && n.right == Sigma(a, b, old(n.right))
      ensures forall n :: n in S ==> n.parent == old(Partner(a, b, n).parent)
      ensures root == if old(a.parent) == null then b else if old(b.parent) == null then a else old(root)
    {
      var ap, bp := a.parent, b.parent;
      var apl: Node?<T>, bpl: Node?<T> := null, null;
      if ap != null { apl := ap.left; }
      if bp != null { bpl := bp.left; }
      a.parent := bp;
      if bp != null {
        if bpl == b { bp.left := a; } else { bp.right := a; }
      } else {
        root := a;
      }
      b.parent := ap;
      if ap != null {
        if apl == a { ap.left := b; } else { ap.right := b; }
      } else {
        root := b;
      }
    }

    /** Exchanges the children of a and b. */
    method SwapChildren(a: Node<T>, b: Node<T>, ghost S: set<Node<T>>)
      requires a in S && b in S && a != b
      requires forall n :: n in S && n != a && n != b ==> (n.parent == a <==> a.left == n || a.right == n)
      requires forall n :: n in S && n != a && n != b ==> (n.parent == b <==> b.left == n || b.right == n)
      requires {a.left, a.right, b.left, b.right} <= S + {null}
      requires a !in {a.left, a.right, b.left, b.right} && b !in {a.left, a.right, b.left, b.right}
      modifies S`parent, a`left, a`right, b`left, b`right
      ensures a.left == old(b.left) && a.right == old(b.right) && b.left == old(a.left) && b.right == old(a.right)
      ensures a.parent == old(a.parent) && b.parent == old(b.parent)
      ensures forall n :: n in S && n != a && n != b ==> n.parent == Sigma(a, b, old(n.parent))
    {
      var l, r := a.left, a.right;
      a.left := b.left;
      if a.left != null { a.left.parent := a; }
      b.left := l;
      if b.left != null { b.left.parent := b; }
      a.right := b.right;
      if a.right != null { a.right.parent := a; }
      b.right := r;
      if b.right != null { b.right.parent := b; }
    }

    method SwapUnrelated(a: Node<T>, b: Node<T>, ghost S: set<Node<T>>)
      requires TreeInverse(S, a) && TreeInverse(S, b) && a != b
      requires a.parent != b && b.parent != a
      modifies this`root, S`parent, S`left, S`right
      ensures forall n :: n in S ==> n.left == Sigma(a, b, old(Partner(a, b, n).left))
      ensures forall n :: n in S ==> n.right == Sigma(a, b, old(Partner(a, b, n).right))
      ensures forall n :: n in S ==> n.parent == Sigma(a, b, old(Partner(a, b, n).parent))
      ensures root == if old(a.parent) == null then b else if old(b.parent) == null then a else old(root)
    {
      SwapParents(a, b, S);
      SwapChildren(a, b, S);
    }

    /** Hooks a, a child of b, under b's parent and b under a. */
    method HookAbove(a: Node<T>, b: Node<T>, ghost S: set<Node<T>>)
      requires TreeInverse(S, a) && TreeInverse(S, b) && a != b && a.parent == b
      modifies this`root, S`parent, S`left, S`right
      ensures forall n :: n in S ==> n.left == (if old(n.left) == b then a else old(n.left))
      ensures forall n :: n in S ==> n.right == (if old(n.right) == b then a else old(n.right))
      ensures forall n :: n in S ==> n.parent == if n == a then old(b.parent) else if n == b then a else old(n.parent)
      ensures root == if old(b.parent) == null then a else old(root)
    {
      var p := b.parent;
      b.parent := a;
      a.parent := p;
      if p != null {
        if p.left == b { p.left := a; } else { p.right := a; }
      } else {
        root := a;
      }
    }

    /** Lets a take b as its left child and otherwise exchanges their children. */
    method LowerLeft(a: Node<T>, b: Node<T>, ghost S: set<Node<T>>)
      requires a in S && b in S && a != b && b.left == a
      requires forall n :: n in S && n != a && n != b ==> (n.parent == a <==> a.left == n || a.right == n)
      requires forall n :: n in S && n != a && n != b ==> (n.parent == b <==> b.right == n)
      requires {a.left, a.right, b.right} <= S + {null}
      requires a !in {a.left, a.right, b.right} && b !in {a.left, a.right, b.right}
      modifies S`parent, a`left, a`right, b`left, b`right
      ensures a.left == b && a.right == old(b.right) && b.left == old(a.left) && b.right == old(a.right)
      ensures a.parent == old(a.parent) && b.parent == old(b.parent)
      ensures forall n :: n in S && n != a && n != b ==> n.parent == Sigma(a, b, old(n.parent))
    {
      b.left := a.left;
      if b.left != null { b.left.parent := b; }
      a.left := b;
      var r := a.right;
      a.right := b.right;
      if a.right != null { a.right.parent := a; }
      b.right := r;
      if b.right != null { b.right.parent := b; }
    }

    /** Lets a take b as its right child and otherwise exchanges their children. */
    method LowerRight(a: Node<T>, b: Node<T>, ghost S: set<Node<T>>)
      requires a in S && b in S && a != b && b.right == a
      requires forall n :: n in S && n != a && n != b ==> (n.parent == a <==> a.left == n || a.right == n)
      requires forall n :: n in S && n != a && n != b ==> (n.parent == b <==> b.left == n)
      requires {a.left, a.right, b.left} <= S + {null}
      requires a !in {a.left, a.right, b.left} && b !in {a.left, a.right, b.left}
      modifies S`parent, a`left, a`right, b`left, b`right
      ensures a.right == b && a.left == old(b.left) && b.left == old(a.left) && b.right == old(a.right)
      ensures a.parent == old(a.parent) && b.parent == old(b.parent)
      ensures forall n :: n in S && n != a && n != b ==> n.parent == Sigma(a, b, old(n.parent))
    {
      b.right := a.right;
      if b.right != null { b.right.parent := b; }
      a.right := b;
      var l := a.left;
      a.left := b.left;
      if a.left != null { a.left.parent := a; }
      b.left := l;
      if b.left != null { b.left.parent := b; }
    }

    /** Puts a, a child of b, in b's place. */
    method LiftChild(a: Node<T>, b: Node<T>, ghost S: set<Node<T>>)
      requires TreeInverse(S, a) && TreeInverse(S, b) && a != b && a.parent == b
      modifies this`root, S`parent, S`left, S`right
      ensures forall n :: n in S ==> n.left == Sigma(a, b, old(Partner(a, b, n).left))
      ensures forall n :: n in S ==> n.right == Sigma(a, b, old(Partner(a, b, n).right))
      ensures forall n :: n in S ==> n.parent == Sigma(a, b, old(Partner(a, b, n).parent))
      ensures root == if old(b.parent) == null then a else old(root)
    {
      HookAbove(a, b, S);
      if b.left == a {
        LowerLeft(a, b, S);
      } else {
        LowerRight(a, b, S);
      }
    }

    method SwapInTree(a: Node<T>, b: Node<T>, ghost S: set<Node<T>>)
      requires TreeInverse(S, a) && TreeInverse(S, b) && a != b
      modifies this`root, S`parent, S`left, S`right
      ensures forall n :: n in S ==> n.left == Sigma(a, b, old(Partner(a, b, n).left))
      ensures forall n :: n in S ==> n.right == Sigma(a, b, old(Partner(a, b, n).right))
      ensures forall n :: n in S ==> n.parent == Sigma(a, b, old(Partner(a, b, n).parent))
      ensures root == if old(a.parent) == null then b else if old(b.parent) == null then a else old(root)
    {
      if a.parent == b {
        LiftChild(a, b, S);
      } else if b.parent == a {
        LiftChild(b, a, S);
      } else {
        SwapUnrelated(a, b, S);
      }
    }

    method ExchangeInTree(a: Node<T>, b: Node<T>, ghost i: int, ghost j: int)
      requires 0 <= i < |nodes| && 0 <= j < |nodes| && i != j && nodes[i] == a && nodes[j] == b && InRepr()
      requires NoDuplicates(nodes) && TreeLinks(nodes) && root == nodes[0]
      modifies this`root, repr`left, repr`right, repr`parent
      ensures TreeLinks(Swapped(nodes, i, j)) && root == Swapped(nodes, i, j)[0]
    {
      assert Apart(nodes, i, j);
      TreeInverseAt(nodes, i);
      TreeInverseAt(nodes, j);
      assert TreeLinksAt(nodes, i);
      assert TreeLinksAt(nodes, j);
      SwapInTree(a, b, NodeSet(nodes));
      forall k | 0 <= k < |nodes|
        ensures TreeLinksAt(Swapped(nodes, i, j), k)
      {
        SwappedNode(nodes, i, j, k);
        assert old(TreeLinksAt(nodes, k));
        TreeLinksSwapped(nodes, i, j, k, old(nodes[k].left), old(nodes[k].right), old(nodes[k].parent));
      }
    }

    method ExchangeInList(a: Node<T>, b: Node<T>, ghost i: int, ghost j: int)
      requires 0 <= i < |nodes| && 0 <= j < |nodes| && i != j && nodes[i] == a && nodes[j] == b && InRepr()
      requires NoDuplicates(nodes) && ListLinks(nodes) && last == nodes[|nodes| - 1]
      modifies this`last, repr`next, repr`prev
      ensures ListLinks(Swapped(nodes, i, j)) && last == Swapped(nodes, i, j)[|nodes| - 1]
    {
      assert Apart(nodes, i, j);
      ListInverseAt(nodes, i);
      ListInverseAt(nodes, j);
      assert ListLinksAt(nodes, i);
      assert ListLinksAt(nodes, j);
      SwapSiblings(a, b, NodeSet(nodes));
      forall k | 0 <= k < |nodes|
        ensures ListLinksAt(Swapped(nodes, i, j), k)
      {
        SwappedNode(nodes, i, j, k);
        assert old(ListLinksAt(nodes, k));
        ListLinksSwapped(nodes, i, j, k, old(nodes[k].next), old(nodes[k].prev));
      }
    }

    method ExchangeCoordinates(a: Node<T>, b: Node<T>, ghost i: int, ghost j: int)
      requires 0 <= i < |nodes| && 0 <= j < |nodes| && i != j && nodes[i] == a && nodes[j] == b && InRepr()
      requires NoDuplicates(nodes) && Coordinates(nodes)
      modifies a`x, a`y, b`x, b`y
      ensures Coordinates(Swapped(nodes, i, j))
    {
      assert CoordinatesAt(nodes, i) && CoordinatesAt(nodes, j);
      a.x, b.x := b.x, a.x;
      a.y, b.y := b.y, a.y;
      forall k | 0 <= k < |nodes|
        ensures CoordinatesAt(Swapped(nodes, i, j), k)
      {
        assert Apart(nodes, i, k) && Apart(nodes, j, k);
        assert old(CoordinatesAt(nodes, k));
      }
    }

    method ExchangeLinks(a: Node<T>, b: Node<T>, ghost i: int, ghost j: int)
      requires 0 <= i < |nodes| && 0 <= j < |nodes| && i != j && nodes[i] == a && nodes[j] == b && InRepr()
      requires NoDuplicates(nodes) && TreeLinks(nodes) && ListLinks(nodes)
      requires root == nodes[0] && last == nodes[|nodes| - 1]
      modifies this`root, this`last, repr`left, repr`right, repr`parent, repr`next, repr`prev
      ensures TreeLinks(Swapped(nodes, i, j)) && ListLinks(Swapped(nodes, i, j))
      ensures root == Swapped(nodes, i, j)[0] && last == Swapped(nodes, i, j)[|nodes| - 1]
    {
      ExchangeInTree(a, b, i, j);
      assert ListLinks(nodes);
      ExchangeInList(a, b, i, j);
    }

    method ExchangeViews(a: Node<T>, b: Node<T>, ghost i: int, ghost j: int, ghost t: seq<Node<T>>)
      requires 0 <= i < |nodes| && 0 <= j < |nodes| && i != j && nodes[i] == a && nodes[j] == b && InRepr()
      requires TreeLinks(nodes) && ListLinks(nodes) && Coordinates(nodes) && t == Swapped(nodes, i, j)
      requires root == nodes[0] && last == nodes[|nodes| - 1]
      modifies this`root, this`last
      modifies repr`x, repr`y, repr`left, repr`right, repr`parent, repr`next, repr`prev
      ensures TreeLinks(t) && ListLinks(t) && Coordinates(t)
      ensures root == t[0] && last == t[|nodes| - 1]
    {
      CoordinatesDistinct(nodes);
      ExchangeCoordinates(a, b, i, j);
      assert TreeLinks(nodes);
      assert ListLinks(nodes);
      ExchangeLinks(a, b, i, j);
      assert Coordinates(t);
    }

    /** Exchanges the positions of a and b, at indices i and j, in all three views. */
    method ExchangeNodes(a: Node<T>, b: Node<T>, ghost i: int, ghost j: int)
      requires Linked() && 0 <= i < |nodes| && 0 <= j < |nodes| && i != j && nodes[i] == a && nodes[j] == b
      modifies this`root, this`last, this`nodes
      modifies repr`x, repr`y, repr`left, repr`right, repr`parent, repr`next, repr`prev
      ensures Linked() && nodes == Swapped(old(nodes), i, j)
      ensures Data(nodes) == Swapped(old(Data(nodes)), i, j) && multiset(nodes) == old(multiset(nodes))
    {
      hide TreeLinks, ListLinks, Coordinates, Data;
      ghost var t := Swapped(nodes, i, j);
      SwappedMultiset(nodes, i, j);
      DataSwapped(nodes, i, j);
      ExchangeViews(a, b, i, j, t);
      nodes := t;
    }

    // -------------------------------------------------------------- the operations

    /** Moves n up while it is before its parent. */
    method MoveUp(n: Node<T>, ghost p: int) returns (ghost k: int)
      requires Linked() && TotalPreorder(compare) && 0 <= p < |nodes| && nodes[p] == n
      requires HeapOrderExcept(Data(nodes), compare, p)
      modifies this`root, this`last, this`nodes
      modifies repr`x, repr`y, repr`left, repr`right, repr`parent, repr`next, repr`prev
      ensures Linked() && multiset(nodes) == old(multiset(nodes))
      ensures 0 <= k < |nodes| && nodes[k] == n && HeapOrderExcept(Data(nodes), compare, k)
      ensures k > 0 ==> InOrder(Data(nodes), compare, k)
    {
      hide Linked, HeapOrderExcept, TotalPreorder, Swapped, Data;
      k := p;
      ParentOf(k);
      while n.parent != null && compare(n.parent.data, n.data) > 0
        invariant Linked() && multiset(nodes) == old(multiset(nodes))
        invariant 0 <= k < |nodes| && nodes[k] == n && HeapOrderExcept(Data(nodes), compare, k)
        invariant n.parent == if k == 0 then null else nodes[(k - 1) / 2]
        decreases k
      {
        ghost var up := (k - 1) / 2;
        SiftUp(Data(nodes), compare, k);
        SwappedEnds(nodes, k, up);
        ExchangeNodes(n, n.parent, k, up);
        k := up;
        ParentOf(k);
      }
    }

    lemma ParentOf(k: int)
      requires Linked() && 0 <= k < |nodes|
      ensures nodes[k].parent == if k == 0 then null else nodes[(k - 1) / 2]
    {
      assert TreeLinksAt(nodes, k);
    }

    /** The smaller child of the node at index k, if it has one. */
    method SmallerChild(n: Node<T>, ghost k: int) returns (min: Node?<T>, ghost down: int)
      requires Linked() && TotalPreorder(compare) && 0 <= k < |nodes| && nodes[k] == n
      ensures min == null ==> 2 * k + 1 >= |nodes|
      ensures min != null ==> k < down < |nodes| && (down - 1) / 2 == k && min == nodes[down]
      ensures min != null ==> BoundsChildren(Data(nodes), compare, k, min.data)
    {
      assert TreeLinksAt(nodes, k);
      min, down := n.left, 2 * k + 1;
      if min == null {
        assert n.right == null;
        return;
      }
      if n.right != null && compare(n.right.data, min.data) < 0 {
        min, down := n.right, 2 * k + 2;
      }
      assert Opposite(compare, min.data, min.data);
      assert Opposite(compare, n.left.data, min.data);
      assert n.right != null ==> Opposite(compare, min.data, n.right.data);
      forall i | 0 <= i < |nodes|
        ensures ChildNotBefore(Data(nodes), compare, k, min.data, i)
      {
        assert i >= 1 && (i - 1) / 2 == k ==> i == 2 * k + 1 || i == 2 * k + 2;
      }
    }

    /** Moves n down while it is after the smaller one of its children. */
    method MoveDown(n: Node<T>, ghost p: int)
      requires Linked() && TotalPreorder(compare) && 0 <= p < |nodes| && nodes[p] == n
      requires HeapOrderExcept(Data(nodes), compare, p)
      requires p > 0 ==> InOrder(Data(nodes), compare, p)
      modifies this`root, this`last, this`nodes
      modifies repr`x, repr`y, repr`left, repr`right, repr`parent, repr`next, repr`prev
      ensures Valid() && multiset(nodes) == old(multiset(nodes))
    {
      hide Linked, HeapOrder, HeapOrderExcept, BoundsChildren, TotalPreorder, Swapped, Data, InOrder;
      ghost var k := p;
      while true
        invariant Linked() && multiset(nodes) == old(multiset(nodes))
        invariant 0 <= k < |nodes| && nodes[k] == n && HeapOrderExcept(Data(nodes), compare, k)
        invariant k > 0 ==> InOrder(Data(nodes), compare, k)
        decreases |nodes| - k
      {
        var min, down := SmallerChild(n, k);
        if min == null {
          NoChildren(Data(nodes), compare, k, n.data);
          break;
        }
        if compare(n.data, min.data) <= 0 {
          BoundsThrough(Data(nodes), compare, k, n.data, min.data);
          break;
        }
        AlwaysOpposite(compare, n.data, min.data);
        SiftDown(Data(nodes), compare, k, down);
        SwappedEnds(nodes, k, down);
        ExchangeNodes(n, min, k, down);
        k := down;
      }
      Settled(Data(nodes), compare, k);
    }

    /** Restores heap order after the key of the node at index p has changed. */
    method Shuffle(n: Node<T>, ghost p: int)
      requires Linked() && TotalPreorder(compare) && 0 <= p < |nodes| && nodes[p] == n
      requires HeapOrderExcept(Data(nodes), compare, p)
      modifies this`root, this`last, this`nodes
      modifies repr`x, repr`y, repr`left, repr`right, repr`parent, repr`next, repr`prev
      ensures Valid() && multiset(nodes) == old(multiset(nodes))
    {
      ghost var k := MoveUp(n, p);
      MoveDown(n, k);
    }

    method AttachToList(n: Node<T>)
      requires ListLinks(nodes) && NoDuplicates(nodes) && InRepr() && n !in repr
      requires nodes != [] && last == nodes[|nodes| - 1]
      modifies last`next, n`next, n`prev
      ensures ListLinks(nodes + [n])
    {
      ghost var s := nodes + [n];
      last.next := n;
      n.prev := last;
      n.next := null;
      forall i | 0 <= i < |s|
        ensures ListLinksAt(s, i)
      {
        if i < |nodes| {
          assert old(ListLinksAt(nodes, i));
          assert Apart(nodes, i, |nodes| - 1);
        }
      }
    }

    /** Hooks n under the parent that the coordinates (x, y) of the first free position name. */
    method AttachToTree(n: Node<T>, x: nat, y: nat)
      requires TreeLinks(nodes) && Coordinates(nodes) && InRepr() && n !in repr && root == At(nodes, 0)
      requires y > 0 && x < Pow2(y) && PositionOf(x, y) == |nodes|
      modifies repr`left, repr`right, n`left, n`right, n`parent
      ensures TreeLinks(nodes + [n])
    {
      hide Coordinates, CoordinatesAt, PositionOf, Pow2;
      ghost var s := nodes + [n];
      ghost var p := (|nodes| - 1) / 2;
      ParentPosition(x, y);
      CoordinatesDistinct(nodes);
      n.parent := GetNodeAtXY(x / 2, y - 1);
      assert TreeLinksAt(nodes, p);
      if x % 2 == 1 {
        n.parent.right := n;
      } else {
        n.parent.left := n;
      }
      n.left, n.right := null, null;
      forall i | 0 <= i < |s|
        ensures TreeLinksAt(s, i)
      {
        if i < |nodes| {
          assert old(TreeLinksAt(nodes, i));
          assert Apart(nodes, i, p);
        }
      }
    }

    /** Gives n the first free coordinates: one to the right of the last node, or down a level. */
    method AttachCoordinates(n: Node<T>)
      requires Coordinates(nodes) && InRepr() && n !in repr && nodes != [] && last == nodes[|nodes| - 1]
      modifies n`x, n`y
      ensures Coordinates(nodes) && Coordinates(nodes + [n]) && n.y > 0
    {
      assert CoordinatesAt(nodes, |nodes| - 1);
      n.y := last.y;
      n.x := last.x + 1;
      if n.x >= Pow2(n.y) {
        n.x := 0;
        n.y := n.y + 1;
      }
      forall i | 0 <= i < |nodes + [n]|
        ensures CoordinatesAt(nodes + [n], i)
      {
        assert i < |nodes| ==> old(CoordinatesAt(nodes, i));
      }
    }

    /** Appends n after the last position of a non-empty queue. */
    method AttachLast(n: Node<T>)
      requires TreeLinks(nodes) && ListLinks(nodes) && Coordinates(nodes) && InRepr() && n !in repr
      requires nodes != [] && root == nodes[0] && last == nodes[|nodes| - 1]
      modifies repr`left, repr`right, repr`next, n`x, n`y, n`left, n`right, n`parent, n`next, n`prev
      ensures TreeLinks(nodes + [n]) && ListLinks(nodes + [n]) && Coordinates(nodes + [n])
    {
      ghost var s := nodes + [n];
      CoordinatesDistinct(nodes);
      AttachCoordinates(n);
      AttachToList(n);
      assert Coordinates(s);
      assert CoordinatesAt(s, |nodes|);
      AttachToTree(n, n.x, n.y);
      assert ListLinks(s);
      assert Coordinates(s);
    }

    /** Puts n into an empty queue. */
    method AttachFirst(n: Node<T>)
      requires nodes == []
      modifies this`root, n`x, n`y, n`left, n`right, n`parent, n`next, n`prev
      ensures TreeLinks([n]) && ListLinks([n]) && Coordinates([n]) && root == n
    {
      hide TreeLinks, ListLinks, Coordinates;
      n.y, n.x := 0, 0;
      root := n;
      n.prev, n.parent := null, null;
      n.next, n.left, n.right := null, null, null;
      LoneInTree(n);
      LoneInList(n);
      LoneAtOrigin(n);
    }

    /** Appends n after the last position, in all three views. */
    method Attach(n: Node<T>)
      requires Linked() && n !in repr
      modifies this`root, this`last, this`nNodes, this`nodes, this`repr
      modifies repr`left, repr`right, repr`next, n`x, n`y, n`left, n`right, n`parent, n`next, n`prev
      ensures Linked() && nodes == old(nodes) + [n] && repr == old(repr) + {n}
      ensures Data(nodes) == old(Data(nodes)) + [n.data]
    {
      hide TreeLinks, ListLinks, Coordinates;
      ghost var s := nodes + [n];
      DataAppended(nodes, n);
      if last != null {
        assert root != null && nNodes > 0;
        AttachLast(n);
      } else {
        assert root == null && nNodes == 0;
        AttachFirst(n);
        assert s == [n];
      }
      last := n;
      nNodes := nNodes + 1;
      nodes, repr := s, repr + {n};
    }

    /** Adds an element; the new node is returned. */
    method Put(data: T) returns (n: Node<T>)
      requires Valid()
      modifies this`root, this`last, this`nNodes, this`nodes, this`repr
      modifies repr`x, repr`y, repr`left, repr`right, repr`parent, repr`next, repr`prev
      ensures Valid() && fresh(n) && n.data == data && repr == old(repr) + {n}
      ensures multiset(nodes) == old(multiset(nodes)) + multiset{n}
    {
      hide TreeLinks, ListLinks, Coordinates, HeapOrder, HeapOrderExcept, TotalPreorder;
      n := new Node(data);
      Attach(n);
      Appended(old(Data(nodes)), compare, data);
      Shuffle(n, |nodes| - 1);
    }

    /** Takes the last position away, in all three views. */
    method DetachLast(n: Node<T>)
      requires Linked() && nodes != [] && n == last
      modifies this`root, this`last, this`nNodes, this`nodes
      modifies repr`left, repr`right, repr`next
      ensures Linked() && nodes == old(nodes)[..|old(nodes)| - 1]
      ensures multiset(nodes) == old(multiset(nodes)) - multiset{n}
      ensures Data(nodes) == old(Data(nodes))[..|old(nodes)| - 1]
    {
      hide TreeLinks, ListLinks, Coordinates, NoDuplicates;
      ghost var k := |nodes| - 1;
      ghost var s := nodes[..k];
      DataAppended(s, n);
      assert nodes == s + [n];
      CoordinatesDistinct(nodes);
      LastLinks(nodes);
      DetachViews(n, s);
      last := n.prev;
      nNodes := nNodes - 1;
      nodes := s;
    }

    method DetachViews(n: Node<T>, ghost s: seq<Node<T>>)
      requires TreeLinks(nodes) && ListLinks(nodes) && Coordinates(nodes) && InRepr() && NoDuplicates(nodes)
      requires nodes != [] && n == nodes[|nodes| - 1] && s == nodes[..|nodes| - 1] && root == nodes[0]
      modifies this`root, repr`left, repr`right, repr`next
      ensures TreeLinks(s) && ListLinks(s) && Coordinates(s) && root == At(s, 0)
    {
      ghost var k := |s|;
      assert TreeLinksAt(nodes, k) && ListLinksAt(nodes, k);
      if n.prev != null {
        n.prev.next := null;
        assert n.parent != null;
      } else {
        assert n.parent == null;
      }
      assert TreeLinks(nodes);
      DetachFromTree(n, s);
      assert ListLinks(s) by {
        forall i | 0 <= i < k
          ensures ListLinksAt(s, i)
        {
          assert old(ListLinksAt(nodes, i));
          assert Apart(nodes, i, k - 1) && Apart(nodes, i, k);
        }
      }
      assert Coordinates(s) by {
        forall i | 0 <= i < k
          ensures CoordinatesAt(s, i)
        {
          assert old(CoordinatesAt(nodes, i));
        }
      }
    }

    method DetachFromTree(n: Node<T>, ghost s: seq<Node<T>>)
      requires TreeLinks(nodes) && InRepr() && NoDuplicates(nodes)
      requires nodes != [] && n == nodes[|nodes| - 1] && s == nodes[..|nodes| - 1] && root == nodes[0]
      modifies this`root, repr`left, repr`right
      ensures TreeLinks(s) && root == At(s, 0)
    {
      ghost var k := |s|;
      ghost var p := (k - 1) / 2;
      assert TreeLinksAt(nodes, k);
      if n.parent != null {
        assert TreeLinksAt(nodes, p);
        assert Apart(nodes, k, 2 * p + 1) && Apart(nodes, k, 2 * p + 2);
        if n.parent.left == n {
          assert n.parent.right == null;
          n.parent.left := null;
        } else {
          assert n.parent.right == n && n.parent.left != null;
          n.parent.right := null;
        }
      } else {
        assert root == n && |nodes| == 1;
        root := null;
      }
      forall i | 0 <= i < k
        ensures TreeLinksAt(s, i)
      {
        assert old(TreeLinksAt(nodes, i));
        assert Apart(nodes, i, p) && Apart(nodes, i, k);
      }
    }

    /** Removes n: the last node takes its place, and is then moved to where its key belongs. */
    method Remove(n: Node<T>, ghost i: int)
      requires Linked() && 0 <= i < |nodes| && nodes[i] == n
      requires n != last ==> Valid()
      modifies this`root, this`last, this`nNodes, this`nodes
      modifies repr`x, repr`y, repr`left, repr`right, repr`parent, repr`next, repr`prev
      ensures Linked() && multiset(nodes) == old(multiset(nodes)) - multiset{n}
      ensures old(n == last) ==> nodes == old(nodes)[..|old(nodes)| - 1]
      ensures old(Valid()) ==> Valid()
      decreases n != last
    {
      hide TreeLinks, ListLinks, Coordinates, HeapOrder, HeapOrderExcept, TotalPreorder, NoDuplicates, Swapped, Data;
      ghost var s, d := nodes, Data(nodes);
      CoordinatesDistinct(nodes);
      if n != last {
        var replacement := last;
        ghost var k := |nodes| - 1;
        ExchangeNodes(replacement, n, k, i);
        ghost var t := nodes;
        SwappedEnds(s, k, i);
        Remove(n, k);
        DataFront(t, k);
        Replaced(d, compare, i);
        Shuffle(replacement, i);
        return;
      }
      DetachLast(n);
      if old(Valid()) {
        PrefixInOrder(d, compare, |nodes|);
      }
    }
  }
}
