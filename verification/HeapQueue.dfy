/** The heap algorithms of Python's heapq, which the admission queue calls, on the list's value.
    Sifting moves a hole, as heapq does: the item being placed is written back only at the end. */
module HeapQueue {
  import opened Requests

  function Parent(i: int): int
    requires i > 0
  {
    (i - 1) / 2
  }

  /** Heap order on every edge whose upper end is at lo or later. */
  ghost predicate HeapFrom(h: seq<Entry>, lo: int) {
    forall i :: 0 < i < |h| && Parent(i) >= lo ==> AtMost(h[Parent(i)], h[i])
  }

  ghost predicate IsHeap(h: seq<Entry>) {
    HeapFrom(h, 0)
  }

  /** pos lies in the subtree rooted at root. */
  predicate InSubtree(root: nat, pos: nat) {
    pos == root || (pos > root && InSubtree(root, Parent(pos)))
  }

  /** Heap order from lo, except that the item at pos may be smaller than its parent. */
  ghost predicate HeapExceptAbove(h: seq<Entry>, lo: nat, pos: nat)
    requires pos < |h|
  {
    && (forall i :: 0 < i < |h| && Parent(i) >= lo && i != pos ==> AtMost(h[Parent(i)], h[i]))
    && (pos > lo ==> forall i :: 0 < i < |h| && Parent(i) == pos ==> AtMost(h[Parent(pos)], h[i]))
  }

  lemma SwapKeepsMultiset<T>(s: seq<T>, i: nat, j: nat)
    requires i < |s| && j < |s|
    ensures multiset(s[i := s[j]][j := s[i]]) == multiset(s)
  {
  }

  function Swapped(s: seq<Entry>, i: nat, j: nat): (r: seq<Entry>)
    requires i < |s| && j < |s|
    ensures |r| == |s|
    ensures multiset(r) == multiset(s)
  {
    SwapKeepsMultiset(s, i, j);
    s[i := s[j]][j := s[i]]
  }

  /** Exchanging an item with its larger parent moves the exception one level up. */
  lemma SwapWithParent(g: seq<Entry>, root: nat, pos: nat)
    requires root < pos < |g| && InSubtree(root, pos)
    requires HeapExceptAbove(g, root, pos)
    requires Less(g[pos], g[Parent(pos)])
    ensures HeapExceptAbove(Swapped(g, pos, Parent(pos)), root, Parent(pos))
  {
    var p := Parent(pos);
    var s := Swapped(g, pos, p);
    forall i | 0 < i < |s| && Parent(i) >= root && i != p ensures AtMost(s[Parent(i)], s[i]) {
      assert i != pos ==> AtMost(g[Parent(i)], g[i]);
    }
    if p > root {
      assert InSubtree(root, p) && InSubtree(root, Parent(p));
      assert AtMost(g[Parent(p)], g[p]);
      forall i | 0 < i < |s| && Parent(i) == p ensures AtMost(s[Parent(p)], s[i]) {
        if i != pos {
          assert AtMost(g[p], g[i]);
          AtMostTransitive(g[Parent(p)], g[p], g[i]);
        }
      }
    }
  }

  /** The exception is gone once the item is not smaller than its parent, or at the root. */
  lemma ExceptionResolved(g: seq<Entry>, root: nat, pos: nat)
    requires pos < |g| && HeapExceptAbove(g, root, pos)
    requires pos <= root || !Less(g[pos], g[Parent(pos)])
    ensures HeapFrom(g, root)
  {
  }

  /** heapq._siftdown: carry the item at pos towards root, past larger parents. */
  method SiftDown(h0: seq<Entry>, root: nat, pos0: nat) returns (h: seq<Entry>)
    requires pos0 < |h0| && InSubtree(root, pos0)
    requires HeapExceptAbove(h0, root, pos0)
    ensures HeapFrom(h, root)
    ensures multiset(h) == multiset(h0)
  {
    h := h0;
    var pos := pos0;
    var newItem := h[pos];
    assert h[pos := newItem] == h;
    while pos > root
      invariant |h| == |h0| && 0 <= pos < |h| && InSubtree(root, pos)
      invariant multiset(h[pos := newItem]) == multiset(h0)
      invariant HeapExceptAbove(h[pos := newItem], root, pos)
      decreases pos
    {
      ghost var g := h[pos := newItem];
      var parentPos := Parent(pos);
      var parent := h[parentPos];
      if !Less(newItem, parent) {
        break;
      }
      SwapWithParent(g, root, pos);
      h := h[pos := parent];
      assert h[parentPos := newItem] == Swapped(g, pos, parentPos);
      pos := parentPos;
    }
    h := h[pos := newItem];
    ExceptionResolved(h, root, pos);
  }

  /** Writing the smaller child over its parent keeps every edge from root down. */
  lemma PromoteChild(h: seq<Entry>, root: nat, pos: nat, child: nat)
    requires root <= pos < child < |h| && Parent(child) == pos
    requires HeapFrom(h, if pos == root then root + 1 else root)
    requires forall i :: 0 < i < |h| && Parent(i) == pos ==> AtMost(h[child], h[i])
    requires InSubtree(root, pos)
    ensures HeapFrom(h[pos := h[child]], root)
  {
    var g := h[pos := h[child]];
    forall i | 0 < i < |g| && Parent(i) >= root ensures AtMost(g[Parent(i)], g[i]) {
      if i == pos {
        assert AtMost(h[Parent(pos)], h[pos]);
        AtMostTransitive(h[Parent(pos)], h[pos], h[child]);
      } else if Parent(i) != pos {
        assert AtMost(h[Parent(i)], h[i]);
      }
    }
  }

  /** Filling a leaf hole leaves at most the edge above it broken. */
  lemma FillLeaf(h: seq<Entry>, root: nat, pos: nat, item: Entry)
    requires root <= pos < |h| <= 2 * pos + 1
    requires HeapFrom(h, if pos == root then root + 1 else root)
    ensures HeapExceptAbove(h[pos := item], root, pos)
  {
    var g := h[pos := item];
    forall i | 0 < i < |g| && Parent(i) >= root && i != pos ensures AtMost(g[Parent(i)], g[i]) {
      assert AtMost(h[Parent(i)], h[i]);
    }
  }

  lemma SmallerChild(h: seq<Entry>, pos: nat, child: nat)
    requires child < |h| && (child == 2 * pos + 1 || child == 2 * pos + 2)
    requires child == 2 * pos + 1 && child + 1 < |h| ==> Less(h[child], h[child + 1])
    requires child == 2 * pos + 2 ==> !Less(h[child - 1], h[child])
    ensures Parent(child) == pos
    ensures forall i :: 0 < i < |h| && Parent(i) == pos ==> AtMost(h[child], h[i])
  {
    forall i | 0 < i < |h| && Parent(i) == pos ensures AtMost(h[child], h[i]) {
      assert i == 2 * pos + 1 || i == 2 * pos + 2;
    }
  }

  /** One step of the descent: the hole moves to the smaller child. */
  lemma Descend(h: seq<Entry>, root: nat, pos: nat, child: nat, item: Entry)
    requires root <= pos < child < |h| && InSubtree(root, pos)
    requires child == 2 * pos + 1 || child == 2 * pos + 2
    requires child == 2 * pos + 1 && child + 1 < |h| ==> Less(h[child], h[child + 1])
    requires child == 2 * pos + 2 ==> !Less(h[child - 1], h[child])
    requires HeapFrom(h, if pos == root then root + 1 else root)
    ensures HeapFrom(h[pos := h[child]], root)
    ensures multiset(h[pos := h[child]][child := item]) == multiset(h[pos := item])
    ensures InSubtree(root, child)
  {
    SmallerChild(h, pos, child);
    PromoteChild(h, root, pos, child);
    assert h[pos := h[child]][child := item] == Swapped(h[pos := item], pos, child);
  }

  /** heapq._siftup: move the hole at root down to a leaf along smaller children, then
      place the item there and carry it back up. */
  method SiftUp(h0: seq<Entry>, root: nat) returns (h: seq<Entry>)
    requires root < |h0|
    requires HeapFrom(h0, root + 1)
    ensures HeapFrom(h, root)
    ensures multiset(h) == multiset(h0)
  {
    h := h0;
    var pos := root;
    var newItem := h[pos];
    var childPos := 2 * pos + 1;
    assert h[pos := newItem] == h;
    while childPos < |h|
      invariant |h| == |h0| && root <= pos < |h| && childPos == 2 * pos + 1
      invariant InSubtree(root, pos)
      invariant multiset(h[pos := newItem]) == multiset(h0)
      invariant HeapFrom(h, if pos == root then root + 1 else root)
    {
      var rightPos := childPos + 1;
      if rightPos < |h| && !Less(h[childPos], h[rightPos]) {
        childPos := rightPos;
      }
      Descend(h, root, pos, childPos, newItem);
      h := h[pos := h[childPos]];
      pos := childPos;
      childPos := 2 * pos + 1;
    }
    FillLeaf(h, root, pos, newItem);
    h := h[pos := newItem];
    h := SiftDown(h, root, pos);
  }

  /** heapq.heapify: sift every inner node, last first. */
  method Heapify(h0: seq<Entry>) returns (h: seq<Entry>)
    ensures IsHeap(h)
    ensures multiset(h) == multiset(h0)
  {
    h := h0;
    var i: nat := |h| / 2;
    while i > 0
      invariant |h| == |h0| && multiset(h) == multiset(h0)
      invariant i <= |h| / 2
      invariant HeapFrom(h, i)
    {
      i := i - 1;
      h := SiftUp(h, i);
      assert |multiset(h)| == |multiset(h0)|;
    }
  }

  lemma {:induction false} RootIsSmallest(h: seq<Entry>, i: nat)
    requires IsHeap(h) && i < |h|
    ensures AtMost(h[0], h[i])
  {
    if i > 0 {
      RootIsSmallest(h, Parent(i));
      AtMostTransitive(h[0], h[Parent(i)], h[i]);
    }
  }

  lemma {:induction false} EveryPositionIsBelowTheRoot(i: nat)
    ensures InSubtree(0, i)
  {
    if i > 0 {
      EveryPositionIsBelowTheRoot(Parent(i));
    }
  }

  method HeapPush(h0: seq<Entry>, item: Entry) returns (h: seq<Entry>)
    requires IsHeap(h0)
    ensures IsHeap(h)
    ensures multiset(h) == multiset(h0) + multiset{item}
  {
    h := h0 + [item];
    EveryPositionIsBelowTheRoot(|h0|);
    assert forall i :: 0 < i < |h| ==> Parent(i) != |h0|;
    h := SiftDown(h, 0, |h0|);
  }

  method HeapPop(h0: seq<Entry>) returns (item: Entry, h: seq<Entry>)
    requires IsHeap(h0) && h0 != []
    ensures IsHeap(h)
    ensures multiset(h0) == multiset(h) + multiset{item}
    ensures item == h0[0]
    ensures forall e :: e in h0 ==> AtMost(item, e)
  {
    forall i | 0 <= i < |h0| ensures AtMost(h0[0], h0[i]) {
      RootIsSmallest(h0, i);
    }
    var last := h0[|h0| - 1];
    h := h0[..|h0| - 1];
    assert h0 == h + [last];
    item := last;
    if h != [] {
      item := h[0];
      assert h == [item] + h[1..];
      assert h[0 := last] == [last] + h[1..];
      h := h[0 := last];
      h := SiftUp(h, 0);
    }
  }

  /** The scan, list.pop(i) and heapify of cancel: drop the first entry whose request and
      user both match. */
  method RemoveFirstMatch(h0: seq<Entry>, requestId: string, userName: string)
      returns (found: bool, h: seq<Entry>)
    requires IsHeap(h0)
    ensures IsHeap(h)
    ensures found <==> exists e :: e in h0 && e.Id() == requestId && e.context.userName == userName
    ensures found ==> exists e :: e in h0 && e.Id() == requestId && e.context.userName == userName &&
                                  multiset(h0) == multiset(h) + multiset{e}
    ensures !found ==> h == h0
  {
    var i := 0;
    while i < |h0|
      invariant 0 <= i <= |h0|
      invariant forall j :: 0 <= j < i ==> !(h0[j].Id() == requestId && h0[j].context.userName == userName)
    {
      if h0[i].Id() == requestId && h0[i].context.userName == userName {
        assert h0 == h0[..i] + [h0[i]] + h0[i + 1..];
        h := Heapify(h0[..i] + h0[i + 1..]);
        assert multiset(h0) == multiset(h) + multiset{h0[i]};
        return true, h;
      }
      i := i + 1;
    }
    return false, h0;
  }
}
