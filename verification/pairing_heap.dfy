/**
 PairingHeap.cpp of the FastOverlapRemoval layout: a pairing heap kept as
 the source keeps it, in left-child/next-sibling form. A node's `left` is
 its first child and `next` its next sibling; the root has no sibling.
 The `prev` back pointers are not modelled: every place the source follows
 them is a structural step here.

 Items carry an identity (standing for the node address `insert` returns
 and `decreaseKey` receives) and an integer key; `lessThan` is `<` on keys.
 */
module PairingHeaps {
  import opened Wrappers

  datatype Item = Item(id: nat, key: int)

  datatype Tree = Nil | Node(elem: Item, left: Tree, next: Tree)

  /** `PairingHeap`: the root and `counter`. */
  datatype Heap = Heap(root: Tree, counter: int)

  /** The items of a node, of its children and of its later siblings. */
  function Elements(t: Tree): multiset<Item>
  {
    match t
    case Nil => multiset{}
    case Node(e, l, n) => multiset{e} + Elements(l) + Elements(n)
  }

  /** Every item of `t` (and its siblings) has a key of at least `k`. */
  predicate LowerBound(t: Tree, k: int)
  {
    match t
    case Nil => true
    case Node(e, l, n) => k <= e.key && LowerBound(l, k) && LowerBound(n, k)
  }

  /** Heap order: no item below a node is `lessThan` the node's item. */
  predicate Ordered(t: Tree)
  {
    match t
    case Nil => true
    case Node(e, l, n) => LowerBound(l, e.key) && Ordered(l) && Ordered(n)
  }

  /** A root: a single ordered tree with no sibling. */
  predicate Root(t: Tree)
  {
    t.Node? && t.next == Nil && Ordered(t)
  }

  /** The heap invariant: an ordered root (or none) and a counter equal to the size. */
  predicate Valid(h: Heap)
  {
    (h.root == Nil || Root(h.root)) && h.counter == |Elements(h.root)|
  }

  lemma {:induction false} LowerBoundWeaker(t: Tree, k: int, k': int)
    requires LowerBound(t, k) && k' <= k
    ensures LowerBound(t, k')
  {
    match t
    case Nil =>
    case Node(_, l, n) =>
      LowerBoundWeaker(l, k, k');
      LowerBoundWeaker(n, k, k');
  }

  lemma {:induction false} LowerBoundElements(t: Tree, k: int)
    requires LowerBound(t, k)
    ensures forall x :: x in Elements(t) ==> k <= x.key
  {
    match t
    case Nil =>
    case Node(_, l, n) =>
      LowerBoundElements(l, k);
      LowerBoundElements(n, k);
  }

  /** The empty heap of the constructor. */
  function Empty(): (r: Heap)
    ensures Valid(r) && Elements(r.root) == multiset{}
  {
    Heap(Nil, 0)
  }

  /**
   `compareAndLink(first, second)` for two roots: the one with the smaller
   key stays on top, the other becomes its first child; on equal keys
   `first` stays on top.
   */
  function Link(first: Tree, second: Tree): (r: Tree)
    requires Root(first) && Root(second)
    ensures Root(r)
    ensures Elements(r) == Elements(first) + Elements(second)
    ensures r.elem == (if second.elem.key < first.elem.key then second.elem else first.elem)
  {
    if second.elem.key < first.elem.key then
      LowerBoundWeaker(first.left, first.elem.key, second.elem.key);
      Node(second.elem, Node(first.elem, first.left, second.left), Nil)
    else
      LowerBoundWeaker(second.left, second.elem.key, first.elem.key);
      Node(first.elem, Node(second.elem, second.left, first.left), Nil)
  }

  /** `insert(x)`: a one-node tree linked with the root; the counter grows. */
  function Insert(h: Heap, x: Item): (r: Heap)
    requires Valid(h)
    ensures Valid(r)
    ensures Elements(r.root) == Elements(h.root) + multiset{x}
    ensures r.counter == h.counter + 1
  {
    var n := Node(x, Nil, Nil);
    assert Elements(n) == multiset{x};
    assert |Elements(h.root) + multiset{x}| == |Elements(h.root)| + 1;
    assert Root(n);
    if h.root == Nil then
      assert Valid(Heap(n, h.counter + 1));
      Heap(n, h.counter + 1)
    else
      var t := Link(h.root, n);
      assert Root(t);
      assert |Elements(t)| == h.counter + 1;
      Heap(t, h.counter + 1)
  }

  /** `isEmpty`. */
  function IsEmpty(h: Heap): (r: bool)
    ensures r <==> Elements(h.root) == multiset{}
  {
    h.root == Nil
  }

  /** `isFull`: never. */
  function IsFull(h: Heap): (r: bool)
    ensures !r
  {
    false
  }

  /** `size`: the counter, which a valid heap keeps equal to the number of items. */
  function Size(h: Heap): (r: int)
    ensures Valid(h) ==> r == |Elements(h.root)|
  {
    h.counter
  }

  /** `findMin`: `Underflow` (None) when empty, else an item no item is `lessThan`. */
  function FindMin(h: Heap): (r: Option<Item>)
    requires Valid(h)
    ensures r.None? <==> Elements(h.root) == multiset{}
    ensures r.Some? ==> r.value in Elements(h.root) && forall x :: x in Elements(h.root) ==> r.value.key <= x.key
  {
    if h.root == Nil then None
    else
      LowerBoundElements(h.root.left, h.root.elem.key);
      Some(h.root.elem)
  }

  // ---------------------------------------------------------------------------
  // combineSiblings
  // ---------------------------------------------------------------------------

  /** The sibling chain starting at `t`, each tree cut off from the next. */
  function Chain(t: Tree): (r: seq<Tree>)
    requires Ordered(t)
    ensures AllRoots(r) && Total(r) == Elements(t)
    ensures |r| == 0 <==> t == Nil
  {
    match t
    case Nil => []
    case Node(e, l, n) => [Node(e, l, Nil)] + Chain(n)
  }

  predicate AllRoots(ts: seq<Tree>)
  {
    forall k :: 0 <= k < |ts| ==> Root(ts[k])
  }

  function Total(ts: seq<Tree>): multiset<Item>
  {
    if |ts| == 0 then multiset{} else Elements(ts[0]) + Total(ts[1..])
  }

  /** The first pass: trees linked two by two, left to right; an odd last tree is kept. */
  function PairUp(ts: seq<Tree>): (r: seq<Tree>)
    requires AllRoots(ts)
    ensures |r| == (|ts| + 1) / 2
  {
    if |ts| < 2 then ts else [Link(ts[0], ts[1])] + PairUp(ts[2..])
  }

  /** The first pass keeps every item, and leaves roots. */
  lemma {:induction false} PairUpKeeps(ts: seq<Tree>)
    requires AllRoots(ts)
    ensures AllRoots(PairUp(ts)) && Total(PairUp(ts)) == Total(ts)
  {
    if |ts| >= 2 {
      var t := Link(ts[0], ts[1]);
      var rest := PairUp(ts[2..]);
      PairUpKeeps(ts[2..]);
      assert Total(ts) == Elements(ts[0]) + Elements(ts[1]) + Total(ts[2..]) by {
        assert ts[1..][1..] == ts[2..];
      }
      assert ([t] + rest)[1..] == rest;
    }
  }

  /** The second pass: from the right, each tree linked with the merge of those after it. */
  function MergeRight(ts: seq<Tree>): (r: Tree)
    requires AllRoots(ts) && |ts| >= 1
    ensures Root(r) && Elements(r) == Total(ts)
  {
    if |ts| == 1 then ts[0] else Link(ts[0], MergeRight(ts[1..]))
  }

  /**
   `combineSiblings(firstSibling)`: the two-pass merge of the sibling chain
   into one root holding all its items.
   */
  function CombineSiblings(firstSibling: Tree): (r: Tree)
    requires firstSibling.Node? && Ordered(firstSibling)
    ensures Root(r) && Elements(r) == Elements(firstSibling)
  {
    if firstSibling.next == Nil then firstSibling
    else
      PairUpKeeps(Chain(firstSibling));
      MergeRight(PairUp(Chain(firstSibling)))
  }

  /**
   `deleteMin`: `Underflow` (None) when empty; otherwise the root goes, its
   children are combined into the new root, and the counter drops by one.
   */
  function DeleteMin(h: Heap): (r: Option<Heap>)
    requires Valid(h)
    ensures r.None? <==> Elements(h.root) == multiset{}
    ensures r.Some? ==> Valid(r.value) && r.value.counter == h.counter - 1
    ensures r.Some? ==> Elements(r.value.root) == Elements(h.root) - multiset{FindMin(h).value}
  {
    if h.root == Nil then None
    else
      var l := h.root.left;
      Some(Heap(if l == Nil then Nil else CombineSiblings(l), h.counter - 1))
  }

  /** Deleting the minimum after inserting into an empty heap gives the empty heap back. */
  lemma InsertThenDeleteMin(x: Item)
    ensures DeleteMin(Insert(Empty(), x)) == Some(Empty())
  {
  }

  // ---------------------------------------------------------------------------
  // decreaseKey
  // ---------------------------------------------------------------------------

  /** The first node with identity `id`, in the order node, children, siblings. */
  function Find(t: Tree, id: nat): Option<Item>
  {
    match t
    case Nil => None
    case Node(e, l, n) =>
      if e.id == id then Some(e)
      else if Find(l, id).Some? then Find(l, id)
      else Find(n, id)
  }

  lemma {:induction false} FindIn(t: Tree, id: nat)
    requires Find(t, id).Some?
    ensures Find(t, id).value in Elements(t) && Find(t, id).value.id == id
  {
    match t
    case Nil =>
    case Node(e, l, n) =>
      if e.id != id {
        if Find(l, id).Some? { FindIn(l, id); } else { FindIn(n, id); }
      }
  }

  datatype Cut = Cut(rest: Tree, sub: Tree)

  /**
   Unlinking node `id` from its parent or previous sibling: its place in
   the chain goes to its next sibling, and it leaves with its children.
   */
  function CutOut(t: Tree, id: nat): (r: Cut)
    requires Ordered(t) && Find(t, id).Some?
  {
    match t
    case Node(e, l, n) =>
      if e.id == id then Cut(n, Node(e, l, Nil))
      else if Find(l, id).Some? then
        var c := CutOut(l, id);
        Cut(Node(e, c.rest, n), c.sub)
      else
        var c := CutOut(n, id);
        Cut(Node(e, l, c.rest), c.sub)
  }

  /** The node cut out is the one found, with its children, as a root in heap order. */
  lemma {:induction false} CutOutSub(t: Tree, id: nat)
    requires Ordered(t) && Find(t, id).Some?
    ensures Root(CutOut(t, id).sub) && CutOut(t, id).sub.elem == Find(t, id).value
  {
    if t.elem.id != id {
      if Find(t.left, id).Some? {
        CutOutSub(t.left, id);
      } else {
        CutOutSub(t.next, id);
      }
    }
  }

  /** A bound on every item of the tree still holds on what remains. */
  lemma {:induction false} CutOutBound(t: Tree, id: nat, k: int)
    requires Ordered(t) && Find(t, id).Some? && LowerBound(t, k)
    ensures LowerBound(CutOut(t, id).rest, k)
  {
    if t.elem.id != id {
      if Find(t.left, id).Some? {
        CutOutBound(t.left, id, k);
      } else {
        CutOutBound(t.next, id, k);
      }
    }
  }

  /** What remains is in heap order. */
  lemma {:induction false} CutOutOrdered(t: Tree, id: nat)
    requires Ordered(t) && Find(t, id).Some?
    ensures Ordered(CutOut(t, id).rest)
  {
    if t.elem.id != id {
      if Find(t.left, id).Some? {
        CutOutOrdered(t.left, id);
        CutOutBound(t.left, id, t.elem.key);
      } else {
        CutOutOrdered(t.next, id);
      }
    }
  }

  /** Cutting out loses no item. */
  lemma {:induction false} CutOutElements(t: Tree, id: nat)
    requires Ordered(t) && Find(t, id).Some?
    ensures Elements(CutOut(t, id).rest) + Elements(CutOut(t, id).sub) == Elements(t)
  {
    if t.elem.id != id {
      if Find(t.left, id).Some? {
        CutOutElements(t.left, id);
      } else {
        CutOutElements(t.next, id);
      }
    }
  }

  /**
   `decreaseKey(p, newVal)`: nothing when the stored key is less than the
   new one; otherwise the key changes, and a node other than the root is
   cut out with its children and linked back with the root.
   */
  function DecreaseKey(h: Heap, id: nat, newKey: int): (r: Heap)
    requires Valid(h) && Find(h.root, id).Some?
    ensures Valid(r) && r.counter == h.counter
    ensures Find(h.root, id).value.key < newKey ==> r == h
    ensures !(Find(h.root, id).value.key < newKey) ==>
              Elements(r.root) == Elements(h.root) - multiset{Find(h.root, id).value} + multiset{Item(id, newKey)}
  {
    var p := Find(h.root, id).value;
    if p.key < newKey then h
    else
      FindIn(h.root, id);
      var t := Rekey(h.root, id, newKey);
      assert |Elements(t)| == |Elements(h.root)|;
      Heap(t, h.counter)
  }

  /** The new key in place: at the root, or on a node cut out and linked back. */
  function Rekey(root: Tree, id: nat, newKey: int): (r: Tree)
    requires Root(root) && Find(root, id).Some? && newKey <= Find(root, id).value.key
    ensures Root(r)
    ensures Elements(r) == Elements(root) - multiset{Find(root, id).value} + multiset{Item(id, newKey)}
  {
    if root.elem.id == id then
      LowerBoundWeaker(root.left, root.elem.key, newKey);
      Node(Item(id, newKey), root.left, Nil)
    else RekeyCut(root, id, newKey)
  }

  function RekeyCut(root: Tree, id: nat, newKey: int): (r: Tree)
    requires Root(root) && root.elem.id != id && Find(root, id).Some? && newKey <= Find(root, id).value.key
    ensures Root(r)
    ensures Elements(r) == Elements(root) - multiset{Find(root, id).value} + multiset{Item(id, newKey)}
  {
    var p := Find(root, id).value;
    var c := CutOut(root, id);
    CutOutSub(root, id);
    CutOutOrdered(root, id);
    CutOutElements(root, id);
    LowerBoundWeaker(c.sub.left, p.key, newKey);
    var sub := Node(Item(id, newKey), c.sub.left, Nil);
    assert Elements(sub) == Elements(c.sub) - multiset{p} + multiset{Item(id, newKey)};
    assert c.rest.Node? && c.rest.next == Nil;
    Link(c.rest, sub)
  }

  // ---------------------------------------------------------------------------
  // makeEmpty
  // ---------------------------------------------------------------------------

  /** `makeEmpty` as written: the tree goes, the counter stays. */
  function MakeEmptyAsWritten(h: Heap): (r: Heap)
    ensures IsEmpty(r) && r.counter == h.counter
  {
    Heap(Nil, h.counter)
  }

  /** After one insertion, `makeEmpty` leaves an empty heap whose `size` is still 1. */
  lemma MakeEmptyAsWrittenKeepsSize(x: Item)
    ensures IsEmpty(MakeEmptyAsWritten(Insert(Empty(), x)))
    ensures Size(MakeEmptyAsWritten(Insert(Empty(), x))) == 1
    ensures !Valid(MakeEmptyAsWritten(Insert(Empty(), x)))
  {
  }

  /** `makeEmpty` with the counter reset, so that `size` agrees with `isEmpty`. */
  function MakeEmpty(h: Heap): (r: Heap)
    ensures Valid(r) && IsEmpty(r) && Size(r) == 0
  {
    Heap(Nil, 0)
  }
}
