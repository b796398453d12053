/** Top of a Phoenix order book: the leftmost node of a search tree laid out in account bytes. */
module PhoenixBook {
  import opened Machine
  import opened InstructionData

  const NODE_SIZE: nat := 64
  const NODES_OFFSET: nat := 32
  const MAX_DEPTH: nat := 1000

  /** What the walk reports: the best price if any, and the base atoms offered there. */
  datatype Best = Best(price: Option<u64>, depth: u64)

  const Nothing: Best := Best(None, 0)

  function ReadU32(data: seq<byte>, at: nat): nat
    requires at + 4 <= |data|
  {
    FromLittleEndian(data[at..at + 4])
  }

  lemma {:induction false} FromLittleEndianBound(s: seq<byte>)
    ensures 0 <= FromLittleEndian(s) < Power256(|s|)
    ensures |s| == 8 ==> Power256(|s|) == U64_MAX + 1
  {
    if s == [] {
    } else {
      FromLittleEndianBound(s[1..]);
    }
    if |s| == 8 { assert Power256(4) == 0x1_0000_0000; }
  }

  function ReadU64(data: seq<byte>, at: nat): (n: u64)
    requires at + 8 <= |data|
  {
    FromLittleEndianBound(data[at..at + 8]);
    FromLittleEndian(data[at..at + 8])
  }

  function SaturatingMul(a: u64, b: u64): u64 {
    if a * b > U64_MAX then U64_MAX else
    assert a * b >= 0 by { MulMono(0, a, b); }
    a * b
  }

  /** Byte offset of a node; indices start at 1 and 0 means no node. */
  function NodeOffset(treeStart: nat, index: nat): nat
    requires index > 0
  {
    treeStart + NODES_OFFSET + (index - 1) * NODE_SIZE
  }

  /** The walk from node `current` with at most `steps` nodes to visit, on any bytes whatever. */
  function Leftward(data: seq<byte>, treeStart: nat, current: nat, steps: nat, baseLotSize: u64): Best
    decreases steps
  {
    if steps == 0 || current == 0 then Nothing else
    var off := NodeOffset(treeStart, current);
    if off + NODE_SIZE > |data| then Nothing else
    var left := ReadU32(data, off);
    if left == 0 then Best(Some(ReadU64(data, off + 16)), SaturatingMul(ReadU64(data, off + 40), baseLotSize))
    else Leftward(data, treeStart, left, steps - 1, baseLotSize)
  }

  function TreeBest(data: seq<byte>, treeStart: nat, baseLotSize: u64): Best {
    if |data| < treeStart + NODES_OFFSET then Nothing
    else Leftward(data, treeStart, ReadU32(data, treeStart), MAX_DEPTH, baseLotSize)
  }

  method PhoenixTreeBest(data: seq<byte>, treeStart: nat, baseLotSize: u64) returns (best: Best)
    ensures best == TreeBest(data, treeStart, baseLotSize)
  {
    if |data| < treeStart + NODES_OFFSET { return Nothing; }
    var root := ReadU32(data, treeStart);
    if root == 0 { return Nothing; }
    var current := root;
    for i := 0 to MAX_DEPTH
      invariant TreeBest(data, treeStart, baseLotSize) == Leftward(data, treeStart, current, MAX_DEPTH - i, baseLotSize)
    {
      if current == 0 { return Nothing; }
      var off := NodeOffset(treeStart, current);
      if off + NODE_SIZE > |data| { return Nothing; }
      var left := ReadU32(data, off);
      if left == 0 {
        return Best(Some(ReadU64(data, off + 16)), SaturatingMul(ReadU64(data, off + 40), baseLotSize));
      }
      current := left;
    }
    return Nothing;
  }

  // ---- On bytes that encode a search tree ----

  /** Nodes are 64 bytes each, the first 32 bytes into the tree and numbered 1. */
  function NodeAt(treeStart: nat, index: nat): nat
    requires index > 0
  {
    treeStart + 32 + 64 * (index - 1)
  }

  datatype Order = Order(price: u64, sequence: u64, lots: u64)

  /** The depth of an order in base atoms, or the largest 64-bit number if it does not fit. */
  function Depth(order: Order, baseLotSize: u64): nat {
    if order.lots * baseLotSize <= 0xFFFF_FFFF_FFFF_FFFF then order.lots * baseLotSize else 0xFFFF_FFFF_FFFF_FFFF
  }

  datatype Tree = Leaf | Node(left: Tree, order: Order, right: Tree)

  /** The node index stored at this offset. */
  function Child(data: seq<byte>, at: nat): nat
    requires at + 4 <= |data|
  {
    FromLittleEndian(data[at..at + 4])
  }

  /** The node at this offset holds the order, its price, sequence number and lots little-endian at 16, 24 and 40. */
  predicate IsStored(data: seq<byte>, off: nat, o: Order)
    requires off + 64 <= |data|
  {
    && o.price == FromLittleEndian(data[off + 16..off + 24])
    && o.sequence == FromLittleEndian(data[off + 24..off + 32])
    && o.lots == FromLittleEndian(data[off + 40..off + 48])
  }

  /** The bytes hold the tree at this index. */
  ghost predicate Encodes(data: seq<byte>, treeStart: nat, index: nat, t: Tree)
    decreases t
  {
    match t
    case Leaf => index == 0
    case Node(l, o, r) =>
      && index > 0
      && var off := NodeAt(treeStart, index);
      && off + 64 <= |data|
      && IsStored(data, off, o)
      && Encodes(data, treeStart, Child(data, off), l)
      && Encodes(data, treeStart, Child(data, off + 4), r)
  }

  function Orders(t: Tree): seq<Order> {
    match t
    case Leaf => []
    case Node(l, o, r) => Orders(l) + [o] + Orders(r)
  }

  /** Nodes on the way from the root to the leftmost node. */
  function LeftSpine(t: Tree): nat {
    if t.Leaf? then 0 else 1 + LeftSpine(t.left)
  }

  /** A search tree under the book's own order, which differs between bids and asks. */
  ghost predicate IsSearchTree(t: Tree, before: (Order, Order) -> bool) {
    t.Node? ==>
      && IsSearchTree(t.left, before) && IsSearchTree(t.right, before)
      && (forall o :: o in Orders(t.left) ==> before(o, t.order))
      && (forall o :: o in Orders(t.right) ==> before(t.order, o))
  }

  ghost predicate Transitive(before: (Order, Order) -> bool) {
    forall a, b, c :: before(a, b) && before(b, c) ==> before(a, c)
  }

  function Leftmost(t: Tree): Order
    requires t.Node?
  {
    if t.left.Leaf? then t.order else Leftmost(t.left)
  }

  /** The leftmost node comes first in the tree's order, before every other node. */
  lemma {:induction false} LeftmostIsFirst(t: Tree, before: (Order, Order) -> bool)
    requires t.Node? && IsSearchTree(t, before) && Transitive(before)
    ensures Leftmost(t) == Orders(t)[0]
    ensures forall o :: o in Orders(t)[1..] ==> before(Leftmost(t), o)
  {
    if t.left.Leaf? {
      assert Orders(t) == [t.order] + Orders(t.right);
    } else {
      LeftmostIsFirst(t.left, before);
      assert Orders(t)[1..] == Orders(t.left)[1..] + [t.order] + Orders(t.right);
      assert before(Leftmost(t), t.order) by { assert Leftmost(t) in Orders(t.left); }
    }
  }

  /** The walk finds the leftmost node exactly when it lies within the given number of steps. */
  lemma {:induction false} LeftwardFinds(data: seq<byte>, treeStart: nat, index: nat, t: Tree, steps: nat, baseLotSize: u64)
    requires Encodes(data, treeStart, index, t)
    ensures Leftward(data, treeStart, index, steps, baseLotSize) ==
            if t.Node? && LeftSpine(t) <= steps
            then Best(Some(Leftmost(t).price), Depth(Leftmost(t), baseLotSize)) else Nothing
    decreases t
  {
    if t.Leaf? || steps == 0 {
    } else {
      LeftwardFinds(data, treeStart, Child(data, NodeAt(treeStart, index)), t.left, steps - 1, baseLotSize);
    }
  }

  /** On an account that encodes a search tree, the best order reported is the first of all orders in the book, with
      its whole depth; nothing is reported exactly for an empty tree or a left spine over 1000. */
  lemma TreeBestIsFirst(data: seq<byte>, treeStart: nat, baseLotSize: u64, t: Tree, before: (Order, Order) -> bool)
    requires |data| >= treeStart + NODES_OFFSET && Encodes(data, treeStart, Child(data, treeStart), t)
    requires IsSearchTree(t, before) && Transitive(before)
    ensures TreeBest(data, treeStart, baseLotSize).price.Some? <==> Orders(t) != [] && LeftSpine(t) <= MAX_DEPTH
    ensures TreeBest(data, treeStart, baseLotSize).price.Some? ==>
              && TreeBest(data, treeStart, baseLotSize)
                   == Best(Some(Orders(t)[0].price), Depth(Orders(t)[0], baseLotSize))
              && forall o :: o in Orders(t)[1..] ==> before(Orders(t)[0], o)
  {
    LeftwardFinds(data, treeStart, Child(data, treeStart), t, MAX_DEPTH, baseLotSize);
    if t.Node? { LeftmostIsFirst(t, before); }
  }

  // ---- On a red-black tree the step bound is never reached ----

  function Size(t: Tree): nat {
    if t.Leaf? then 0 else Size(t.left) + 1 + Size(t.right)
  }

  function PowerOfTwo(k: nat): nat {
    if k == 0 then 1 else 2 * PowerOfTwo(k - 1)
  }

  /** The nodes can be coloured with `black` black ones on every way down, no red one above a red one, and the root red
      or black as asked. */
  predicate IsRedBlack(t: Tree, black: nat, red: bool)
    decreases t
  {
    match t
    case Leaf => black == 0 && !red
    case Node(l, _, r) =>
      if red then IsRedBlack(l, black, false) && IsRedBlack(r, black, false)
      else
        && black > 0
        && (IsRedBlack(l, black - 1, true) || IsRedBlack(l, black - 1, false))
        && (IsRedBlack(r, black - 1, true) || IsRedBlack(r, black - 1, false))
  }

  lemma {:induction false} RedBlackBounds(t: Tree, black: nat, red: bool)
    requires IsRedBlack(t, black, red)
    ensures LeftSpine(t) <= 2 * black + 1
    ensures !red ==> LeftSpine(t) <= 2 * black
    ensures PowerOfTwo(black) <= Size(t) + 1
    decreases t
  {
    if t.Leaf? {
    } else if red {
      RedBlackBounds(t.left, black, false);
      RedBlackBounds(t.right, black, false);
    } else {
      RedBlackBounds(t.left, black - 1, IsRedBlack(t.left, black - 1, true));
      RedBlackBounds(t.right, black - 1, IsRedBlack(t.right, black - 1, true));
    }
  }

  const MAX_NODES: nat := 0xFFFF_FFFF

  lemma {:induction false} PowerOfTwoGrows(j: nat, k: nat)
    requires j <= k
    ensures PowerOfTwo(j) <= PowerOfTwo(k)
  {
    if j == k {
    } else {
      PowerOfTwoGrows(j, k - 1);
    }
  }

  lemma {:induction false} SetOfSmall(s: set<nat>, n: nat)
    requires forall i :: i in s ==> 1 <= i <= n
    ensures |s| <= n
  {
    if n == 0 {
      assert s == {};
    } else {
      SetOfSmall(s - {n}, n - 1);
    }
  }

  /** The node indices a tree is encoded at. */
  ghost function Indices(data: seq<byte>, treeStart: nat, index: nat, t: Tree): set<nat>
    requires Encodes(data, treeStart, index, t)
    decreases t
  {
    match t
    case Leaf => {}
    case Node(l, _, r) =>
      var off := NodeAt(treeStart, index);
      {index} + Indices(data, treeStart, Child(data, off), l) + Indices(data, treeStart, Child(data, off + 4), r)
  }

  /** The order stored at a node. */
  function OrderAt(data: seq<byte>, treeStart: nat, index: nat): Order
    requires index > 0 && NodeAt(treeStart, index) + 64 <= |data|
  {
    var off := NodeAt(treeStart, index);
    Order(ReadU64(data, off + 16), ReadU64(data, off + 24), ReadU64(data, off + 40))
  }

  lemma StoredIsOrderAt(data: seq<byte>, treeStart: nat, index: nat, t: Tree)
    requires Encodes(data, treeStart, index, t) && t.Node?
    ensures t.order == OrderAt(data, treeStart, index)
  {
    hide FromLittleEndian;
  }

  lemma {:induction false} IndicesHoldOrders(data: seq<byte>, treeStart: nat, index: nat, t: Tree, i: nat)
    requires Encodes(data, treeStart, index, t) && i in Indices(data, treeStart, index, t)
    ensures i > 0 && NodeAt(treeStart, i) + 64 <= |data| && OrderAt(data, treeStart, i) in Orders(t)
    decreases t
  {
    hide ReadU64, FromLittleEndian;
    var off := NodeAt(treeStart, index);
    if i == index {
      StoredIsOrderAt(data, treeStart, index, t);
    } else if i in Indices(data, treeStart, Child(data, off), t.left) {
      IndicesHoldOrders(data, treeStart, Child(data, off), t.left, i);
    } else {
      IndicesHoldOrders(data, treeStart, Child(data, off + 4), t.right, i);
    }
  }

  ghost predicate Irreflexive(before: (Order, Order) -> bool) {
    forall a :: !before(a, a)
  }

  lemma SubtreesApart(data: seq<byte>, treeStart: nat, index: nat, t: Tree, before: (Order, Order) -> bool)
    requires Encodes(data, treeStart, index, t) && t.Node?
    requires IsSearchTree(t, before) && Transitive(before) && Irreflexive(before)
    ensures var off := NodeAt(treeStart, index);
            var left := Indices(data, treeStart, Child(data, off), t.left);
            var right := Indices(data, treeStart, Child(data, off + 4), t.right);
            index !in left && index !in right && left !! right
  {
    hide Child, ReadU64, Indices;
    var off := NodeAt(treeStart, index);
    var l, r := Child(data, off), Child(data, off + 4);
    var left, right := Indices(data, treeStart, l, t.left), Indices(data, treeStart, r, t.right);
    StoredIsOrderAt(data, treeStart, index, t);
    forall i | i in left ensures i != index && i !in right {
      IndicesHoldOrders(data, treeStart, l, t.left, i);
      assert before(OrderAt(data, treeStart, i), t.order);
      if i in right {
        IndicesHoldOrders(data, treeStart, r, t.right, i);
      }
    }
    forall i | i in right ensures i != index {
      IndicesHoldOrders(data, treeStart, r, t.right, i);
      assert before(t.order, OrderAt(data, treeStart, i));
    }
  }

  lemma DisjointUnionSize(x: nat, left: set<nat>, right: set<nat>)
    requires x !in left && x !in right && left !! right
    ensures |{x} + left + right| == |left| + 1 + |right|
  {
    assert |{x} + left| == 1 + |left|;
  }

  /** A search tree visits no node twice, so its size is the number of its indices. */
  lemma {:induction false} IndicesCountNodes(data: seq<byte>, treeStart: nat, index: nat, t: Tree, before: (Order, Order) -> bool)
    requires Encodes(data, treeStart, index, t)
    requires IsSearchTree(t, before) && Transitive(before) && Irreflexive(before)
    ensures |Indices(data, treeStart, index, t)| == Size(t)
    decreases t
  {
    hide Child, ReadU64, Transitive, Irreflexive;
    if t.Leaf? {
    } else {
      var off := NodeAt(treeStart, index);
      var l, r := Child(data, off), Child(data, off + 4);
      IndicesCountNodes(data, treeStart, l, t.left, before);
      IndicesCountNodes(data, treeStart, r, t.right, before);
      SubtreesApart(data, treeStart, index, t, before);
      DisjointUnionSize(index, Indices(data, treeStart, l, t.left), Indices(data, treeStart, r, t.right));
    }
  }

  lemma IndexFits(data: seq<byte>, at: nat)
    requires at + 4 <= |data|
    ensures Child(data, at) <= MAX_NODES
  {
    FromLittleEndianBound(data[at..at + 4]);
    assert Power256(4) == 0x1_0000_0000;
  }

  lemma {:induction false} IndicesFit(data: seq<byte>, treeStart: nat, index: nat, t: Tree, i: nat)
    requires Encodes(data, treeStart, index, t) && index <= MAX_NODES && i in Indices(data, treeStart, index, t)
    ensures 1 <= i <= MAX_NODES
    decreases t
  {
    hide Child, ReadU64;
    var off := NodeAt(treeStart, index);
    IndexFits(data, off);
    IndexFits(data, off + 4);
    if i == index {
    } else if i in Indices(data, treeStart, Child(data, off), t.left) {
      IndicesFit(data, treeStart, Child(data, off), t.left, i);
    } else {
      IndicesFit(data, treeStart, Child(data, off + 4), t.right, i);
    }
  }

  lemma TwoToThe33()
    ensures PowerOfTwo(33) == 0x2_0000_0000
  {
    assert PowerOfTwo(11) == 0x800;
    assert PowerOfTwo(22) == 0x40_0000;
  }

  /** On an account that holds a red-black search tree under a strict order, the left spine is at most 65 nodes, so the
      walk always answers: with nothing exactly for an empty book, otherwise with the first order and its whole depth. */
  lemma RedBlackBookAnswers(data: seq<byte>, treeStart: nat, baseLotSize: u64, t: Tree, before: (Order, Order) -> bool,
                            black: nat, red: bool)
    requires |data| >= treeStart + NODES_OFFSET && Encodes(data, treeStart, Child(data, treeStart), t)
    requires IsSearchTree(t, before) && Transitive(before) && Irreflexive(before) && IsRedBlack(t, black, red)
    ensures LeftSpine(t) <= 65
    ensures TreeBest(data, treeStart, baseLotSize) ==
            if Orders(t) == [] then Nothing
            else Best(Some(Orders(t)[0].price), Depth(Orders(t)[0], baseLotSize))
  {
    hide ReadU64, SaturatingMul, FromLittleEndian;
    var root := Child(data, treeStart);
    IndexFits(data, treeStart);
    IndicesCountNodes(data, treeStart, root, t, before);
    forall i | i in Indices(data, treeStart, root, t) ensures 1 <= i <= MAX_NODES {
      IndicesFit(data, treeStart, root, t, i);
    }
    SetOfSmall(Indices(data, treeStart, root, t), MAX_NODES);
    RedBlackBounds(t, black, red);
    if black > 32 {
      PowerOfTwoGrows(33, black);
      TwoToThe33();
      assert false;
    }
    TreeBestIsFirst(data, treeStart, baseLotSize, t, before);
    LeftwardFinds(data, treeStart, root, t, MAX_DEPTH, baseLotSize);
  }
}
