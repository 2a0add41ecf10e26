/** libuv's binary min-heap: a complete binary tree of linked nodes. */
module Heap {

  class Node<K> {
    const key: K
    var left: Node?<K>
    var right: Node?<K>
    var parent: Node?<K>
    ghost var pos: nat  // position in level order, while in a heap

    constructor (key: K)
      ensures this.key == key
    {
      this.key := key;
      left, right, parent := null, null, null;
      pos := 0;
    }
  }

  // ---------- The comparison ----------

  ghost predicate StrictWeakOrder<K(!new)>(lt: (K, K) -> bool) {
    && (forall a :: !lt(a, a))
    && (forall a, b, c :: lt(a, b) && lt(b, c) ==> lt(a, c))
    && (forall a, b, c :: !lt(a, b) && !lt(b, c) ==> !lt(a, c))
  }

  // ---------- Heap order on the keys in level order; positions start at 1 ----------

  /** The key at position `j` is not less than its parent's. */
  ghost predicate Fits<K>(lt: (K, K) -> bool, keys: seq<K>, j: nat)
    requires 2 <= j <= |keys|
  {
    !lt(keys[j - 1], keys[j / 2 - 1])
  }

  ghost predicate HeapOrdered<K>(lt: (K, K) -> bool, keys: seq<K>) {
    forall j :: 2 <= j <= |keys| ==> Fits(lt, keys, j)
  }

  /** The children of position `i` fit below the parent of `i`. */
  ghost predicate ChildrenFitAbove<K>(lt: (K, K) -> bool, keys: seq<K>, i: nat) {
    2 <= i ==> forall j :: 2 <= j <= |keys| && j / 2 == i ==> !lt(keys[j - 1], keys[i / 2 - 1])
  }

  /** Only the key at `i` may be less than its parent. */
  ghost predicate OrderedExceptAt<K>(lt: (K, K) -> bool, keys: seq<K>, i: nat) {
    && 1 <= i <= |keys|
    && (forall j :: 2 <= j <= |keys| && j != i ==> Fits(lt, keys, j))
    && ChildrenFitAbove(lt, keys, i)
  }

  /** The key at `i` may be out of order with its parent and with its children. */
  ghost predicate OrderedAround<K>(lt: (K, K) -> bool, keys: seq<K>, i: nat) {
    && 1 <= i <= |keys|
    && (forall j :: 2 <= j <= |keys| && j != i && j / 2 != i ==> Fits(lt, keys, j))
    && ChildrenFitAbove(lt, keys, i)
  }

  function Swapped<T>(s: seq<T>, i: nat): (r: seq<T>)
    requires 2 <= i <= |s|
    ensures |r| == |s|
  {
    s[i - 1 := s[i / 2 - 1]][i / 2 - 1 := s[i - 1]]
  }

  lemma SwapUpOrder<K(!new)>(lt: (K, K) -> bool, keys: seq<K>, i: nat)
    requires StrictWeakOrder(lt) && 2 <= i && OrderedExceptAt(lt, keys, i)
    requires lt(keys[i - 1], keys[i / 2 - 1])
    ensures OrderedExceptAt(lt, Swapped(keys, i), i / 2)
  {
    var ks, p := Swapped(keys, i), i / 2;
    forall j | 2 <= j <= |ks| && j != p
      ensures Fits(lt, ks, j)
    {
      if j / 2 == i {
        assert !lt(keys[j - 1], keys[p - 1]);
      } else if j / 2 == p && j != i {
        assert Fits(lt, keys, j);
      } else if j != i {
        assert Fits(lt, keys, j);
      }
    }
    if 2 <= p {
      assert Fits(lt, keys, p);
      forall j | 2 <= j <= |ks| && j / 2 == p
        ensures !lt(ks[j - 1], ks[p / 2 - 1])
      {
        if j != i { assert Fits(lt, keys, j); }
      }
    }
  }

  lemma SwapDownOrder<K(!new)>(lt: (K, K) -> bool, keys: seq<K>, i: nat, s: nat)
    requires StrictWeakOrder(lt) && OrderedAround(lt, keys, i)
    requires 2 <= s <= |keys| && s / 2 == i && lt(keys[s - 1], keys[i - 1])
    requires forall j :: 2 <= j <= |keys| && j / 2 == i ==> !lt(keys[j - 1], keys[s - 1])
    ensures OrderedAround(lt, Swapped(keys, s), s)
  {
    var ks := Swapped(keys, s);
    forall j | 2 <= j <= |ks| && j != s && j / 2 != s
      ensures Fits(lt, ks, j)
    {
      if j / 2 != i && j != i { assert Fits(lt, keys, j); }
    }
    forall j | 2 <= j <= |ks| && j / 2 == s
      ensures !lt(ks[j - 1], ks[i - 1])
    {
      assert Fits(lt, keys, j);
    }
  }

  /** The root of an ordered heap is least. */
  lemma {:induction false} RootIsLeast<K(!new)>(lt: (K, K) -> bool, keys: seq<K>, j: nat)
    requires StrictWeakOrder(lt) && HeapOrdered(lt, keys) && 1 <= j <= |keys|
    ensures !lt(keys[j - 1], keys[0])
    decreases j
  {
    if 2 <= j {
      assert Fits(lt, keys, j);
      RootIsLeast(lt, keys, j / 2);
    }
  }

  // ---------- The path to a position ----------

  /** Follows `k` bits of `path`, low bit first, from position `i`: 1 goes right. */
  function Walk(i: nat, path: nat, k: nat): nat
    decreases k
  {
    if k == 0 then i else Walk(2 * i + path % 2, path / 2, k - 1)
  }

  lemma {:induction false} WalkGrows(i: nat, path: nat, k: nat)
    requires i >= 1
    ensures Walk(i, path, k) >= i + k
    decreases k
  {
    if k > 0 { WalkGrows(2 * i + path % 2, path / 2, k - 1); }
  }

  /** Undoing one step: from n / 2, going by the low bit of n first. */
  lemma WalkBack(n: nat, path: nat, k: nat)
    ensures Walk(n / 2, path * 2 + n % 2, k + 1) == Walk(n, path, k)
  {
    assert (path * 2 + n % 2) / 2 == path && (path * 2 + n % 2) % 2 == n % 2;
    assert 2 * (n / 2) + n % 2 == n;
  }

  /** The bits of `target` below its leading one, turned around, lead from the root to `target`. */
  method PathTo(target: nat) returns (path: nat, k: nat)
    requires target >= 1
    ensures Walk(1, path, k) == target
  {
    path, k := 0, 0;
    var n := target;
    while n >= 2
      invariant n >= 1 && Walk(n, path, k) == target
    {
      WalkBack(n, path, k);
      path, k, n := path * 2 + n % 2, k + 1, n / 2;
    }
  }

  // ---------- The linked tree ----------

  ghost function At<K>(nodes: seq<Node<K>>, i: nat): Node?<K> {
    if 1 <= i <= |nodes| then nodes[i - 1] else null
  }

  /** The links of the node at position `i` are those of a complete binary tree. */
  ghost predicate Linked<K>(nodes: seq<Node<K>>, i: nat)
    requires 1 <= i <= |nodes|
    reads nodes
  {
    && At(nodes, i).left == At(nodes, 2 * i)
    && At(nodes, i).right == At(nodes, 2 * i + 1)
    && At(nodes, i).parent == At(nodes, i / 2)
  }

  /** `pos` makes the nodes distinct. */
  ghost predicate Tree<K>(nodes: seq<Node<K>>)
    reads nodes
  {
    && (forall i :: 1 <= i <= |nodes| ==> At(nodes, i).pos == i)
    && (forall i :: 1 <= i <= |nodes| ==> Linked(nodes, i))
  }

  lemma AtSwapped<K>(nodes: seq<Node<K>>, i: nat, j: nat)
    requires 2 <= i <= |nodes|
    ensures At(Swapped(nodes, i), j) == if j == i then At(nodes, i / 2) else if j == i / 2 then At(nodes, i)
      else At(nodes, j)
  {
  }

  lemma AtShortened<K>(ns: seq<Node<K>>, j: nat)
    requires 1 <= j < |ns|
    ensures var ms, t := ns[..|ns| - 1], |ns|;
      && At(ms, j) == At(ns, j) && At(ms, j / 2) == At(ns, j / 2)
      && At(ms, 2 * j) == (if j == t / 2 && t % 2 == 0 then null else At(ns, 2 * j))
      && At(ms, 2 * j + 1) == (if j == t / 2 && t % 2 == 1 then null else At(ns, 2 * j + 1))
  {
  }

  lemma ReplacedNeighbours<K>(ns: seq<Node<K>>, r: nat, n: Node<K>, j: nat)
    requires 1 <= r <= |ns| && 1 <= j <= |ns|
    ensures var ms := ns[r - 1 := n];
      && At(ms, j) == (if j == r then n else At(ns, j))
      && At(ms, j / 2) == (if j == 2 * r || j == 2 * r + 1 then n else At(ns, j / 2))
      && At(ms, 2 * j) == (if j == r / 2 && r % 2 == 0 then n else At(ns, 2 * j))
      && At(ms, 2 * j + 1) == (if j == r / 2 && r % 2 == 1 then n else At(ns, 2 * j + 1))
  {
  }

  lemma AtAppended<K>(ns: seq<Node<K>>, n: Node<K>, j: nat)
    requires 1 <= j <= |ns|
    ensures var ms, t := ns + [n], |ns| + 1;
      && At(ms, j) == At(ns, j) && At(ms, j / 2) == At(ns, j / 2)
      && At(ms, 2 * j) == (if j == t / 2 && t % 2 == 0 then n else At(ns, 2 * j))
      && At(ms, 2 * j + 1) == (if j == t / 2 && t % 2 == 1 then n else At(ns, 2 * j + 1))
  {
  }

  lemma SwappedNeighbours<K>(ns: seq<Node<K>>, i: nat, j: nat)
    requires 2 <= i <= |ns| && 1 <= j <= |ns|
    ensures var ms, g := Swapped(ns, i), i / 2;
      && At(ms, j / 2) == (if j == Beside(i) || j == i then At(ns, i)
        else if j == 2 * i || j == 2 * i + 1 then At(ns, g) else At(ns, j / 2))
      && At(ms, 2 * j) == (if j == g / 2 && g % 2 == 0 then At(ns, i) else if j == g && i % 2 == 0 then At(ns, g)
        else At(ns, 2 * j))
      && At(ms, 2 * j + 1) ==
        (if j == g / 2 && g % 2 == 1 then At(ns, i) else if j == g && i % 2 == 1 then At(ns, g) else At(ns, 2 * j + 1))
  {
  }

  /** The position of the other child of the same parent. */
  function Beside(i: nat): nat
    requires i >= 2
  {
    if i % 2 == 0 then i + 1 else i - 1
  }

  /** The links around position `i` and its parent, and which of the nodes there are distinct. */
  lemma Neighbours<K>(ns: seq<Node<K>>, i: nat)
    requires Tree(ns) && 2 <= i <= |ns|
    ensures var g := i / 2;
      var c, p, l, r, gp, s := At(ns, i), At(ns, g), At(ns, 2 * i), At(ns, 2 * i + 1), At(ns, g / 2),
                               At(ns, Beside(i));
      && c.left == l && c.right == r && c.parent == p && p.parent == gp && (gp == null <==> g == 1)
      && p.left == (if i % 2 == 0 then c else s) && p.right == (if i % 2 == 0 then s else c)
      && p != c && c != s && p != s
      && (l != null ==> l != p && l != c && l != s && l != r && l != gp)
      && (r != null ==> r != p && r != c && r != s && r != gp)
      && (gp != null ==>
        gp != p && gp != c && gp != s && (if g % 2 == 0 then gp.left == p else gp.right == p && gp.left != p))
  {
    assert Linked(ns, i) && Linked(ns, i / 2) && (i / 2 >= 2 ==> Linked(ns, i / 2 / 2));
  }

  lemma Surroundings<K>(ns: seq<Node<K>>, r: nat)
    requires Tree(ns) && 1 <= r <= |ns|
    ensures var n, l, h, up := At(ns, r), At(ns, 2 * r), At(ns, 2 * r + 1), At(ns, r / 2);
      && n.left == l && n.right == h && n.parent == up && (up == null <==> r == 1)
      && (l != null ==> l in ns && l != n && l != h && l != up)
      && (h != null ==> h in ns && h != n && h != up)
      && (up != null ==> up in ns && up != n && (if r % 2 == 0 then up.left == n else up.right == n && up.left != n))
  {
    assert Linked(ns, r) && (r >= 2 ==> Linked(ns, r / 2));
  }

  ghost function Keys<K>(nodes: seq<Node<K>>): (r: seq<K>)
    ensures |r| == |nodes|
    ensures forall i :: 0 <= i < |nodes| ==> r[i] == nodes[i].key
  {
    seq(|nodes|, i requires 0 <= i < |nodes| => nodes[i].key)
  }

  ghost function Members<T>(s: seq<T>): set<T> {
    set x | x in s
  }

  /** A `struct heap_node**`: where a node pointer is stored. */
  datatype Slot<K> = RootSlot | LeftOf(n: Node<K>) | RightOf(n: Node<K>)

  class Heap<K(!new)> {
    var min: Node?<K>
    var nelts: nat
    ghost var nodes: seq<Node<K>>  // the tree in level order

    constructor ()
      ensures Shape() && nodes == []
    {
      min, nelts, nodes := null, 0, [];
    }

    /** Complete binary tree, consistent links, right count. */
    ghost predicate Shape()
      reads this, nodes
    {
      nelts == |nodes| && min == At(nodes, 1) && Tree(nodes)
    }

    ghost predicate Valid(lt: (K, K) -> bool)
      reads this, nodes
    {
      Shape() && HeapOrdered(lt, Keys(nodes))
    }

    method HeapMin(lt: (K, K) -> bool) returns (m: Node?<K>)
      requires StrictWeakOrder(lt) && Valid(lt)
      ensures m == min && (m == null <==> nodes == [])
      ensures m != null ==> m in nodes && forall n :: n in nodes ==> !lt(n.key, m.key)
    {
      m := min;
      forall n | n in nodes
        ensures min != null && !lt(n.key, min.key)
      {
        var j :| 0 <= j < |nodes| && nodes[j] == n;
        RootIsLeast(lt, Keys(nodes), j + 1);
      }
    }

    /** First half of heap_node_swap: `p` and `child` exchange their links and point at each other.
        The ghosts name the neighbours: `sib` is beside `child`, `cl` says whether `child` is left. */
    static method ExchangeLinks(p: Node<K>, child: Node<K>, ghost sib: Node?<K>, ghost cl: bool)
      requires p.left == (if cl then child else sib) && p.right == (if cl then sib else child)
      requires p != child && child != sib && p != sib
      requires child.left != child && child.right != child && child.left != p && child.right != p
      modifies p, child, sib
      ensures p.left == old(child.left) && p.right == old(child.right) && p.parent == child
      ensures child.parent == old(p.parent) && child.left == (if cl then p else sib)
        && child.right == (if cl then sib else p)
      ensures sib != null ==> sib.parent == child && sib.left == old(sib.left) && sib.right == old(sib.right)
      ensures p.pos == old(child.pos) && child.pos == old(p.pos) && (sib != null ==> sib.pos == old(sib.pos))
    {
      var sibling: Node?<K>;
      p.pos, child.pos := child.pos, p.pos;
      p.left, child.left := child.left, p.left;
      p.right, child.right := child.right, p.right;
      p.parent, child.parent := child.parent, p.parent;
      p.parent := child;
      if child.left == child {
        child.left := p;
        sibling := child.right;
      } else {
        child.right := p;
        sibling := child.left;
      }
      if sibling != null {
        sibling.parent := child;
      }
    }

    /** The children of `below` learn that it is their parent, and `upper` (or the root) points at
        `now` where it pointed at `was`. */
    method Reattach(below: Node<K>, upper: Node?<K>, was: Node<K>, now: Node<K>)
      requires upper != below && upper != now && below.left != below && below.right != below
      requires below.left != now && below.right != now
      requires below.left != null ==> below.left != below.right && below.left != upper
      requires below.right != null ==> below.right != upper
      modifies `min, below.left, below.right, upper
      ensures below.left != null ==>
        below.left.parent == below && below.left.left == old(below.left.left)
          && below.left.right == old(below.left.right)
        && below.left.pos == old(below.left.pos)
      ensures below.right != null ==>
        below.right.parent == below && below.right.left == old(below.right.left)
          && below.right.right == old(below.right.right)
        && below.right.pos == old(below.right.pos)
      ensures upper == null ==> min == now
      ensures upper != null ==>
        && min == old(min) && upper.parent == old(upper.parent) && upper.pos == old(upper.pos)
        && upper.left == (if old(upper.left) == was then now else old(upper.left))
        && upper.right == (if old(upper.left) == was then old(upper.right) else now)
    {
      if below.left != null {
        below.left.parent := below;
      }
      if below.right != null {
        below.right.parent := below;
      }
      if upper == null {
        min := now;
      } else if upper.left == was {
        upper.left := now;
      } else {
        upper.right := now;
      }
    }

    /** heap_node_swap, link by link: what every node points at afterwards. */
    /** The two nodes and the one beside the child exchange their links; those above and below still have theirs. */
    method ExchangeAt(p: Node<K>, child: Node<K>, ghost i: nat)
      requires Shape() && 2 <= i <= |nodes|
      requires child == At(nodes, i) && p == At(nodes, i / 2)
      modifies nodes
      ensures p.left == At(nodes, 2 * i) && p.right == At(nodes, 2 * i + 1) && p.parent == child
      ensures child.parent == At(nodes, i / 2 / 2)
      ensures child.left == if i % 2 == 0 then p else At(nodes, i - 1)
      ensures child.right == if i % 2 == 0 then At(nodes, i + 1) else p
      ensures forall j :: 1 <= j <= |nodes| && j != i && j != i / 2 ==>
        && At(nodes, j).parent == (if j == Beside(i) then child else old(At(nodes, j).parent))
        && At(nodes, j).left == old(At(nodes, j).left) && At(nodes, j).right == old(At(nodes, j).right)
        && At(nodes, j).pos == j
      ensures p.pos == i && child.pos == i / 2
    {
      Neighbours(nodes, i);
      ExchangeLinks(p, child, At(nodes, Beside(i)), i % 2 == 0);
      assert forall j :: 1 <= j <= |nodes| ==> old(At(nodes, j).pos) == j;
    }

    method SwapLinks(p: Node<K>, child: Node<K>, ghost i: nat)
      requires Shape() && 2 <= i <= |nodes|
      requires child == At(nodes, i) && p == At(nodes, i / 2)
      modifies this, nodes
      ensures nodes == old(nodes) && nelts == old(nelts)
      ensures min == if i / 2 == 1 then child else old(min)
      ensures p.left == At(nodes, 2 * i) && p.right == At(nodes, 2 * i + 1) && p.parent == child
      ensures child.parent == At(nodes, i / 2 / 2)
      ensures child.left == if i % 2 == 0 then p else At(nodes, i - 1)
      ensures child.right == if i % 2 == 0 then At(nodes, i + 1) else p
      ensures forall j :: 1 <= j <= |nodes| && j != i && j != i / 2 ==>
        && At(nodes, j).parent ==
          (if j == Beside(i) then child else if j == 2 * i || j == 2 * i + 1 then p else old(At(nodes, j).parent))
        && At(nodes, j).left == (if j == i / 2 / 2 && i / 2 % 2 == 0 then child else old(At(nodes, j).left))
        && At(nodes, j).right == (if j == i / 2 / 2 && i / 2 % 2 == 1 then child else old(At(nodes, j).right))
        && At(nodes, j).pos == j
      ensures p.pos == i && child.pos == i / 2
    {
      Neighbours(nodes, i);
      ExchangeAt(p, child, i);
      Reattach(p, child.parent, p, child);
    }

    /** heap_node_swap: the node at position `i` changes places with its parent. */
    method NodeSwap(p: Node<K>, child: Node<K>, ghost i: nat)
      requires Shape() && 2 <= i <= |nodes|
      requires child == At(nodes, i) && p == At(nodes, i / 2)
      modifies this, nodes
      ensures Shape() && nodes == Swapped(old(nodes), i) && nelts == old(nelts)
    {
      ghost var ns, ms := nodes, Swapped(nodes, i);
      SwapLinks(p, child, i);
      nodes := ms;
      AtSwapped(ns, i, 1);
      forall j | 1 <= j <= |ms|
        ensures At(ms, j).pos == j
      {
        AtSwapped(ns, i, j);
      }
      forall j | 1 <= j <= |ms|
        ensures Linked(ms, j)
      {
        AtSwapped(ns, i, j);
        SwappedNeighbours(ns, i, j);
        assert old(Linked(ns, j));
      }
    }

    // ---------- Pointers to pointers ----------

    /** The place that holds the node at position `i`. */
    ghost predicate SlotOf(slot: Slot<K>, i: nat)
      reads this, nodes
    {
      if i <= 1 then slot.RootSlot?
      else i / 2 <= |nodes| && slot == if i % 2 == 0 then LeftOf(nodes[i / 2 - 1]) else RightOf(nodes[i / 2 - 1])
    }

    function Load(slot: Slot<K>): Node?<K>
      reads this, if slot.RootSlot? then {} else {slot.n}
    {
      match slot
      case RootSlot => min
      case LeftOf(n) => n.left
      case RightOf(n) => n.right
    }

    method Store(slot: Slot<K>, node: Node?<K>)
      modifies this`min, if slot.RootSlot? then {} else {slot.n}
      ensures Load(slot) == node
      ensures slot.RootSlot? || min == old(min)
      ensures slot.LeftOf? ==> slot.n.right == old(slot.n.right)
      ensures slot.RightOf? ==> slot.n.left == old(slot.n.left)
      ensures !slot.RootSlot? ==> slot.n.parent == old(slot.n.parent) && slot.n.pos == old(slot.n.pos)
    {
      match slot {
        case RootSlot => min := node;
        case LeftOf(n) => n.left := node;
        case RightOf(n) => n.right := node;
      }
    }

    /** Walks the bits of `target` down from the root.  `parent` trails `slot` by one step. */
    method FindSlot(target: nat) returns (slot: Slot<K>, parent: Slot<K>)
      requires Shape() && 1 <= target <= |nodes| + 1
      ensures SlotOf(slot, target) && SlotOf(parent, target / 2)
    {
      var path, k := PathTo(target);
      parent, slot := RootSlot, RootSlot;
      ghost var i := 1;
      while k > 0
        invariant 1 <= i <= target && Walk(i, path, k) == target
        invariant SlotOf(slot, i) && SlotOf(parent, i / 2)
        decreases k
      {
        WalkGrows(i, path, k);
        assert i >= 2 ==> Linked(nodes, i / 2);
        parent := slot;
        var n := Load(slot);
        assert n == At(nodes, i);
        slot := if path % 2 == 1 then RightOf(n) else LeftOf(n);
        i := 2 * i + path % 2;
        path := path / 2;
        k := k - 1;
        WalkGrows(i, path, k);
      }
    }

    // ---------- heap_insert ----------

    /** Points the place of position `t` at `v`; only the parent's link changes. */
    method PointAt(slot: Slot<K>, v: Node?<K>, ghost t: nat)
      requires Tree(nodes) && 1 <= t <= |nodes| + 1 && SlotOf(slot, t)
      modifies `min, if slot.RootSlot? then {} else {slot.n}
      ensures min == if t == 1 then v else old(min)
      ensures forall j :: 1 <= j <= |nodes| ==>
        && At(nodes, j).left == (if j == t / 2 && t % 2 == 0 then v else old(At(nodes, j).left))
        && At(nodes, j).right == (if j == t / 2 && t % 2 == 1 then v else old(At(nodes, j).right))
        && At(nodes, j).parent == old(At(nodes, j).parent)
        && At(nodes, j).pos == j
    {
      assert t >= 2 ==> At(nodes, t / 2) in nodes;
      assert forall j :: 1 <= j <= |nodes| ==> old(At(nodes, j).pos) == j;
      Store(slot, v);
    }

    /** Clears `newnode`, finds the last place, and points `newnode` at its parent-to-be. */
    method ClearLinks(newnode: Node<K>, ghost t: nat)
      requires Shape() && newnode !in nodes
      modifies newnode
      ensures Shape() && newnode.left == null && newnode.right == null && newnode.parent == null && newnode.pos == t
    {
      newnode.left, newnode.right, newnode.parent := null, null, null;
      newnode.pos := t;
    }

    method SetParent(newnode: Node<K>, parent: Node?<K>)
      requires Shape() && newnode !in nodes
      modifies newnode`parent
      ensures Shape() && newnode.parent == parent
    {
      newnode.parent := parent;
    }

    method PrepareLast(newnode: Node<K>) returns (slot: Slot<K>)
      requires Shape() && newnode !in nodes
      modifies newnode
      ensures Shape() && SlotOf(slot, nelts + 1)
      ensures newnode.left == null && newnode.right == null && newnode.pos == nelts + 1
      ensures newnode.parent == At(nodes, (nelts + 1) / 2)
    {
      ghost var t := nelts + 1;
      ClearLinks(newnode, t);
      var parent;
      slot, parent := FindSlot(1 + nelts);
      assert t >= 4 ==> Linked(nodes, t / 2 / 2);
      SetParent(newnode, Load(parent));
    }

    /** Appends a node in the last position, without restoring the order. */
    method LinkLast(newnode: Node<K>)
      requires Shape() && newnode !in nodes
      modifies this, nodes, newnode
      ensures Shape() && nodes == old(nodes) + [newnode]
    {
      ghost var ns, t := nodes, nelts + 1;
      var slot := PrepareLast(newnode);
      label prepared:
      PointAt(slot, newnode, t);
      nelts := nelts + 1;
      nodes := nodes + [newnode];
      forall j | 1 <= j <= |nodes|
        ensures At(nodes, j).pos == j && Linked(nodes, j)
      {
        if j < t {
          assert old@prepared(Linked(ns, j));
          AtAppended(ns, newnode, j);
        }
      }
    }

    /** Moves `node`, at position `i`, up while it is less than its parent. */
    /** Swaps a node that is less than its parent with it. */
    method SwapUp(node: Node<K>, lt: (K, K) -> bool, ghost i: nat)
      requires StrictWeakOrder(lt) && Shape() && OrderedExceptAt(lt, Keys(nodes), i)
      requires 2 <= i <= nelts && node == At(nodes, i) && lt(node.key, At(nodes, i / 2).key)
      modifies this, nodes
      ensures Shape() && nelts == old(nelts) && node == At(nodes, i / 2) && OrderedExceptAt(lt, Keys(nodes), i / 2)
      ensures Members(nodes) == old(Members(nodes)) && forall k :: 0 <= k < |nodes| ==> nodes[k] in old(nodes)
    {
      SwapUpOrder(lt, Keys(nodes), i);
      SwappedKeys(nodes, i);
      assert Linked(nodes, i);
      NodeSwap(node.parent, node, i);
    }

    method SiftUp(node: Node<K>, lt: (K, K) -> bool, ghost at: nat)
      requires StrictWeakOrder(lt) && Shape() && OrderedExceptAt(lt, Keys(nodes), at)
      requires node == At(nodes, at)
      modifies this, nodes
      ensures Valid(lt) && Members(nodes) == old(Members(nodes)) && nelts == old(nelts)
    {
      ghost var i := at;
      assert Linked(nodes, i);
      while node.parent != null && lt(node.key, node.parent.key)
        invariant Shape() && 1 <= i <= nelts == old(nelts) && node == At(nodes, i) && Linked(nodes, i)
        invariant OrderedExceptAt(lt, Keys(nodes), i)
        invariant Members(nodes) == Members(old(nodes))
        invariant forall k :: 0 <= k < |nodes| ==> nodes[k] in old(nodes)
        decreases i
      {
        SwapUp(node, lt, i);
        i := i / 2;
        assert Linked(nodes, i);
      }
      AllFit(lt, Keys(nodes), i);
    }

    method HeapInsert(newnode: Node<K>, lt: (K, K) -> bool)
      requires StrictWeakOrder(lt) && Valid(lt) && newnode !in nodes
      requires nelts + 1 < 0x1_0000_0000
      modifies this, nodes, newnode
      ensures Valid(lt) && nelts == old(nelts) + 1
      ensures Members(nodes) == old(Members(nodes)) + {newnode}
    {
      ghost var before := Keys(nodes);
      LinkLast(newnode);
      AppendedOrder(lt, before, Keys(nodes));
      SiftUp(newnode, lt, |nodes|);
    }

    // ---------- heap_remove ----------

    method LocateLast() returns (slot: Slot<K>)
      requires Shape() && nelts > 0
      ensures SlotOf(slot, nelts) && Load(slot) == At(nodes, nelts)
    {
      var parent;
      slot, parent := FindSlot(nelts);
      assert nelts >= 2 ==> Linked(nodes, nelts / 2);
    }

    /** Unlinks the node in the last position. */
    method UnlinkLast() returns (child: Node<K>)
      requires Shape() && nelts > 0
      modifies this, nodes
      ensures Shape() && nodes == old(nodes)[..old(nelts) - 1] && child == old(nodes)[old(nelts) - 1]
      ensures child.pos == old(nelts)
    {
      ghost var ns, t := nodes, nelts;
      var max := LocateLast();
      nelts := nelts - 1;
      child := Load(max);
      label before:
      PointAt(max, null, t);
      nodes := ns[..t - 1];
      forall j | 1 <= j <= |nodes|
        ensures At(nodes, j).pos == j && Linked(nodes, j)
      {
        assert old@before(Linked(ns, j));
        AtShortened(ns, j);
      }
      assert At(ns, t).pos == t;
    }

    /** Puts `child` in the place of `node`, link by link. */
    method TakePlace(node: Node<K>, child: Node<K>, ghost r: nat)
      requires Shape() && 1 <= r <= |nodes| && node == At(nodes, r) && child !in nodes
      modifies this, nodes, child
      ensures nodes == old(nodes) && nelts == old(nelts)
      ensures child.left == At(nodes, 2 * r) && child.right == At(nodes, 2 * r + 1) && child.parent == At(nodes, r / 2)
      ensures child.pos == r
      ensures min == if r == 1 then child else old(min)
      ensures forall j :: 1 <= j <= |nodes| && j != r ==>
        && At(nodes, j).parent == (if j == 2 * r || j == 2 * r + 1 then child else old(At(nodes, j).parent))
        && At(nodes, j).left == (if j == r / 2 && r % 2 == 0 then child else old(At(nodes, j).left))
        && At(nodes, j).right == (if j == r / 2 && r % 2 == 1 then child else old(At(nodes, j).right))
        && At(nodes, j).pos == j
    {
      ghost var ns := nodes;
      Surroundings(ns, r);
      assert forall j :: 1 <= j <= |ns| ==> At(ns, j) != child && old(At(ns, j).pos) == j;
      child.left := node.left;
      child.right := node.right;
      child.parent := node.parent;
      child.pos := r;
      Reattach(child, node.parent, node, child);
    }

    method ReplaceNode(node: Node<K>, child: Node<K>, ghost r: nat)
      requires Shape() && 1 <= r <= |nodes| && node == At(nodes, r) && child !in nodes
      modifies this, nodes, child
      ensures Shape() && nodes == old(nodes)[r - 1 := child] && nelts == old(nelts)
    {
      ghost var ns := nodes;
      TakePlace(node, child, r);
      nodes := ns[r - 1 := child];
      forall j | 1 <= j <= |nodes|
        ensures At(nodes, j).pos == j && Linked(nodes, j)
      {
        assert old(Linked(ns, j));
        ReplacedNeighbours(ns, r, child, j);
      }
    }

    /** The least of `child` and its children, preferring the earlier of equals. */
    method SmallestBelow(child: Node<K>, lt: (K, K) -> bool, ghost i: nat) returns (smallest: Node<K>, ghost s: nat)
      requires StrictWeakOrder(lt) && Shape() && 1 <= i <= nelts && child == At(nodes, i)
      ensures 1 <= s <= nelts && smallest == At(nodes, s)
      ensures s == i || ((s == 2 * i || s == 2 * i + 1) && lt(smallest.key, child.key))
      ensures forall j :: 2 <= j <= nelts && j / 2 == i ==> !lt(Keys(nodes)[j - 1], smallest.key)
    {
      assert Linked(nodes, i);
      smallest, s := child, i;
      if child.left != null && lt(child.left.key, smallest.key) {
        smallest, s := child.left, 2 * i;
      }
      if child.right != null && lt(child.right.key, smallest.key) {
        smallest, s := child.right, 2 * i + 1;
      }
      forall j | 2 <= j <= nelts && j / 2 == i
        ensures !lt(Keys(nodes)[j - 1], smallest.key)
      {
        assert j == 2 * i || j == 2 * i + 1;
      }
    }

    /** Moves `child`, at position `at`, down while a child of it is less. */
    /** Swaps a node with a child that is less, and not greater than the other one. */
    method SwapDown(child: Node<K>, smallest: Node<K>, lt: (K, K) -> bool, ghost i: nat, ghost s: nat)
      requires StrictWeakOrder(lt) && Shape() && OrderedAround(lt, Keys(nodes), i)
      requires 2 <= s <= nelts && s / 2 == i && child == At(nodes, i) && smallest == At(nodes, s)
      requires lt(smallest.key, child.key)
      requires forall j :: 2 <= j <= nelts && j / 2 == i ==> !lt(Keys(nodes)[j - 1], smallest.key)
      modifies this, nodes
      ensures Shape() && nelts == old(nelts) && child == At(nodes, s) && OrderedAround(lt, Keys(nodes), s)
      ensures Members(nodes) == old(Members(nodes)) && forall k :: 0 <= k < |nodes| ==> nodes[k] in old(nodes)
    {
      SwapDownOrder(lt, Keys(nodes), i, s);
      SwappedKeys(nodes, s);
      NodeSwap(child, smallest, s);
    }

    method SiftDown(child: Node<K>, lt: (K, K) -> bool, ghost at: nat) returns (ghost i: nat)
      requires StrictWeakOrder(lt) && Shape() && OrderedAround(lt, Keys(nodes), at)
      requires child == At(nodes, at)
      modifies this, nodes
      ensures Shape() && nelts == old(nelts) && Members(nodes) == old(Members(nodes))
      ensures forall k :: 0 <= k < |nodes| ==> nodes[k] in old(nodes)
      ensures OrderedExceptAt(lt, Keys(nodes), i) && child == At(nodes, i)
    {
      i := at;
      while true
        invariant Shape() && 1 <= i <= nelts == old(nelts) && child == At(nodes, i)
        invariant OrderedAround(lt, Keys(nodes), i)
        invariant Members(nodes) == Members(old(nodes))
        invariant forall k :: 0 <= k < |nodes| ==> nodes[k] in old(nodes)
        decreases nelts - i
      {
        var smallest;
        ghost var s;
        smallest, s := SmallestBelow(child, lt, i);
        if smallest == child {
          assert s == i by { assert At(nodes, s).pos == s && At(nodes, i).pos == i; }
          NothingLessBelow(lt, Keys(nodes), i);
          break;
        }
        SwapDown(child, smallest, lt, i, s);
        i := s;
      }
    }

    /** Removes the node at `r`, given the unlinked last node `child`. */
    method FillHole(node: Node<K>, child: Node<K>, lt: (K, K) -> bool, ghost r: nat, ghost before: seq<K>)
      requires StrictWeakOrder(lt) && Shape() && 1 <= r <= |nodes| && node == At(nodes, r) && child !in nodes
      requires HeapOrdered(lt, before) && |before| == |nodes| + 1
      requires forall i :: 0 <= i < |nodes| ==> nodes[i].key == before[i]
      modifies this, nodes, child
      ensures Valid(lt) && nelts == old(nelts)
      ensures Members(nodes) == Members(old(nodes)[r - 1 := child])
    {
      ReplaceNode(node, child, r);
      ReplacedOrder(lt, before, Keys(nodes), r);
      ghost var i := SiftDown(child, lt, r);
      SiftUp(child, lt, i);
    }

    /** heap_remove.  An empty heap is left alone. */
    method HeapRemove(node: Node?<K>, lt: (K, K) -> bool)
      requires StrictWeakOrder(lt) && Valid(lt)
      requires nodes == [] || node in nodes
      modifies this, nodes
      ensures Valid(lt)
      ensures Members(nodes) == old(Members(nodes)) - {node}
      ensures nelts == if old(nelts) == 0 then 0 else old(nelts) - 1
    {
      if nelts == 0 {
        return;
      }
      ghost var ns, r := nodes, node.pos;
      PositionOf(ns, node);
      RemovedMembers(ns, r);
      ghost var before := Keys(ns);
      var child := UnlinkLast();
      if child == node {
        ShortenedOrder(lt, before, Keys(nodes));
        if child == min {
          assert false;  // unlinking the last node has already cleared min
        }
        return;
      }
      assert child !in nodes by { NotBefore(nodes, child); }
      FillHole(node, child, lt, r, before);
    }

    method HeapDequeue(lt: (K, K) -> bool)
      requires StrictWeakOrder(lt) && Valid(lt)
      modifies this, nodes
      ensures Valid(lt)
      ensures old(min) == null ==> nodes == []
      ensures old(min) != null ==>
        && Members(nodes) == old(Members(nodes)) - {old(min)}
        && forall n :: n in Members(nodes) ==> !lt(n.key, old(min).key)
    {
      var m := HeapMin(lt);
      HeapRemove(min, lt);
      assert nodes != [] ==> nodes[0] in Members(nodes);
      forall n | n in Members(nodes)
        ensures n in old(Members(nodes))
      {
      }
    }
  }

  lemma PositionOf<K>(ns: seq<Node<K>>, n: Node<K>)
    requires Tree(ns) && n in ns
    ensures 1 <= n.pos <= |ns| && At(ns, n.pos) == n
  {
    var j :| 0 <= j < |ns| && ns[j] == n;
    assert At(ns, j + 1) == n;
  }

  lemma NotBefore<K>(ns: seq<Node<K>>, n: Node<K>)
    requires Tree(ns) && n.pos > |ns|
    ensures n !in ns
  {
    forall j | 0 <= j < |ns|
      ensures ns[j] != n
    {
      assert At(ns, j + 1).pos == j + 1;
    }
  }

  /** Without the node at `r`, and with the last node in its place. */
  lemma RemovedMembers<K>(ns: seq<Node<K>>, r: nat)
    requires 1 <= r <= |ns| && Tree(ns)
    ensures var ms := ns[..|ns| - 1];
      Members(if r == |ns| then ms else ms[r - 1 := ns[|ms|]]) == Members(ns) - {At(ns, r)}
  {
    var ms := ns[..|ns| - 1];
    var after := if r == |ns| then ms else ms[r - 1 := ns[|ms|]];
    forall x
      ensures x in Members(after) <==> x in Members(ns) - {At(ns, r)}
    {
      if x in ns && x != ns[r - 1] {
        var j :| 0 <= j < |ns| && ns[j] == x;
        assert x == after[if j == |ms| then r - 1 else j];
      }
      if x in after {
        var j :| 0 <= j < |after| && after[j] == x;
        var k := if j == r - 1 then |ms| else j;
        assert x == At(ns, k + 1) && x.pos == k + 1 && At(ns, r).pos == r;
      }
    }
  }

  lemma ShortenedOrder<K>(lt: (K, K) -> bool, before: seq<K>, after: seq<K>)
    requires HeapOrdered(lt, before)
    requires |after| + 1 == |before| && forall i :: 0 <= i < |after| ==> after[i] == before[i]
    ensures HeapOrdered(lt, after)
  {
    forall j | 2 <= j <= |after|
      ensures Fits(lt, after, j)
    {
      assert Fits(lt, before, j);
    }
  }

  /** With any key at `r`, only the neighbourhood of `r` can be out of order. */
  lemma ReplacedOrder<K(!new)>(lt: (K, K) -> bool, before: seq<K>, after: seq<K>, r: nat)
    requires StrictWeakOrder(lt) && HeapOrdered(lt, before)
    requires 1 <= r <= |after| < |before|
    requires forall i :: 0 <= i < |after| && i != r - 1 ==> after[i] == before[i]
    ensures OrderedAround(lt, after, r)
  {
    forall j | 2 <= j <= |after| && j != r && j / 2 != r
      ensures Fits(lt, after, j)
    {
      assert Fits(lt, before, j);
    }
    if 2 <= r {
      forall j | 2 <= j <= |after| && j / 2 == r
        ensures !lt(after[j - 1], after[r / 2 - 1])
      {
        assert Fits(lt, before, j) && Fits(lt, before, r);
      }
    }
  }

  lemma AllFit<K>(lt: (K, K) -> bool, keys: seq<K>, i: nat)
    requires OrderedExceptAt(lt, keys, i) && (2 <= i ==> Fits(lt, keys, i))
    ensures HeapOrdered(lt, keys)
  {
  }

  lemma NothingLessBelow<K>(lt: (K, K) -> bool, keys: seq<K>, i: nat)
    requires OrderedAround(lt, keys, i)
    requires forall j :: 2 <= j <= |keys| && j / 2 == i ==> !lt(keys[j - 1], keys[i - 1])
    ensures OrderedExceptAt(lt, keys, i)
  {
    forall j | 2 <= j <= |keys| && j != i
      ensures Fits(lt, keys, j)
    {
    }
  }

  lemma SwappedKeys<K>(nodes: seq<Node<K>>, i: nat)
    requires 2 <= i <= |nodes|
    ensures Keys(Swapped(nodes, i)) == Swapped(Keys(nodes), i)
    ensures Members(Swapped(nodes, i)) == Members(nodes)
    ensures forall j :: 0 <= j < |nodes| ==> Swapped(nodes, i)[j] in nodes
  {
    var ms := Swapped(nodes, i);
    forall x
      ensures x in ms <==> x in nodes
    {
      if x in nodes {
        var j :| 0 <= j < |nodes| && nodes[j] == x;
        assert x == ms[if j == i - 1 then i / 2 - 1 else if j == i / 2 - 1 then i - 1 else j];
      }
    }
  }

  lemma AppendedOrder<K>(lt: (K, K) -> bool, before: seq<K>, after: seq<K>)
    requires HeapOrdered(lt, before)
    requires |after| == |before| + 1 && forall i :: 0 <= i < |before| ==> after[i] == before[i]
    ensures OrderedExceptAt(lt, after, |after|)
  {
    forall j | 2 <= j < |after|
      ensures Fits(lt, after, j)
    {
      assert Fits(lt, before, j);
    }
  }
}
