/** libuv's QUEUE macros: circular doubly linked lists whose head is a node like any other. */
module Queue {
  class Node {
    var next: Node
    var prev: Node

    constructor ()
      ensures next == this && prev == this
    {
      next, prev := this, this;
    }
  }

  predicate Joined(a: Node, b: Node)
    reads a`next, b`prev
  {
    a.next == b && b.prev == a
  }

  /** From `a` the links lead through `items` to `b`, and back. */
  predicate Chain(a: Node, items: seq<Node>, b: Node)
    reads a`next, items, b`prev
  {
    if items == [] then Joined(a, b) else Joined(a, items[0]) && Chain(items[0], items[1..], b)
  }

  predicate NoDup(s: seq<Node>) {
    forall i, j :: 0 <= i < j < |s| ==> s[i] != s[j]
  }

  /** The queue headed by `h` holds `items`, in this order. */
  predicate IsQueue(h: Node, items: seq<Node>)
    reads h, items
  {
    Chain(h, items, h) && h !in items && NoDup(items)
  }

  lemma {:induction false} ChainSplit(a: Node, before: seq<Node>, q: Node, after: seq<Node>, b: Node)
    ensures Chain(a, before + [q] + after, b) <==> Chain(a, before, q) && Chain(q, after, b)
    decreases |before|
  {
    var s := before + [q] + after;
    if before == [] {
      assert s == [q] + after;
      assert s[1..] == after;
    } else {
      assert s[0] == before[0] && s[1..] == before[1..] + [q] + after;
      ChainSplit(before[0], before[1..], q, after, b);
    }
  }

  lemma NoDupParts(s: seq<Node>, t: seq<Node>)
    ensures NoDup(s + t) <==> NoDup(s) && NoDup(t) && forall x :: x in s ==> x !in t
  {
    var u := s + t;
    if NoDup(u) {
      forall i, j | 0 <= i < j < |t| ensures t[i] != t[j] {
        assert u[|s| + i] != u[|s| + j];
      }
      forall i, j | 0 <= i < |s| && 0 <= j < |t| ensures s[i] != t[j] {
        assert u[i] != u[|s| + j];
      }
      forall i, j | 0 <= i < j < |s| ensures s[i] != s[j] {
        assert u[i] != u[j];
      }
    }
    if NoDup(s) && NoDup(t) && forall x :: x in s ==> x !in t {
      forall i, j | 0 <= i < j < |u| ensures u[i] != u[j] {
        assert i < |s| ==> u[i] in s;
        assert j >= |s| ==> u[j] in t;
      }
    }
  }

  /** Nodes of a queue other than the first or the last, as far as links to those may change. */
  lemma Inner(s: seq<Node>)
    requires NoDup(s) && s != []
    ensures forall x :: x in s[1..] ==> x in s && x != s[0]
    ensures forall x :: x in s[..|s| - 1] ==> x in s && x != s[|s| - 1]
    ensures |s| > 1 ==> forall x :: x in s[1..][..|s| - 2] ==> x in s && x != s[0] && x != s[|s| - 1]
  {
    assert |s| > 1 ==> s[1..][..|s| - 2] == s[..|s| - 1][1..];
  }

  lemma InnerOf(s: seq<Node>, t: seq<Node>)
    requires NoDup(s) && NoDup(t)
    ensures s != [] ==> s[|s| - 1] in s && forall x :: x in s[..|s| - 1] ==> x in s && x != s[|s| - 1]
    ensures t != [] ==> t[0] in t && t[|t| - 1] in t && forall x :: x in t[1..] ==> x in t && x != t[0]
    ensures |t| > 1 ==> forall x :: x in t[1..][..|t| - 2] ==> x in t && x != t[0] && x != t[|t| - 1]
  {
    if s != [] {
      Inner(s);
    }
    if t != [] {
      Inner(t);
    }
  }

  /** What a member of a queue splits it into. */
  lemma Around(h: Node, before: seq<Node>, q: Node, after: seq<Node>)
    ensures IsQueue(h, before + [q] + after) <==>
      && Chain(h, before, q) && Chain(q, after, h)
      && h != q && h !in before && h !in after && q !in before && q !in after
      && NoDup(before) && NoDup(after) && forall x :: x in before ==> x !in after
  {
    ChainSplit(h, before, q, after, h);
    NoDupParts(before + [q], after);
    NoDupParts(before, [q]);
  }

  function First(items: seq<Node>, b: Node): Node {
    if items == [] then b else items[0]
  }

  function Last(a: Node, items: seq<Node>): Node {
    if items == [] then a else items[|items| - 1]
  }

  /** A chain without its last link. */
  predicate Open(a: Node, items: seq<Node>)
    reads a`next, if items == [] then [] else items[..|items| - 1], Last(a, items)`prev
  {
    items == [] || Chain(a, items[..|items| - 1], items[|items| - 1])
  }

  lemma Ends(a: Node, items: seq<Node>, b: Node)
    ensures Chain(a, items, b) <==> Open(a, items) && Joined(Last(a, items), b)
    ensures Chain(a, items, b) ==> Joined(a, First(items, b))
  {
    if items != [] {
      var k := |items| - 1;
      assert items == items[..k] + [items[k]] + [];
      ChainSplit(a, items[..k], items[k], [], b);
    }
  }

  lemma EndsOfRest(a: Node, items: seq<Node>, b: Node)
    requires Chain(a, items, b)
    ensures Joined(a, First(items, b)) && Joined(Last(a, items), b)
    ensures items != [] ==> Open(items[0], items[1..]) && Last(items[0], items[1..]) == Last(a, items)
  {
    Ends(a, items, b);
    if items != [] {
      Ends(items[0], items[1..], b);
    }
  }

  /** Two chains become one when the last node of the one is joined with the first of the other. */
  lemma Splice(a: Node, items: seq<Node>, more: seq<Node>, b: Node)
    requires Open(a, items) && Joined(Last(a, items), First(more, b))
    requires more != [] ==> Open(more[0], more[1..]) && Joined(Last(more[0], more[1..]), b)
    ensures Chain(a, items + more, b)
  {
    Ends(a, items, First(more, b));
    if more == [] {
      assert items + more == items;
    } else {
      Ends(more[0], more[1..], b);
      assert items + more == items + [more[0]] + more[1..];
      ChainSplit(a, items, more[0], more[1..], b);
    }
  }

  /** The links determine the items. */
  lemma {:induction false} ChainIsUnique(a: Node, s: seq<Node>, t: seq<Node>, h: Node)
    requires Chain(a, s, h) && Chain(a, t, h) && h !in s && h !in t
    ensures s == t
    decreases |s|
  {
    if s != [] && t != [] {
      assert s[0] == t[0] && s == [s[0]] + s[1..] && t == [t[0]] + t[1..];
      ChainIsUnique(s[0], s[1..], t[1..], h);
    } else {
      Ends(a, s, h);
      Ends(a, t, h);
    }
  }

  lemma ItemsAreUnique(h: Node, s: seq<Node>, t: seq<Node>)
    requires IsQueue(h, s) && IsQueue(h, t)
    ensures s == t
  {
    ChainIsUnique(h, s, t, h);
  }

  /** QUEUE_EMPTY */
  method Empty(q: Node, ghost items: seq<Node>) returns (r: bool)
    requires IsQueue(q, items)
    ensures r == (items == [])
  {
    Ends(q, items, q);
    r := q == q.next;
  }

  /** QUEUE_INIT */
  method Init(q: Node)
    modifies q
    ensures IsQueue(q, [])
  {
    q.next := q;
    q.prev := q;
  }

  /** QUEUE_INSERT_HEAD */
  method InsertHead(h: Node, q: Node, ghost items: seq<Node>)
    requires IsQueue(h, items) && q != h && q !in items
    modifies h`next, q, h.next`prev
    ensures IsQueue(h, [q] + items)
  {
    Ends(h, items, h);
    q.next := h.next;
    q.prev := h;
    q.next.prev := q;
    h.next := q;
    if items != [] {
      assert items == [] + [items[0]] + items[1..];
      NoDupParts([items[0]], items[1..]);
    }
    NoDupParts([q], items);
    assert ([q] + items)[1..] == items;
  }

  /** QUEUE_INSERT_TAIL */
  method InsertTail(h: Node, q: Node, ghost items: seq<Node>)
    requires IsQueue(h, items) && q != h && q !in items
    modifies h`prev, q, h.prev`next
    ensures IsQueue(h, items + [q])
  {
    Ends(h, items, h);
    ghost var k := |items| - 1;
    if items != [] {
      assert items == items[..k] + [items[k]] + [];
      Around(h, items[..k], items[k], []);
    }
    q.next := h;
    q.prev := h.prev;
    q.prev.next := q;
    h.prev := q;
    if items != [] {
      ChainSplit(h, items[..k], items[k], [], q);
    }
    assert items + [q] == items + [q] + [];
    ChainSplit(h, items, q, [], h);
    NoDupParts(items, [q]);
  }

  /** QUEUE_REMOVE: the removed node keeps its links, so it does not look empty until it is initialised. */
  method Remove(h: Node, q: Node, ghost before: seq<Node>, ghost after: seq<Node>)
    requires IsQueue(h, before + [q] + after)
    modifies q.prev`next, q.next`prev
    ensures IsQueue(h, before + after)
    ensures q.next != q && q.next == old(q.next) && q.prev == old(q.prev)
  {
    Around(h, before, q, after);
    Ends(h, before, q);
    EndsOfRest(q, after, h);
    InnerOf(before, after);
    q.prev.next := q.next;
    q.next.prev := q.prev;
    Splice(h, before, after, h);
    NoDupParts(before, after);
  }

  lemma Apart(h: Node, items: seq<Node>, n: Node, more: seq<Node>)
    requires NoDup([h] + items + [n] + more)
    ensures h != n && h !in items && h !in more && n !in items && n !in more
    ensures NoDup(items + more) && forall x :: x in items ==> x !in more
  {
    NoDupParts([h] + items + [n], more);
    NoDupParts([h] + items, [n]);
    NoDupParts([h], items);
    NoDupParts(items, more);
    assert h in [h] + items + [n] && n in [h] + items + [n] && h in [h] + items;
    assert forall x :: x in items ==> x in [h] + items && x in [h] + items + [n];
  }

  /** QUEUE_ADD: the items of the queue `n` go behind those of `h`. */
  method Add(h: Node, n: Node, ghost items: seq<Node>, ghost more: seq<Node>)
    requires IsQueue(h, items) && IsQueue(n, more) && NoDup([h] + items + [n] + more)
    modifies h`prev, h.prev`next, n.next`prev, n.prev`next
    ensures IsQueue(h, items + more)
  {
    Apart(h, items, n, more);
    Ends(h, items, h);
    EndsOfRest(n, more, n);
    InnerOf(items, more);
    h.prev.next := n.next;
    n.next.prev := h.prev;
    h.prev := n.prev;
    h.prev.next := h;
    Splice(h, items, more, h);
  }

  /** QUEUE_SPLIT: `n` takes over the items from `q` on. */
  method Split(h: Node, q: Node, n: Node, ghost before: seq<Node>, ghost after: seq<Node>)
    requires IsQueue(h, before + [q] + after) && n != h && n !in before + [q] + after
    modifies h, n, q`prev, h.prev`next, q.prev`next
    ensures IsQueue(h, before) && IsQueue(n, [q] + after)
  {
    Around(h, before, q, after);
    assert q in before + [q] + after && forall x :: x in before || x in after ==> x in before + [q] + after;
    TakeEnd(h, q, n, before, after);
    CloseStart(h, q, n, before, after);
    NoDupParts([q], after);
    assert ([q] + after)[1..] == after;
  }

  /** The first half of it: the chain from `q` ends at `n`. */
  method TakeEnd(h: Node, q: Node, n: Node, ghost before: seq<Node>, ghost after: seq<Node>)
    requires Chain(h, before, q) && Chain(q, after, h) && NoDup(after)
    requires h != q && h !in before && h !in after && q !in before && q !in after
    requires n != h && n != q && n !in before && n !in after && forall x :: x in before ==> x !in after
    modifies n, h.prev`next
    ensures Chain(h, before, q) && Chain(q, after, n) && n.next == q
  {
    Ends(q, after, h);
    InnerOf(after, []);
    n.prev := h.prev;
    n.prev.next := n;
    n.next := q;
    Ends(q, after, n);
  }

  /** The second half: the chain before `q` ends at `h`. */
  method CloseStart(h: Node, q: Node, n: Node, ghost before: seq<Node>, ghost after: seq<Node>)
    requires Chain(h, before, q) && Chain(q, after, n) && NoDup(before) && n.next == q
    requires h != q && h !in before && h !in after && q !in before && q !in after
    requires n != h && n != q && n !in before && n !in after && forall x :: x in before ==> x !in after
    modifies h`prev, q`prev, q.prev`next
    ensures Chain(h, before, h) && Chain(q, after, n) && Joined(n, q)
  {
    Ends(h, before, q);
    InnerOf(before, []);
    h.prev := q.prev;
    h.prev.next := h;
    q.prev := n;
    Ends(h, before, h);
  }

  /** QUEUE_MOVE: `n` takes over all the items. */
  method Move(h: Node, n: Node, ghost items: seq<Node>)
    requires IsQueue(h, items) && n != h && n !in items
    modifies h, n, items
    ensures IsQueue(h, []) && IsQueue(n, items)
  {
    var empty := Empty(h, items);
    if empty {
      Init(n);
    } else {
      Ends(h, items, h);
      var q := h.next;
      assert items == [] + [q] + items[1..];
      Around(h, [], q, items[1..]);
      Split(h, q, n, [], items[1..]);
      assert items == [q] + items[1..];
    }
  }

  /** QUEUE_FOREACH, over a queue that stays as it is. */
  method ForEach(h: Node, ghost items: seq<Node>) returns (visited: seq<Node>)
    requires IsQueue(h, items)
    ensures visited == items
  {
    visited := [];
    Step(h, items, 0);
    var q := h.next;
    while q != h
      invariant |visited| <= |items| && visited == items[..|visited|]
      invariant q == (items + [h])[|visited|]
      decreases |items| - |visited|
    {
      Step(h, items, |visited| + 1);
      visited := visited + [q];
      q := q.next;
    }
  }

  /** The node after the first `k` is where the last of them leads. */
  lemma Step(h: Node, items: seq<Node>, k: nat)
    requires IsQueue(h, items) && k <= |items|
    ensures ([h] + items)[k].next == (items + [h])[k]
  {
    if k == 0 {
      Ends(h, items, h);
    } else {
      assert items == items[..k - 1] + [items[k - 1]] + items[k..];
      Around(h, items[..k - 1], items[k - 1], items[k..]);
      Ends(items[k - 1], items[k..], h);
    }
  }

  /** The loop of uv_walk: every handle of the loop is visited once, in order, and the queue ends as it was. */
  method Walk(handles: Node, local: Node, ghost items: seq<Node>) returns (visited: seq<Node>)
    requires IsQueue(handles, items) && local != handles && local !in items
    modifies handles, local, items
    ensures visited == items && IsQueue(handles, items)
  {
    Move(handles, local, items);
    visited := WalkAll(handles, local, items);
  }

  method WalkAll(handles: Node, local: Node, ghost items: seq<Node>) returns (visited: seq<Node>)
    requires IsQueue(handles, []) && IsQueue(local, items) && local != handles && handles !in items
    modifies handles, local, items
    ensures visited == items && IsQueue(handles, items)
  {
    visited := [];
    assert items[..0] == [] && items[0..] == items;
    while true
      invariant |visited| <= |items| && visited == items[..|visited|]
      invariant IsQueue(handles, visited) && IsQueue(local, items[|visited|..])
      decreases |items| - |visited|
    {
      var empty := Empty(local, items[|visited|..]);
      if empty {
        assert visited == items;
        break;
      }
      var q := WalkTurn(handles, local, items, visited);
      visited := visited + [q];
    }
  }

  method WalkTurn(handles: Node, local: Node, ghost items: seq<Node>, ghost done: seq<Node>) returns (q: Node)
    requires |done| < |items| && done == items[..|done|]
    requires NoDup(items) && handles !in items && local !in items && handles != local
    requires IsQueue(handles, done) && IsQueue(local, items[|done|..])
    modifies handles, local, items
    ensures q == items[|done|] && done + [q] == items[..|done| + 1]
    ensures IsQueue(handles, done + [q]) && IsQueue(local, items[|done| + 1..])
  {
    assert items == done + items[|done|..];
    assert items[|done|..][1..] == items[|done| + 1..];
    q := WalkOne(handles, local, done, items[|done|..]);
  }

  /** The first handle of the local queue goes back to the end of the loop's. */
  method WalkOne(handles: Node, local: Node, ghost done: seq<Node>, ghost rest: seq<Node>)
    returns (q: Node)
    requires IsQueue(handles, done) && IsQueue(local, rest) && rest != [] && handles != local
    requires NoDup(done + rest) && handles !in rest && local !in done
    modifies handles, local, done, rest
    ensures q == rest[0] && IsQueue(handles, done + [q]) && IsQueue(local, rest[1..])
  {
    NoDupParts(done, rest);
    Ends(handles, done, handles);
    assert rest[0] in rest && (forall x :: x in rest[1..] ==> x in rest) && (done != [] ==> handles.prev in done);
    q := Detach(local, rest, handles, done);
    InsertTail(handles, q, done);
  }

  /** The first node of a queue leaves it; another queue, apart from it, stays as it was. */
  method Detach(h: Node, ghost items: seq<Node>, ghost other: Node, ghost others: seq<Node>) returns (q: Node)
    requires IsQueue(h, items) && items != [] && IsQueue(other, others)
    requires NoDup(others + items) && h != other && h !in others && other !in items
    modifies h, items
    ensures q == items[0] && q != other && q !in others && q != h && q !in items[1..]
    ensures IsQueue(h, items[1..]) && IsQueue(other, others)
  {
    ghost var left := items[1..];
    assert items == [] + [items[0]] + left;
    Around(h, [], items[0], left);
    NoDupParts(others, items);
    Ends(h, items, h);
    Ends(items[0], left, h);
    q := h.next;
    assert q.next == if left == [] then h else left[0];
    assert q in items && q.next != other && q.next !in others && q.prev == h;
    Remove(h, q, [], left);
    assert [] + left == left;
  }
}
