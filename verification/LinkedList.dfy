/** The intrusive doubly linked list of common/list/usb_list.h: a head and nodes joined in a ring
    by mutually inverse links. */
module LinkedList {
  /** A node, or the head of a list. Unlinked nodes have no neighbours; the source marks them
      with two poison addresses. */
  class Node {
    var next: Node?
    var prev: Node?

    /** `usb_list_node_init`. */
    constructor ()
      ensures next == null && prev == null
    {
      next, prev := null, null;
    }

    predicate Unlinked()
      reads this
    {
      next == null && prev == null
    }
  }

  /** Place `i` of the ring: the head, then the nodes, then the head again. */
  function At(head: Node, s: seq<Node>, i: nat): (r: Node) { if 1 <= i <= |s| then s[i - 1] else head }

  ghost predicate Distinct(head: Node, s: seq<Node>) {
    head !in s && forall i, j | 0 <= i < j < |s| :: s[i] != s[j]
  }

  ghost predicate Linked(a: Node, b: Node)
    reads a, b
  {
    a.next == b && b.prev == a
  }

  /** The list at `head` holds the nodes `s`, in this order. */
  ghost predicate IsList(head: Node, s: seq<Node>)
    reads head, s
  {
    Distinct(head, s) && forall i | 0 <= i <= |s| :: Linked(At(head, s, i), At(head, s, i + 1))
  }

  /** `usb_list_head_init`. */
  method HeadInit(head: Node)
    modifies head
    ensures IsList(head, [])
  {
    head.next := head;
    head.prev := head;
  }

  /** `usb_list_head_is_empty`. */
  method IsEmpty(head: Node, ghost s: seq<Node>) returns (r: bool)
    requires IsList(head, s)
    ensures r <==> s == []
  {
    assert Linked(At(head, s, 0), At(head, s, 1));
    r := head.next == head;
  }

  /** `usb_list_head_is_singular`. */
  method IsSingular(head: Node, ghost s: seq<Node>) returns (r: bool)
    requires IsList(head, s)
    ensures r <==> |s| == 1
  {
    assert Linked(At(head, s, 0), At(head, s, 1));
    assert Linked(At(head, s, |s|), At(head, s, |s| + 1));
    r := head.next != head && head.next == head.prev;
  }

  /** The places around an insertion at `k`. */
  lemma InsertAt(head: Node, s: seq<Node>, k: nat, n: Node, i: nat)
    requires k <= |s| && i <= |s| + 2
    ensures At(head, s[..k] + [n] + s[k..], i) ==
      if i <= k then At(head, s, i) else if i == k + 1 then n else At(head, s, i - 1)
  {
  }

  /** `__usb_list_node_add`: between place `k` and the next one. */
  method AddBetween(n: Node, prev: Node, next: Node, ghost head: Node, ghost s: seq<Node>, ghost k: nat)
    requires IsList(head, s) && k <= |s| && prev == At(head, s, k) && next == At(head, s, k + 1)
    requires n != head && n !in s
    modifies n, prev`next, next`prev
    ensures IsList(head, s[..k] + [n] + s[k..])
  {
    ghost var t := s[..k] + [n] + s[k..];
    next.prev := n;
    n.next := next;
    n.prev := prev;
    prev.next := n;
    forall i | 0 <= i <= |t| ensures Linked(At(head, t, i), At(head, t, i + 1)) {
      InsertAt(head, s, k, n, i);
      InsertAt(head, s, k, n, i + 1);
      Apart(head, s, k);
      if i < k {
        assert old(Linked(At(head, s, i), At(head, s, i + 1)));
        Apart2(head, s, i, k);
      } else if i > k + 1 {
        assert old(Linked(At(head, s, i - 1), At(head, s, i)));
        Apart2(head, s, i - 1, k);
      }
    }
  }

  lemma Apart(head: Node, s: seq<Node>, k: nat)
    requires Distinct(head, s) && k <= |s|
    ensures At(head, s, k) == At(head, s, k + 1) ==> s == []
  {
  }

  /** Different places of the ring have different predecessors and different successors. */
  lemma Apart2(head: Node, s: seq<Node>, i: nat, k: nat)
    requires Distinct(head, s) && i <= |s| && k <= |s| && i != k
    ensures At(head, s, i) != At(head, s, k) && At(head, s, i + 1) != At(head, s, k + 1)
  {
  }

  /** `usb_list_node_add`: to the front. */
  method Add(n: Node, head: Node, ghost s: seq<Node>)
    requires IsList(head, s) && n != head && n !in s
    modifies n, head, s
    ensures IsList(head, [n] + s)
  {
    assert Linked(At(head, s, 0), At(head, s, 1));
    AddBetween(n, head, head.next, head, s, 0);
    assert s[..0] + [n] + s[0..] == [n] + s;
  }

  /** `usb_list_node_add_tail`: to the end. */
  method AddTail(n: Node, head: Node, ghost s: seq<Node>)
    requires IsList(head, s) && n != head && n !in s
    modifies n, head, s
    ensures IsList(head, s + [n])
  {
    assert Linked(At(head, s, |s|), At(head, s, |s| + 1));
    AddBetween(n, head.prev, head, head, s, |s|);
    assert s[..|s|] + [n] + s[|s|..] == s + [n];
  }

  function Without(s: seq<Node>, k: nat): (t: seq<Node>)
    requires k < |s|
  {
    s[..k] + s[k + 1..]
  }

  lemma RemoveAt(head: Node, s: seq<Node>, k: nat, i: nat)
    requires k < |s| && i <= |s|
    ensures At(head, Without(s, k), i) == if i <= k then At(head, s, i) else At(head, s, i + 1)
  {
  }

  lemma RemoveDistinct(head: Node, s: seq<Node>, k: nat)
    requires Distinct(head, s) && k < |s|
    ensures Distinct(head, Without(s, k)) && s[k] !in Without(s, k)
  {
  }

  /** `__usb_list_node_del` on the neighbours of place `k`: the node keeps its own links. */
  method Bridge(prev: Node, next: Node, ghost head: Node, ghost s: seq<Node>, ghost k: nat)
    requires IsList(head, s) && k < |s| && prev == At(head, s, k) && next == At(head, s, k + 2)
    modifies prev`next, next`prev
    ensures IsList(head, Without(s, k))
  {
    ghost var t := Without(s, k);
    RemoveDistinct(head, s, k);
    next.prev := prev;
    prev.next := next;
    forall i | 0 <= i <= |t| ensures Linked(At(head, t, i), At(head, t, i + 1)) {
      RemoveAt(head, s, k, i);
      RemoveAt(head, s, k, i + 1);
      if i < k {
        assert old(Linked(At(head, s, i), At(head, s, i + 1)));
        Apart2(head, s, i, k);
        Apart2(head, s, i, k + 1);
      } else if i > k {
        assert old(Linked(At(head, s, i + 1), At(head, s, i + 2)));
        Apart2(head, s, i + 1, k);
        Apart2(head, s, i + 1, k + 1);
      }
    }
  }

  /** `usb_list_node_del`. */
  method Del(n: Node, ghost head: Node, ghost s: seq<Node>, ghost k: nat)
    requires IsList(head, s) && k < |s| && n == s[k]
    modifies head, s
    ensures IsList(head, Without(s, k)) && n.Unlinked()
  {
    assert Linked(At(head, s, k), At(head, s, k + 1)) && Linked(At(head, s, k + 1), At(head, s, k + 2));
    Bridge(n.prev, n.next, head, s, k);
    RemoveDistinct(head, s, k);
    ghost var t := Without(s, k);
    Neighbours(head, t, n);
    n.next := null;
    n.prev := null;
  }

  /** A node outside the list is no place of its ring. */
  lemma Neighbours(head: Node, s: seq<Node>, n: Node)
    requires IsList(head, s) && n != head && n !in s
    ensures forall i | 0 <= i <= |s| + 1 :: At(head, s, i) != n
  {
  }

  // ---- moving and splicing ----

  /** `usb_list_node_move` to the front of another list. */
  method Move(n: Node, head: Node, ghost from: Node, ghost s: seq<Node>, ghost k: nat, ghost t: seq<Node>)
    requires IsList(from, s) && k < |s| && n == s[k] && IsList(head, t) && Separate(from, s, head, t)
    modifies from, s, head, t
    ensures IsList(from, Without(s, k)) && IsList(head, [n] + t)
  {
    assert Linked(At(from, s, k), At(from, s, k + 1)) && Linked(At(from, s, k + 1), At(from, s, k + 2));
    Elsewhere(from, s, head, t, k);
    Bridge(n.prev, n.next, from, s, k);
    OutOf(from, s, k);
    ghost var r := Without(s, k);
    label bridged:
    Add(n, head, t);
    forall i | 0 <= i <= |r| ensures Linked(At(from, r, i), At(from, r, i + 1)) {
      assert old@bridged(Linked(At(from, r, i), At(from, r, i + 1)));
      OnList(from, r, i);
      OnList(from, r, i + 1);
    }
  }

  /** `usb_list_node_move_tail` to the end of another list. */
  method MoveTail(n: Node, head: Node, ghost from: Node, ghost s: seq<Node>, ghost k: nat, ghost t: seq<Node>)
    requires IsList(from, s) && k < |s| && n == s[k] && IsList(head, t) && Separate(from, s, head, t)
    modifies from, s, head, t
    ensures IsList(from, Without(s, k)) && IsList(head, t + [n])
  {
    assert Linked(At(from, s, k), At(from, s, k + 1)) && Linked(At(from, s, k + 1), At(from, s, k + 2));
    Elsewhere(from, s, head, t, k);
    Bridge(n.prev, n.next, from, s, k);
    OutOf(from, s, k);
    ghost var r := Without(s, k);
    label bridged:
    AddTail(n, head, t);
    forall i | 0 <= i <= |r| ensures Linked(At(from, r, i), At(from, r, i + 1)) {
      assert old@bridged(Linked(At(from, r, i), At(from, r, i + 1)));
      OnList(from, r, i);
      OnList(from, r, i + 1);
    }
  }

  /** The same function within one list: the node goes to the front. */
  method MoveFront(n: Node, head: Node, ghost s: seq<Node>, ghost k: nat)
    requires IsList(head, s) && k < |s| && n == s[k]
    modifies head, s
    ensures IsList(head, [n] + Without(s, k))
  {
    assert Linked(At(head, s, k), At(head, s, k + 1)) && Linked(At(head, s, k + 1), At(head, s, k + 2));
    Bridge(n.prev, n.next, head, s, k);
    OutOf(head, s, k);
    Add(n, head, Without(s, k));
  }

  /** `usb_list_node_move_tail` within one list: the node goes to the end. */
  method MoveBack(n: Node, head: Node, ghost s: seq<Node>, ghost k: nat)
    requires IsList(head, s) && k < |s| && n == s[k]
    modifies head, s
    ensures IsList(head, Without(s, k) + [n])
  {
    assert Linked(At(head, s, k), At(head, s, k + 1)) && Linked(At(head, s, k + 1), At(head, s, k + 2));
    Bridge(n.prev, n.next, head, s, k);
    OutOf(head, s, k);
    AddTail(n, head, Without(s, k));
  }

  ghost predicate Separate(a: Node, s: seq<Node>, b: Node, t: seq<Node>) {
    a != b && a !in t && b !in s && forall n | n in s :: n !in t
  }

  lemma OnList(head: Node, s: seq<Node>, i: nat)
    ensures At(head, s, i) == head || At(head, s, i) in s
  {
  }

  lemma Elsewhere(from: Node, s: seq<Node>, head: Node, t: seq<Node>, k: nat)
    requires Separate(from, s, head, t) && k < |s|
    ensures At(from, s, k) != head && At(from, s, k) !in t && At(from, s, k + 2) != head && At(from, s, k + 2) !in t
    ensures s[k] != head && s[k] !in t
  {
  }

  lemma OutOf(head: Node, s: seq<Node>, k: nat)
    requires Distinct(head, s) && k < |s|
    ensures s[k] != head && s[k] !in Without(s, k) && forall n | n in Without(s, k) :: n in s
  {
    RemoveDistinct(head, s, k);
  }

  lemma SpliceAt(head: Node, s: seq<Node>, t: seq<Node>, k: nat, i: nat)
    requires k <= |t| && i <= |s| + |t| + 1
    ensures At(head, t[..k] + s + t[k..], i) ==
      if i <= k then At(head, t, i) else if i <= k + |s| then s[i - k - 1] else At(head, t, i - |s|)
  {
  }

  lemma SpliceDistinct(src: Node, s: seq<Node>, head: Node, t: seq<Node>, k: nat)
    requires Distinct(src, s) && Distinct(head, t) && Separate(src, s, head, t) && k <= |t|
    ensures Distinct(head, t[..k] + s + t[k..])
  {
    var r := t[..k] + s + t[k..];
    forall i, j | 0 <= i < j < |r| ensures r[i] != r[j] {
      SpliceAt(head, s, t, k, i + 1);
      SpliceAt(head, s, t, k, j + 1);
      assert r[i] == At(head, r, i + 1) && r[j] == At(head, r, j + 1);
      if k <= i < k + |s| { assert r[i] in s; } else { assert r[i] in t; }
      if k <= j < k + |s| { assert r[j] in s; } else { assert r[j] in t; }
    }
  }

  /** `__usb_list_head_splice`: all nodes of a list, between place `k` and the next of another.
      The old head keeps its links. */
  method Splice(src: Node, prev: Node, next: Node, ghost s: seq<Node>, ghost head: Node, ghost t: seq<Node>,
                ghost k: nat)
    requires IsList(src, s) && s != [] && IsList(head, t) && Separate(src, s, head, t)
    requires k <= |t| && prev == At(head, t, k) && next == At(head, t, k + 1)
    modifies s, prev`next, next`prev
    ensures IsList(head, t[..k] + s + t[k..])
  {
    ghost var r := t[..k] + s + t[k..];
    SpliceDistinct(src, s, head, t, k);
    Foreign(src, s, head, t, k);
    Foreign(src, s, head, t, k + 1);
    assert Linked(At(src, s, 0), At(src, s, 1)) && Linked(At(src, s, |s|), At(src, s, |s| + 1));
    var first, last := src.next, src.prev;
    assert first == s[0] && last == s[|s| - 1];
    first.prev := prev;
    prev.next := first;
    last.next := next;
    next.prev := last;
    forall i | 0 <= i <= |r| ensures Linked(At(head, r, i), At(head, r, i + 1)) {
      SpliceAt(head, s, t, k, i);
      SpliceAt(head, s, t, k, i + 1);
      if i < k {
        assert old(Linked(At(head, t, i), At(head, t, i + 1)));
        Apart2(head, t, i, k);
        Foreign(src, s, head, t, i);
        Foreign(src, s, head, t, i + 1);
      } else if k < i < k + |s| {
        assert old(Linked(At(src, s, i - k), At(src, s, i - k + 1)));
        Apart2(src, s, i - k, |s|);
        Apart2(src, s, i - k, 0);
      } else if i > k + |s| {
        assert old(Linked(At(head, t, i - |s|), At(head, t, i - |s| + 1)));
        Apart2(head, t, i - |s|, k);
        Foreign(src, s, head, t, i - |s|);
        Foreign(src, s, head, t, i - |s| + 1);
      }
    }
  }

  lemma Foreign(src: Node, s: seq<Node>, head: Node, t: seq<Node>, i: nat)
    requires Separate(src, s, head, t)
    ensures At(head, t, i) !in s && At(head, t, i) != src
  {
  }

  /** `usb_list_head_splice`: concatenation in front. */
  method SpliceFront(src: Node, dst: Node, ghost s: seq<Node>, ghost t: seq<Node>)
    requires IsList(src, s) && IsList(dst, t) && Separate(src, s, dst, t)
    modifies s, dst, t
    ensures IsList(dst, s + t)
  {
    var e := IsEmpty(src, s);
    assert Linked(At(dst, t, 0), At(dst, t, 1));
    if !e {
      Splice(src, dst, dst.next, s, dst, t, 0);
      assert t[..0] + s + t[0..] == s + t;
    } else {
      assert s + t == t;
    }
  }

  /** `usb_list_head_splice_tail`: concatenation behind. */
  method SpliceTail(src: Node, dst: Node, ghost s: seq<Node>, ghost t: seq<Node>)
    requires IsList(src, s) && IsList(dst, t) && Separate(src, s, dst, t)
    modifies s, dst, t
    ensures IsList(dst, t + s)
  {
    var e := IsEmpty(src, s);
    assert Linked(At(dst, t, |t|), At(dst, t, |t| + 1));
    if !e {
      Splice(src, dst.prev, dst, s, dst, t, |t|);
      assert t[..|t|] + s + t[|t|..] == t + s;
    } else {
      assert t + s == t;
    }
  }

  // ---- iteration ----

  /** The nodes that are not in `doomed`, in order. */
  function Spared(s: seq<Node>, doomed: set<Node>): (r: seq<Node>) {
    if s == [] then [] else (if s[0] in doomed then [] else [s[0]]) + Spared(s[1..], doomed)
  }

  lemma {:induction false} SparedSplit(a: seq<Node>, b: seq<Node>, doomed: set<Node>)
    ensures Spared(a + b, doomed) == Spared(a, doomed) + Spared(b, doomed)
  {
    if a == [] {
      assert a + b == b;
    } else {
      assert (a + b)[1..] == a[1..] + b;
      SparedSplit(a[1..], b, doomed);
    }
  }

  lemma {:induction false} SparedIn(s: seq<Node>, doomed: set<Node>)
    ensures forall n | n in Spared(s, doomed) :: n in s && n !in doomed
  {
    if s != [] { SparedIn(s[1..], doomed); }
  }

  /** `usb_list_for_each_node`: every node once, in order. */
  method ForEach(head: Node, ghost s: seq<Node>) returns (visited: seq<Node>)
    requires IsList(head, s)
    ensures visited == s
  {
    visited := [];
    assert Linked(At(head, s, 0), At(head, s, 1));
    var pos: Node := head.next;
    while pos != head
      invariant |visited| <= |s| && visited == s[..|visited|] && pos == At(head, s, |visited| + 1)
      decreases |s| - |visited|
    {
      assert Linked(At(head, s, |visited| + 1), At(head, s, |visited| + 2));
      visited := visited + [pos];
      pos := pos.next;
    }
  }

  /** `usb_list_for_each_node_safe` with a body that deletes the current node when it is doomed:
      every original node is visited once, in order, and the others stay, in order. */
  method ForEachSafe(head: Node, doomed: set<Node>, ghost s: seq<Node>) returns (visited: seq<Node>)
    requires IsList(head, s)
    modifies head, s
    ensures visited == s && IsList(head, Spared(s, doomed))
    ensures forall n | n in s && n in doomed :: n.Unlinked()
  {
    hide IsList, Spared, Distinct;
    visited := [];
    ghost var kept, rest: seq<Node> := [], s;
    assert kept + rest == s;
    SparedNone(doomed);
    HeadFirst(head, s);
    var pos: Node := head.next;
    FirstTwo(head, s);
    var n: Node := pos.next;
    while pos != head
      invariant IsList(head, kept + rest) && s == visited + rest && kept == Spared(visited, doomed)
      invariant pos == At(head, kept + rest, |kept| + 1)
      invariant rest != [] ==> n == At(head, kept + rest, |kept| + 2)
      invariant forall m | m in visited && m in doomed :: m.Unlinked()
      decreases |rest|
    {
      assert pos == rest[0];
      OneMore(visited, rest, doomed);
      SparedIn(visited, doomed);
      Parts(head, s, visited, rest);
      assert (forall i | 0 <= i < |kept| :: kept[i] in s) && forall i | 0 <= i < |rest| :: rest[i] in s;
      Visit(pos, head, doomed, kept, rest);
      visited := visited + [pos];
      kept := kept + if pos in doomed then [] else [pos];
      rest := rest[1..];
      pos := n;
      FirstAfter(head, kept + rest, |kept|);
      n := pos.next;
    }
    assert kept + rest == kept;
  }

  lemma Parts(head: Node, s: seq<Node>, a: seq<Node>, b: seq<Node>)
    requires Distinct(head, s) && s == a + b
    ensures forall m | m in a :: m in s && m != head && m !in b
    ensures forall m | m in b :: m in s
  {
    forall m | m in a ensures m in s && m != head && m !in b {
      var i :| 0 <= i < |a| && a[i] == m;
      assert s[i] == m && forall j | 0 <= j < |b| :: s[|a| + j] == b[j];
    }
  }

  /** The body of the loop: the current node is deleted when it is doomed. */
  method Visit(pos: Node, head: Node, doomed: set<Node>, ghost kept: seq<Node>, ghost rest: seq<Node>)
    requires IsList(head, kept + rest) && rest != [] && pos == rest[0]
    modifies head, kept, rest
    ensures IsList(head, kept + (if pos in doomed then [] else [pos]) + rest[1..])
    ensures pos in doomed ==> pos.Unlinked()
  {
    ghost var l, k := kept + rest, |kept|;
    if pos in doomed {
      Del(pos, head, l, k);
      assert Without(l, k) == kept + [] + rest[1..];
    } else {
      assert l == kept + [pos] + rest[1..];
    }
  }

  lemma HeadFirst(head: Node, s: seq<Node>)
    requires IsList(head, s)
    ensures head.next == At(head, s, 1) && Distinct(head, s)
  {
    assert Linked(At(head, s, 0), At(head, s, 1));
  }

  lemma SparedNone(doomed: set<Node>)
    ensures Spared([], doomed) == []
  {
  }

  lemma FirstTwo(head: Node, s: seq<Node>)
    requires IsList(head, s)
    ensures At(head, s, 1).next != null && (s != [] ==> At(head, s, 1).next == At(head, s, 2))
  {
    assert Linked(At(head, s, 0), At(head, s, 1));
    if s != [] { assert Linked(At(head, s, 1), At(head, s, 2)); }
  }

  lemma FirstAfter(head: Node, s: seq<Node>, k: nat)
    requires IsList(head, s) && k <= |s|
    ensures At(head, s, k + 1).next != null && (k < |s| ==> At(head, s, k + 1).next == At(head, s, k + 2))
  {
    assert Linked(At(head, s, 0), At(head, s, 1));
    if k < |s| { assert Linked(At(head, s, k + 1), At(head, s, k + 2)); }
  }

  lemma OneMore(a: seq<Node>, rest: seq<Node>, doomed: set<Node>)
    requires rest != []
    ensures Spared(a + [rest[0]], doomed) == Spared(a, doomed) + if rest[0] in doomed then [] else [rest[0]]
    ensures a + rest == (a + [rest[0]]) + rest[1..]
  {
    SparedSplit(a, [rest[0]], doomed);
    assert [rest[0]][1..] == [];
  }
}
