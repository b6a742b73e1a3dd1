/**
 The intrusive circular lists of kernel/list.c (and hw3/list.c): many lists
 threaded through one pool of nodes. A node is an index into the next and prev
 arrays; a list is named by its head node.
 */
module Lists {
  import opened Seqs

  // Position i of the cycle: the head, the elements, and the head again.
  function Node(h: nat, s: seq<nat>, i: nat): nat
    requires i <= |s| + 1
  {
    if i == 0 || i == |s| + 1 then h else s[i - 1]
  }

  predicate OnRing(h: nat, s: seq<nat>, x: nat) {
    x == h || x in s
  }

  predicate Joined(nx: seq<nat>, pv: seq<nat>, a: nat, b: nat) {
    a < |nx| && b < |pv| && nx[a] == b && pv[b] == a
  }

  // The nodes h, s[0], .., s[n-1] form one cycle in both directions.
  ghost predicate Linked(nx: seq<nat>, pv: seq<nat>, h: nat, s: seq<nat>) {
    && |nx| == |pv|
    && h !in s && Distinct(s)
    && h < |nx| && (forall x: nat :: x in s ==> x < |nx|)
    && (forall i, j :: 0 <= i <= |s| && j == i + 1 ==> Joined(nx, pv, Node(h, s, i), Node(h, s, j)))
  }

  lemma NodeOnRing(h: nat, s: seq<nat>, i: nat)
    requires i <= |s| + 1
    ensures OnRing(h, s, Node(h, s, i))
  {
  }

  lemma NodesDiffer(h: nat, s: seq<nat>, i: nat, j: nat)
    requires h !in s && Distinct(s) && i <= |s| && j <= |s| && i != j
    ensures Node(h, s, i) != Node(h, s, j)
    ensures Node(h, s, i + 1) != Node(h, s, j + 1)
  {
  }

  function Inserted(s: seq<nat>, i: nat, x: nat): seq<nat>
    requires i <= |s|
  {
    s[..i] + [x] + s[i..]
  }

  lemma InsertedElements(s: seq<nat>, i: nat, x: nat)
    requires Distinct(s) && i <= |s| && x !in s
    ensures Distinct(Inserted(s, i, x))
    ensures forall y :: y in Inserted(s, i, x) <==> y in s || y == x
  {
    assert s == s[..i] + s[i..];
  }

  lemma InsertLinked(nx: seq<nat>, pv: seq<nat>, h: nat, s: seq<nat>, i: nat, x: nat)
    requires Linked(nx, pv, h, s) && i <= |s| && !OnRing(h, s, x) && x < |nx|
    ensures OnRing(h, s, Node(h, s, i)) && OnRing(h, s, Node(h, s, i + 1))
    ensures Linked(nx[Node(h, s, i) := x][x := Node(h, s, i + 1)],
                   pv[Node(h, s, i + 1) := x][x := Node(h, s, i)], h, Inserted(s, i, x))
  {
    NodeOnRing(h, s, i);
    NodeOnRing(h, s, i + 1);
    var a, b := Node(h, s, i), Node(h, s, i + 1);
    var nx', pv', t := nx[a := x][x := b], pv[b := x][x := a], Inserted(s, i, x);
    InsertedElements(s, i, x);
    forall m, n | 0 <= m <= |t| && n == m + 1
      ensures Joined(nx', pv', Node(h, t, m), Node(h, t, n))
    {
      var o := if m <= i then m else m - 1;
      if m != i && m != i + 1 {
        assert Node(h, t, m) == Node(h, s, o) && Node(h, t, n) == Node(h, s, o + 1);
        NodesDiffer(h, s, o, i);
        NodeOnRing(h, s, o);
        NodeOnRing(h, s, o + 1);
      }
    }
  }

  // Where the nodes of the shortened ring were before.
  lemma RemovedNode(h: nat, s: seq<nat>, i: nat, m: nat)
    requires i < |s| && m <= |s|
    ensures Node(h, s[..i] + s[i + 1..], m) == Node(h, s, if m <= i then m else m + 1)
  {
  }

  lemma RemoveLinked(nx: seq<nat>, pv: seq<nat>, h: nat, s: seq<nat>, i: nat)
    requires Linked(nx, pv, h, s) && i < |s|
    ensures OnRing(h, s, Node(h, s, i)) && OnRing(h, s, Node(h, s, i + 2))
    ensures Linked(nx[Node(h, s, i) := Node(h, s, i + 2)],
                   pv[Node(h, s, i + 2) := Node(h, s, i)], h, s[..i] + s[i + 1..])
  {
    NodeOnRing(h, s, i);
    NodeOnRing(h, s, i + 2);
    var a, b := Node(h, s, i), Node(h, s, i + 2);
    var nx', pv', t := nx[a := b], pv[b := a], s[..i] + s[i + 1..];
    assert Distinct(t) && forall x: nat :: x in t ==> x in s by {
      WithoutAt(s, i);
      WithoutElements(s, s[i]);
    }
    forall m, n | 0 <= m <= |t| && n == m + 1
      ensures Joined(nx', pv', Node(h, t, m), Node(h, t, n))
    {
      var o := if m < i then m else m + 1;
      RemovedNode(h, s, i, m);
      RemovedNode(h, s, i, n);
      if m != i {
        assert Joined(nx, pv, Node(h, s, o), Node(h, s, o + 1));
        NodesDiffer(h, s, o, i);
        NodesDiffer(h, s, o, i + 1);
      }
    }
  }

  // Writes outside a ring leave it alone.
  lemma FrameLinked(nx: seq<nat>, pv: seq<nat>, nx': seq<nat>, pv': seq<nat>, h: nat, s: seq<nat>)
    requires Linked(nx, pv, h, s) && |nx'| == |nx| && |pv'| == |pv|
    requires forall x: nat :: OnRing(h, s, x) ==> nx'[x] == nx[x] && pv'[x] == pv[x]
    ensures Linked(nx', pv', h, s)
  {
    forall i, j | 0 <= i <= |s| && j == i + 1
      ensures Joined(nx', pv', Node(h, s, i), Node(h, s, j))
    {
      NodeOnRing(h, s, i);
      NodeOnRing(h, s, j);
    }
  }

  // The nodes visited in n steps along a link array, fewer if a link leaves it.
  function Walk(link: seq<nat>, x: nat, n: nat): seq<nat>
    decreases n
  {
    if n == 0 || x >= |link| then [x] else [x] + Walk(link, link[x], n - 1)
  }

  lemma {:induction false} WalkForward(nx: seq<nat>, pv: seq<nat>, h: nat, s: seq<nat>, i: nat)
    requires Linked(nx, pv, h, s) && i <= |s|
    ensures Walk(nx, Node(h, s, i), |s| + 1 - i) == ([h] + s + [h])[i..]
    decreases |s| - i
  {
    NodeOnRing(h, s, i);
    assert Joined(nx, pv, Node(h, s, i), Node(h, s, i + 1));
    assert Node(h, s, i) == ([h] + s + [h])[i];
    if i < |s| {
      WalkForward(nx, pv, h, s, i + 1);
    } else {
      assert Walk(nx, h, 0) == [h];
    }
  }

  lemma {:induction false} WalkBackward(nx: seq<nat>, pv: seq<nat>, h: nat, s: seq<nat>, i: nat)
    requires Linked(nx, pv, h, s) && 1 <= i <= |s| + 1
    ensures Walk(pv, Node(h, s, i), i) == Reverse(([h] + s + [h])[..i + 1])
    decreases i
  {
    var c := [h] + s + [h];
    assert Joined(nx, pv, Node(h, s, i - 1), Node(h, s, i));
    assert Node(h, s, i) == c[i] && Node(h, s, i - 1) == c[i - 1];
    if i > 1 {
      WalkBackward(nx, pv, h, s, i - 1);
      assert Reverse(c[..i + 1]) == [c[i]] + Reverse(c[..i]);
    } else {
      assert Walk(pv, h, 0) == [h];
    }
  }

  // Walking from the head sees exactly the contents in order and returns to the
  // head; walking backwards sees them in reverse.
  lemma WalksAgree(nx: seq<nat>, pv: seq<nat>, h: nat, s: seq<nat>)
    requires Linked(nx, pv, h, s)
    ensures Walk(nx, h, |s| + 1) == [h] + s + [h]
    ensures Walk(pv, h, |s| + 1) == [h] + Reverse(s) + [h]
  {
    WalkForward(nx, pv, h, s, 0);
    WalkBackward(nx, pv, h, s, |s| + 1);
    assert ([h] + s + [h])[..|s| + 2] == [h] + s + [h];
  }

  // Each head heads a ring and no two rings share a node.
  ghost predicate WellLinked(nx: seq<nat>, pv: seq<nat>, lists: map<nat, seq<nat>>) {
    && |nx| == |pv|
    && (forall h :: h in lists ==> Linked(nx, pv, h, lists[h]))
    && (forall g, h, x :: g in lists && h in lists && OnRing(g, lists[g], x) && OnRing(h, lists[h], x) ==> g == h)
  }

  // A node on no list; it may carry an empty ring of its own.
  ghost predicate Detached(lists: map<nat, seq<nat>>, x: nat) {
    && (forall h :: h in lists ==> x !in lists[h])
    && (x in lists ==> lists[x] == [])
  }

  lemma InsertWellLinked(nx: seq<nat>, pv: seq<nat>, lists: map<nat, seq<nat>>, h: nat, i: nat, x: nat)
    requires WellLinked(nx, pv, lists) && h in lists && h != x && i <= |lists[h]|
    requires Detached(lists, x) && x < |nx|
    ensures var s := lists[h]; var a, b := Node(h, s, i), Node(h, s, i + 1);
            a < |nx| && b < |nx|
            && WellLinked(nx[a := x][x := b], pv[b := x][x := a], (lists - {x})[h := Inserted(s, i, x)])
  {
    var s := lists[h];
    InsertLinked(nx, pv, h, s, i, x);
    var a, b := Node(h, s, i), Node(h, s, i + 1);
    var lists' := (lists - {x})[h := Inserted(s, i, x)];
    forall y ensures OnRing(h, lists'[h], y) <==> OnRing(h, s, y) || y == x {}
    forall g | g in lists' && g != h
      ensures Linked(nx[a := x][x := b], pv[b := x][x := a], g, lists'[g])
    {
      FrameLinked(nx, pv, nx[a := x][x := b], pv[b := x][x := a], g, lists[g]);
    }
  }

  lemma RemoveWellLinked(nx: seq<nat>, pv: seq<nat>, lists: map<nat, seq<nat>>, h: nat, i: nat)
    requires WellLinked(nx, pv, lists) && h in lists && i < |lists[h]|
    ensures var s := lists[h]; var a, b := Node(h, s, i), Node(h, s, i + 2);
            a < |nx| && b < |nx|
            && WellLinked(nx[a := b], pv[b := a], lists[h := Without(s, s[i])])
            && Detached(lists[h := Without(s, s[i])], s[i])
  {
    var s := lists[h];
    RemoveLinked(nx, pv, h, s, i);
    WithoutAt(s, i);
    WithoutElements(s, s[i]);
    var a, b := Node(h, s, i), Node(h, s, i + 2);
    var lists' := lists[h := Without(s, s[i])];
    assert OnRing(h, s, s[i]);
    forall g | g in lists' && g != h
      ensures Linked(nx[a := b], pv[b := a], g, lists'[g])
    {
      FrameLinked(nx, pv, nx[a := b], pv[b := a], g, lists[g]);
    }
    assert forall g :: g in lists && g != h ==> !OnRing(g, lists[g], s[i]);
  }

  class ListPool {
    const next: array<nat>
    const prev: array<nat>
    ghost var lists: map<nat, seq<nat>>

    ghost predicate Valid()
      reads this, next, prev
    {
      next != prev && WellLinked(next[..], prev[..], lists)
    }

    constructor (nodes: nat)
      ensures Valid() && lists == map[] && next.Length == nodes && prev.Length == nodes
      ensures fresh(next) && fresh(prev)
    {
      next := new nat[nodes](_ => 0);
      prev := new nat[nodes](_ => 0);
      lists := map[];
    }

    method InitHead(h: nat)
      requires Valid() && h < next.Length && Detached(lists, h)
      modifies this, next, prev
      ensures Valid() && lists == old(lists)[h := []]
    {
      ghost var nx: seq<nat>, pv: seq<nat> := next[..], prev[..];
      next[h] := h;
      prev[h] := h;
      lists := lists[h := []];
      forall g | g in lists && g != h ensures Linked(next[..], prev[..], g, lists[g]) {
        FrameLinked(nx, pv, next[..], prev[..], g, lists[g]);
      }
    }

    // Links node between two neighbours of list h, at position i.
    method InsertBetween(before: nat, after: nat, node: nat, ghost h: nat, ghost i: nat)
      requires Valid() && h in lists && h != node && i <= |lists[h]|
      requires node < next.Length && Detached(lists, node)
      requires before == Node(h, lists[h], i) && after == Node(h, lists[h], i + 1)
      modifies this, next, prev
      ensures Valid() && lists == (old(lists) - {node})[h := Inserted(old(lists[h]), i, node)]
    {
      ghost var nx: seq<nat>, pv: seq<nat> := next[..], prev[..];
      InsertWellLinked(nx, pv, lists, h, i, node);
      next[before] := node;
      prev[after] := node;
      next[node] := after;
      prev[node] := before;
      assert next[..] == nx[before := node][node := after];
      assert prev[..] == pv[after := node][node := before];
      lists := (lists - {node})[h := Inserted(lists[h], i, node)];
    }

    method InsertAfter(pos: nat, node: nat, ghost h: nat, ghost i: nat)
      requires Valid() && h in lists && h != node && i <= |lists[h]|
      requires node < next.Length && Detached(lists, node)
      requires pos == Node(h, lists[h], i)
      modifies this, next, prev
      ensures Valid() && lists == (old(lists) - {node})[h := Inserted(old(lists[h]), i, node)]
    {
      NodeOnRing(h, lists[h], i);
      InsertBetween(pos, next[pos], node, h, i);
    }

    method InsertBefore(pos: nat, node: nat, ghost h: nat, ghost i: nat)
      requires Valid() && h in lists && h != node && i <= |lists[h]|
      requires node < next.Length && Detached(lists, node)
      requires pos == Node(h, lists[h], i + 1)
      modifies this, next, prev
      ensures Valid() && lists == (old(lists) - {node})[h := Inserted(old(lists[h]), i, node)]
    {
      NodeOnRing(h, lists[h], i + 1);
      assert prev[pos] == Node(h, lists[h], i);
      InsertBetween(prev[pos], pos, node, h, i);
    }

    // Appends at the tail: insertion before the head (list_add_tail in hw3).
    method AddTail(head: nat, node: nat)
      requires Valid() && head in lists && head != node && node < next.Length && Detached(lists, node)
      modifies this, next, prev
      ensures Valid() && lists == (old(lists) - {node})[head := old(lists[head]) + [node]]
    {
      InsertBefore(head, node, head, |lists[head]|);
      assert Inserted(old(lists[head]), |old(lists[head])|, node) == old(lists[head]) + [node];
    }

    // Unlinks node from list h. The node keeps its own stale links.
    method Remove(node: nat, ghost h: nat)
      requires Valid() && h in lists && node in lists[h]
      modifies this, next, prev
      ensures Valid() && lists == old(lists)[h := Without(old(lists[h]), node)]
      ensures Detached(lists, node)
    {
      ghost var nx: seq<nat>, pv: seq<nat> := next[..], prev[..];
      ghost var s := lists[h];
      ghost var i :| 0 <= i < |s| && s[i] == node;
      RemoveWellLinked(nx, pv, lists, h, i);
      assert node == Node(h, s, i + 1) && OnRing(h, s, node);
      var before, after := prev[node], next[node];
      assert before == Node(h, s, i) && after == Node(h, s, i + 2);
      next[before] := after;
      prev[after] := before;
      assert next[..] == nx[before := after];
      assert prev[..] == pv[after := before];
      lists := lists[h := Without(lists[h], node)];
    }

    method Empty(h: nat) returns (empty: bool)
      requires Valid() && h in lists
      ensures empty <==> lists[h] == []
    {
      assert OnRing(h, lists[h], h) && Node(h, lists[h], 0) == h;
      empty := next[h] == h;
      assert next[..][h] == Node(h, lists[h], 1);
    }

    method First(h: nat) returns (x: nat)
      requires Valid() && h in lists && lists[h] != []
      ensures x == lists[h][0]
    {
      assert OnRing(h, lists[h], h) && Node(h, lists[h], 0) == h;
      x := next[h];
      assert next[..][h] == Node(h, lists[h], 1);
    }
  }
}
