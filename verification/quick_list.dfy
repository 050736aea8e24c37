/** QuickList of the Windows libusb emulation: an intrusive doubly linked list between two sentinels. */
module QuickLists {
  class Node {
    var prev: Node?
    var next: Node?
    var list: QuickList?

    constructor ()
      ensures prev == null && next == null && list == null
    {
      prev, next, list := null, null, null;
    }
  }

  /** The sequence without its i-th element. */
  function Without<T>(s: seq<T>, i: nat): seq<T>
    requires i < |s|
  {
    s[..i] + s[i + 1..]
  }

  lemma CutOut<T>(s: seq<T>, i: nat)
    requires i < |s| && forall j, k :: 0 <= j < k < |s| ==> s[j] != s[k]
    ensures var d := Without(s, i);
      |d| == |s| - 1 && (forall k :: 0 <= k < |d| ==> d[k] == if k < i then s[k] else s[k + 1])
      && forall j, k :: 0 <= j < k < |d| ==> d[j] != d[k]
  {
  }

  lemma ChainWithout<T>(a: T, s: seq<T>, e: T, i: nat)
    requires i < |s|
    ensures [a] + Without(s, i) + [e] == Without([a] + s + [e], i + 1)
    ensures |Without(s, i)| == |s| - 1
    ensures forall k :: 0 <= k < |s| - 1 ==> Without(s, i)[k] == s[if k < i then k else k + 1]
  {
  }

  lemma OnlyThere<T>(s: seq<T>, i: nat)
    requires i < |s| && forall j, k :: 0 <= j < k < |s| ==> s[j] != s[k]
    ensures forall k :: 0 <= k < |s| ==> (s[k] == s[i] <==> k == i)
  {
  }

  /** Different nodes, each linked to its neighbours in both directions. */
  ghost predicate Linked(chain: seq<Node>)
    reads chain
  {
    && (forall i, j :: 0 <= i < j < |chain| ==> chain[i] != chain[j])
    && (forall k :: 0 < k < |chain| ==> chain[k].prev == chain[k - 1])
    && (forall k :: 0 <= k < |chain| - 1 ==> chain[k].next == chain[k + 1])
  }

  /** The i-th node's links lead round the one behind it: then the others are linked up. */
  lemma Bypassed(c: seq<Node>, i: nat)
    requires i + 2 < |c| && forall j, k :: 0 <= j < k < |c| ==> c[j] != c[k]
    requires c[i].next == c[i + 2] && c[i + 2].prev == c[i]
    requires forall k :: 0 < k < |c| && k != i + 1 && k != i + 2 ==> c[k].prev == c[k - 1]
    requires forall k :: 0 <= k < |c| - 1 && k != i && k != i + 1 ==> c[k].next == c[k + 1]
    ensures Linked(Without(c, i + 1))
  {
    var d := Without(c, i + 1);
    CutOut(c, i + 1);
    hide Without;
    forall k | 0 < k < |d| ensures d[k].prev == d[k - 1] && d[k - 1].next == d[k] {
      assert d[k - 1] == if k <= i + 1 then c[k - 1] else c[k];
    }
  }

  class QuickList {
    const ini: Node
    const end: Node
    ghost var nodes: seq<Node>

    /** The nodes between the sentinels. */
    ghost function Chain(): (c: seq<Node>)
      reads this
      ensures |c| == |nodes| + 2 && c[0] == ini && c[|nodes| + 1] == end
      ensures forall k :: 0 < k <= |nodes| ==> c[k] == nodes[k - 1]
    {
      [ini] + nodes + [end]
    }

    /** The sequence is linked up, and every node of it, and neither sentinel, names this list. */
    ghost predicate Valid()
      reads this, ini, end, nodes
    {
      && Linked(Chain()) && ini.prev == null && end.next == null && ini.list == null && end.list == null
      && forall i :: 0 <= i < |nodes| ==> nodes[i].list == this
    }

    /** Only a node of the list names it. */
    ghost predicate Knows(node: Node)
      reads this, node
    {
      node != ini && node != end && (node.list == this ==> node in nodes)
    }

    constructor ()
      ensures Valid() && nodes == [] && fresh(ini) && fresh(end)
    {
      ini := new Node();
      end := new Node();
      nodes := [];
      new;
      ini.next, end.prev := end, ini;
    }

    method Empty() returns (r: bool)
      requires Valid()
      ensures r <==> nodes == []
    {
      assert Chain()[0].next == Chain()[1];
      r := ini.next == end;
    }

    method Head() returns (head: Node?)
      requires Valid()
      ensures head == if nodes == [] then null else nodes[0]
    {
      head := null;
      var empty := Empty();
      if !empty {
        assert Chain()[0].next == Chain()[1];
        head := ini.next;
      }
    }

    method Last() returns (last: Node?)
      requires Valid()
      ensures last == if nodes == [] then null else nodes[|nodes| - 1]
    {
      last := null;
      var empty := Empty();
      if !empty {
        assert Chain()[|nodes| + 1].prev == Chain()[|nodes|];
        last := end.prev;
      }
    }

    method Member(node: Node) returns (r: bool)
      requires Valid() && Knows(node)
      ensures r <==> node in nodes
    {
      r := node.list == this;
    }

    /** Prev, of a node of this list. */
    method Prev(node: Node, ghost i: nat) returns (r: Node?)
      requires Valid() && i < |nodes| && nodes[i] == node
      ensures r == if i == 0 then null else nodes[i - 1]
    {
      ghost var c := Chain();
      assert c[i + 1] == node && c[i + 1].prev == c[i];
      r := null;
      var p := node.prev;
      if p != null && p.prev != null {
        r := node.prev;
      }
      assert i > 0 ==> c[i].prev == c[i - 1];
    }

    /** Next, of a node of this list. */
    method Next(node: Node, ghost i: nat) returns (r: Node?)
      requires Valid() && i < |nodes| && nodes[i] == node
      ensures r == if i + 1 == |nodes| then null else nodes[i + 1]
    {
      ghost var c := Chain();
      assert c[i + 1] == node && c[i + 1].next == c[i + 2];
      r := null;
      var n := node.next;
      if n != null && n.next != null {
        r := node.next;
      }
      assert i + 1 < |nodes| ==> c[i + 2].next == c[i + 3];
    }

    /** The unlinking half of Remove. */
    method Unlink(node: Node, ghost i: nat)
      requires Valid() && i < |nodes| && nodes[i] == node
      modifies this`nodes, ini`next, end`prev, nodes`prev, nodes`next, node`list
      ensures Valid() && nodes == Without(old(nodes), i)
      ensures node.prev == null && node.next == null && node.list == null
    {
      hide Without;
      ghost var c := Chain();
      assert c[i + 1] == node;
      var p, n := node.prev, node.next;
      assert p == c[i] && n == c[i + 2];
      OnlyThere(c, i);
      OnlyThere(c, i + 1);
      OnlyThere(c, i + 2);
      p.next := n;
      n.prev := p;
      node.prev, node.next, node.list := null, null, null;
      nodes := Without(nodes, i);
      ChainWithout(ini, old(nodes), end, i);
      Bypassed(c, i);
      forall k | 0 <= k < |nodes| ensures nodes[k].list == this {
        assert nodes[k] == if k + 1 <= i then c[k + 1] else c[k + 2];
      }
      assert c[0] == ini && c[|c| - 1] == end;
    }

    /** Nothing happens to a node that is not in the list. */
    method Remove(node: Node) returns (r: bool)
      requires Valid() && Knows(node)
      modifies this`nodes, ini`next, end`prev, nodes`prev, nodes`next, nodes`list
      ensures Valid() && (r <==> node in old(nodes))
      ensures r ==>
        node.list == null &&
        exists i :: 0 <= i < |old(nodes)| && old(nodes)[i] == node && nodes == Without(old(nodes), i)
      ensures !r ==> nodes == old(nodes)
    {
      if node.list != this {
        return false;
      }
      ghost var i :| 0 <= i < |nodes| && nodes[i] == node;
      Unlink(node, i);
      r := true;
    }

    /** The linking half of Append. */
    method Link(node: Node)
      requires Valid() && node != ini && node != end && node !in nodes
      modifies this`nodes, end`prev, ini`next, nodes`next, node
      ensures Valid() && nodes == old(nodes) + [node]
    {
      ghost var c, n := Chain(), |nodes|;
      assert c[n + 1].prev == c[n];
      end.prev.next := node;
      node.prev := end.prev;
      node.next := end;
      end.prev := node;
      node.list := this;
      nodes := nodes + [node];
      assert forall k :: 0 <= k < |Chain()| ==> Chain()[k] == if k <= n then c[k] else if k == n + 1 then node else end;
    }

    /** Append: the node is last afterwards, wherever in this list it was before. */
    method Append(node: Node)
      requires Valid() && Knows(node)
      modifies this`nodes, ini`next, end`prev, nodes`prev, nodes`next, nodes`list, node
      ensures Valid() && node.list == this
      ensures node !in old(nodes) ==> nodes == old(nodes) + [node]
      ensures node in old(nodes) ==>
        exists i :: 0 <= i < |old(nodes)| && old(nodes)[i] == node && nodes == Without(old(nodes), i) + [node]
    {
      if node.list != null {
        var _ := Remove(node);
      }
      NotTwice(node);
      Link(node);
      assert nodes[|nodes| - 1] == node;
    }

    /** Neither a removed node nor a stranger is in the list. */
    lemma NotTwice(node: Node)
      requires Valid() && node.list != this
      ensures node !in nodes
    {
    }

    lemma OnlyOnce()
      requires Valid() && nodes != []
      ensures nodes[0] != ini && nodes[0] != end && forall i :: 0 < i < |nodes| ==> nodes[i] != nodes[0]
    {
      assert forall i :: 0 <= i < |nodes| ==> Chain()[i + 1] == nodes[i];
    }

    /** The body of the drain loop. */
    method DropHead()
      requires Valid() && nodes != []
      modifies this`nodes, ini`next, end`prev, nodes`prev, nodes`next, nodes`list
      ensures Valid() && nodes == old(nodes)[1..]
      ensures old(nodes)[0].list == null && forall n :: n in old(nodes) && n.list != null ==> n.list == this
    {
      hide Linked;
      var transfer := Head();
      assert transfer in nodes && transfer.list == this;
      OnlyOnce();
      var _ := Remove(transfer);
      assert forall i :: 0 < i < |old(nodes)| ==> old(nodes)[i] in nodes;
    }

    /** The drain loop of libusbemu_unregister_device: every node leaves, and is an orphan then. */
    method Drain()
      requires Valid()
      modifies this`nodes, ini`next, end`prev, nodes`prev, nodes`next, nodes`list
      ensures Valid() && nodes == [] && forall n :: n in old(nodes) ==> n.list == null
    {
      hide Linked;
      ghost var all, gone := nodes, 0;
      var empty := Empty();
      while !empty
        invariant Valid() && (empty <==> nodes == [])
        invariant 0 <= gone <= |all| && nodes == all[gone..]
        invariant forall i :: 0 <= i < gone ==> all[i].list == null
        decreases |nodes|
      {
        DropHead();
        gone := gone + 1;
        empty := Empty();
      }
    }
  }

  /** Appending a node breaks another list exactly when that list holds it: only an orphan, or a node of
      the list itself, may be appended. */
  method AppendBesides(a: QuickList, b: QuickList, node: Node)
    requires a.Valid() && b.Valid() && a.Knows(node) && a != b
    requires {a.ini, a.end} !! {b.ini, b.end} && node !in {b.ini, b.end}
    modifies a, a.ini, a.end, a.nodes, node
    ensures a.Valid() && node.list == a && b.nodes == old(b.nodes)
    ensures b.Valid() <==> node !in b.nodes
  {
    hide Linked;
    assert forall n :: n in a.nodes ==> n.list == a;
    assert forall n :: n in b.nodes ==> n.list == b;
    assert forall n :: n in b.Chain() ==> n in b.nodes || n == b.ini || n == b.end;
    a.Append(node);
    assert node in b.nodes ==> exists i :: 0 <= i < |b.nodes| && b.nodes[i] == node;
  }
}
