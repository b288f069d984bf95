/** The singly-linked integer list: a chain of heap nodes reached from one head
    pointer, changed in place by adding and removing nodes at either end or next to
    the first node holding a value, searched by value and walked in both directions. */
module LinkedList {
  import opened ListSpec

  /** What removing an end node reports: the list was empty, or the removed value. */
  datatype Removal = EmptyList | Removed(value: int)

  /** One node of the chain: its value, fixed when the node is created, and the link
      to its successor (null at the tail). */
  class Node {
    const data: int
    var next: Node?

    constructor (data: int, next: Node?)
      ensures this.data == data && this.next == next
    {
      this.data := data;
      this.next := next;
    }
  }

  /** The nodes of a chain as a set of heap objects. */
  ghost function Objects(ns: seq<Node>): set<object>
  {
    set n | n in ns
  }

  /** No node occurs twice in `ns`. */
  ghost predicate Distinct(ns: seq<Node>)
  {
    forall i, j :: 0 <= i < j < |ns| ==> ns[i] != ns[j]
  }

  /** The node that follows position `i` of `ns`, null after the last one. */
  ghost function Succ(ns: seq<Node>, i: nat): Node?
  {
    if i + 1 < |ns| then ns[i + 1] else null
  }

  /** Each node of `ns` links to the next one, and the last one to null. */
  ghost predicate Chained(ns: seq<Node>)
    reads ns
  {
    forall i {:trigger ns[i].next} :: 0 <= i < |ns| ==> ns[i].next == Succ(ns, i)
  }

  /** The values the nodes of `ns` hold, in chain order. */
  ghost function Values(ns: seq<Node>): seq<int>
  {
    seq(|ns|, i requires 0 <= i < |ns| => ns[i].data)
  }

  /** Linking a node `t` in at position `k` of a chain: when every other link is as
      before, the node before position `k` now links to `t` and `t` links to the
      node that was at `k`, the longer sequence is a chain again. */
  lemma LinkedIn(ns: seq<Node>, k: nat, t: Node)
    requires k <= |ns|
    requires forall i {:trigger ns[i].next} :: 0 <= i < |ns| && i != k - 1 ==> ns[i].next == Succ(ns, i)
    requires k > 0 ==> ns[k - 1].next == t
    requires t.next == (if k < |ns| then ns[k] else null)
    ensures Chained(ns[..k] + [t] + ns[k..])
  {
  }

  /** Unlinking the node at position `k` of a chain: when every other link is as
      before and the node before it now links to the node after it, the shorter
      sequence is a chain again. */
  lemma LinkedPast(ns: seq<Node>, k: nat)
    requires k < |ns|
    requires forall i {:trigger ns[i].next} :: 0 <= i < |ns| && i != k - 1 && i != k ==> ns[i].next == Succ(ns, i)
    requires k > 0 ==> ns[k - 1].next == Succ(ns, k)
    ensures Chained(ns[..k] + ns[k + 1..])
  {
  }

  /** Placing a node that is not yet in the chain at position `k`: the nodes stay
      distinct, they hold the values with the new node's value placed at `k`, and
      exactly that node joins the footprint. */
  lemma SplicedIn(ns: seq<Node>, k: nat, t: Node)
    requires k <= |ns| && Distinct(ns) && t !in ns
    ensures Values(ns[..k] + [t] + ns[k..]) == Spliced(Values(ns), k, t.data)
    ensures Distinct(ns[..k] + [t] + ns[k..])
    ensures Objects(ns[..k] + [t] + ns[k..]) == Objects(ns) + {t}
  {
  }

  /** Taking out the node at position `k`: the others stay distinct, they hold the
      values without the one at `k`, and exactly that node leaves the footprint. */
  lemma SplicedOut(ns: seq<Node>, k: nat)
    requires k < |ns| && Distinct(ns)
    ensures Values(ns[..k] + ns[k + 1..]) == Without(Values(ns), k)
    ensures Distinct(ns[..k] + ns[k + 1..])
    ensures Objects(ns[..k] + ns[k + 1..]) == Objects(ns) - {ns[k]}
  {
  }

  /** The list object that holds the head pointer. */
  class List {
    var root: Node?

    // the nodes of the chain, head first
    ghost var nodes: seq<Node>

    /** The values of the list, head first. */
    ghost function Contents(): seq<int>
      reads this
    {
      Values(nodes)
    }

    /** The footprint: this object and every node of the chain, and nothing else. */
    ghost function Repr(): set<object>
      reads this
    {
      {this} + Objects(nodes)
    }

    /** The object invariant: `root` starts the chain, each node links to the next
        one and the tail to null, and no node occurs twice, so the chain is acyclic
        and finite. */
    ghost predicate Valid()
      reads this, Repr()
    {
      root == (if nodes == [] then null else nodes[0]) &&
      Chained(nodes) &&
      Distinct(nodes)
    }

    /** The list starts with no head. */
    constructor ()
      ensures Valid() && fresh(Repr())
      ensures Contents() == [] && root == null
    {
      root := null;
      nodes := [];
    }

    /** Appends a node holding `d` after the current tail, found by walking the chain;
        the existing nodes stay where they are. */
    method AddLast(d: int)
      requires Valid()
      modifies Repr()
      ensures Valid() && fresh(Repr() - old(Repr()))
      ensures Contents() == old(Contents()) + [d]
      ensures nodes == old(nodes) + [nodes[|nodes| - 1]] && fresh(nodes[|nodes| - 1])
      ensures old(root) == null ==> root != null && root.data == d && root.next == null
      ensures old(root) != null ==> root == old(root)
    {
      var tmp := new Node(d, null);
      if root == null {
        root := tmp;
      } else {
        var curr := root;
        ghost var k := 0;
        while curr.next != null
          invariant 0 <= k < |nodes| && curr == nodes[k]
          decreases |nodes| - k
          modifies {}
        {
          curr := curr.next;
          k := k + 1;
        }
        curr.next := tmp;
      }
      ghost var ns, vs, n := nodes, Values(nodes), |nodes|;
      assert ns[..n] + [tmp] + ns[n..] == ns + [tmp];
      assert Spliced(vs, n, d) == vs + [d];
      nodes := ns + [tmp];
      LinkedIn(ns, n, tmp);
      SplicedIn(ns, n, tmp);
    }

    /** Removes the tail node and reports its value; an empty list is left as it is.
        With a single node the list becomes empty; otherwise the node before the tail
        becomes the tail. */
    method RemoveLast() returns (r: Removal)
      requires Valid()
      modifies Repr()
      ensures Valid()
      ensures old(Contents()) == [] ==>
                r == EmptyList && Contents() == [] && Repr() == old(Repr()) && unchanged(Repr())
      ensures old(Contents()) != [] ==>
                r == Removed(old(Contents())[|old(Contents())| - 1]) &&
                Contents() == old(Contents())[..|old(Contents())| - 1] &&
                nodes == old(nodes)[..|old(nodes)| - 1] &&
                Repr() == old(Repr()) - {old(nodes)[|old(nodes)| - 1]}
      ensures |old(Contents())| == 1 ==> root == null
    {
      var curr := root;
      var prv: Node? := null;
      if curr == null {
        return EmptyList;
      } else if curr.next == null {
        r := Removed(curr.data);
        root := null;
      } else {
        ghost var k := 0;
        while curr.next != null
          invariant 0 <= k < |nodes| && curr == nodes[k]
          invariant k > 0 ==> prv == nodes[k - 1]
          decreases |nodes| - k
          modifies {}
        {
          prv := curr;
          curr := curr.next;
          k := k + 1;
        }
        r := Removed(curr.data);
        prv.next := null;
      }
      ghost var ns, vs, n := nodes, Values(nodes), |nodes| - 1;
      assert ns[..n] + ns[n + 1..] == ns[..n];
      assert Without(vs, n) == vs[..n];
      nodes := ns[..n];
      LinkedPast(ns, n);
      SplicedOut(ns, n);
    }

    /** Prepends a node holding `d`, linked to the old head, which it replaces. */
    method AddBegin(d: int)
      requires Valid()
      modifies Repr()
      ensures Valid() && fresh(Repr() - old(Repr()))
      ensures Contents() == [d] + old(Contents())
      ensures nodes == [root] + old(nodes) && fresh(root)
      ensures root != null && root.data == d && root.next == old(root)
    {
      var tmp := new Node(d, null);
      if root == null {
        root := tmp;
        root.next := null;
      } else {
        tmp.next := root;
        root := tmp;
      }
      ghost var ns, vs := nodes, Values(nodes);
      assert ns[..0] + [tmp] + ns[0..] == [tmp] + ns;
      assert Spliced(vs, 0, d) == [d] + vs;
      nodes := [tmp] + ns;
      LinkedIn(ns, 0, tmp);
      SplicedIn(ns, 0, tmp);
    }

    /** Detaches the head node and reports its value; an empty list is left as it is.
        The head advances to the second node, or to null for a single node; no link
        of any node changes. */
    method RemoveBegin() returns (r: Removal)
      requires Valid()
      modifies this
      ensures Valid()
      ensures old(Contents()) == [] ==>
                r == EmptyList && Contents() == [] && Repr() == old(Repr()) && unchanged(this)
      ensures old(Contents()) != [] ==>
                r == Removed(old(Contents())[0]) && Contents() == old(Contents())[1..] &&
                nodes == old(nodes)[1..] && root == old(root.next) &&
                Repr() == old(Repr()) - {old(root)}
    {
      if root == null {
        return EmptyList;
      } else if root.next == null {
        r := Removed(root.data);
        root := null;
      } else {
        r := Removed(root.data);
        root := root.next;
      }
      ghost var ns, vs := nodes, Values(nodes);
      assert ns[..0] + ns[1..] == ns[1..];
      assert Without(vs, 0) == vs[1..];
      nodes := ns[1..];
      LinkedPast(ns, 0);
      SplicedOut(ns, 0);
    }

    /** Searches from the head for the first node holding `d` and reports -1 when the
        list is empty, -2 when no node holds `d`, and otherwise that node's 1-based
        index. */
    method FindIndex(d: int) returns (index: int)
      requires Valid()
      ensures index == -1 <==> Contents() == []
      ensures index == -2 <==> Contents() != [] && d !in Contents()
      ensures index == -1 || index == -2 || 1 <= index <= |Contents()|
      ensures index >= 1 ==>
                Contents()[index - 1] == d &&
                forall j :: 0 <= j < index - 1 ==> Contents()[j] != d
      ensures index == IndexOf(Contents(), d)
    {
      index := 1;
      var curr := root;
      if curr == null {
        return -1;
      } else if curr.next == null {
        if curr.data == d {
          FirstIndexUnique(Contents(), d, 0);
          return index;
        }
        FirstIndexUnique(Contents(), d, 1);
        return -2;
      } else {
        while true
          invariant 1 <= index <= |nodes| && curr == nodes[index - 1]
          invariant forall j :: 0 <= j < index - 1 ==> Contents()[j] != d
          decreases |nodes| - index
        {
          if curr.data == d {
            FirstIndexUnique(Contents(), d, index - 1);
            return index;
          }
          if curr.next == null {
            break;
          }
          curr := curr.next;
          index := index + 1;
        }
        FirstIndexUnique(Contents(), d, |Contents()|);
        return -2;
      }
    }

    /** Removes the first node holding `d` and reports the search result for `d`.
        Removing the head advances `root` (or clears it for a single node); otherwise
        the predecessor is linked past the removed node. When the search fails the
        list is left as it is. */
    method FindAndRemove(d: int) returns (index: int)
      requires Valid()
      modifies Repr()
      ensures Valid()
      ensures index == IndexOf(old(Contents()), d)
      ensures index == -1 <==> old(Contents()) == []
      ensures index == -2 <==> old(Contents()) != [] && d !in old(Contents())
      ensures index >= 1 ==>
                Contents() == Without(old(Contents()), index - 1) &&
                nodes == old(nodes)[..index - 1] + old(nodes)[index..] &&
                Repr() == old(Repr()) - {old(nodes)[index - 1]}
      ensures index == 1 ==> root == old(root.next)
      ensures index < 1 ==> Contents() == old(Contents()) && Repr() == old(Repr()) && unchanged(Repr())
    {
      index := FindIndex(d);
      if index == -1 {
        return;
      } else if index == -2 {
        return;
      } else if index == 1 {
        if root.next == null {
          root := null;
        } else {
          root := root.next;
        }
      } else {
        var i := 1;
        var prv: Node? := null;
        var curr := root;
        while i < index
          invariant 1 <= i <= index && curr == nodes[i - 1]
          invariant i > 1 ==> prv == nodes[i - 2]
          modifies {}
        {
          prv := curr;
          curr := curr.next;
          i := i + 1;
        }
        prv.next := curr.next;
      }
      ghost var ns, k := nodes, index - 1;
      nodes := ns[..k] + ns[k + 1..];
      LinkedPast(ns, k);
      SplicedOut(ns, k);
    }

    /** Finds the first node holding `s` and links a new node holding `d` right after
        it, reporting the search result for `s`. When the search fails the list is
        left as it is. */
    method InsertAfter(s: int, d: int) returns (index: int)
      requires Valid()
      modifies Repr()
      ensures Valid() && fresh(Repr() - old(Repr()))
      ensures index == IndexOf(old(Contents()), s)
      ensures index == -1 <==> old(Contents()) == []
      ensures index == -2 <==> old(Contents()) != [] && s !in old(Contents())
      ensures index >= 1 ==>
                Contents() == Spliced(old(Contents()), index, d) &&
                nodes == old(nodes)[..index] + [nodes[index]] + old(nodes)[index..] &&
                fresh(nodes[index])
      ensures index >= 1 ==> root == old(root)
      ensures index < 1 ==> Contents() == old(Contents()) && Repr() == old(Repr()) && unchanged(Repr())
    {
      index := FindIndex(s);
      if index == -1 {
        return;
      } else if index == -2 {
        return;
      }
      var tmp: Node;
      if index == 1 {
        tmp := new Node(d, null);
        if root.next == null {
          root.next := tmp;
        } else {
          tmp.next := root.next;
          root.next := tmp;
        }
      } else {
        var i := 1;
        var curr := root;
        tmp := new Node(d, null);
        while i < index
          invariant 1 <= i <= index && curr == nodes[i - 1]
          modifies {}
        {
          curr := curr.next;
          i := i + 1;
        }
        tmp.next := curr.next;
        curr.next := tmp;
      }
      ghost var ns, k := nodes, index;
      nodes := ns[..k] + [tmp] + ns[k..];
      LinkedIn(ns, k, tmp);
      SplicedIn(ns, k, tmp);
    }

    /** Finds the first node holding `s` and links a new node holding `d` right before
        it, reporting the search result for `s`. Before the head, the new node becomes
        the head; otherwise the predecessor is linked to it. When the search fails the
        list is left as it is. */
    method InsertBefore(s: int, d: int) returns (index: int)
      requires Valid()
      modifies Repr()
      ensures Valid() && fresh(Repr() - old(Repr()))
      ensures index == IndexOf(old(Contents()), s)
      ensures index == -1 <==> old(Contents()) == []
      ensures index == -2 <==> old(Contents()) != [] && s !in old(Contents())
      ensures index >= 1 ==>
                Contents() == Spliced(old(Contents()), index - 1, d) &&
                nodes == old(nodes)[..index - 1] + [nodes[index - 1]] + old(nodes)[index - 1..] &&
                fresh(nodes[index - 1])
      ensures index == 1 ==> root != null && root.data == d && root.next == old(root)
      ensures index > 1 ==> root == old(root)
      ensures index < 1 ==> Contents() == old(Contents()) && Repr() == old(Repr()) && unchanged(Repr())
    {
      index := FindIndex(s);
      if index == -1 {
        return;
      } else if index == -2 {
        return;
      }
      var tmp: Node;
      if index == 1 {
        tmp := new Node(d, root);
        root := tmp;
      } else {
        var i := 1;
        var prv: Node? := null;
        var curr := root;
        tmp := new Node(d, null);
        while i < index
          invariant 1 <= i <= index && curr == nodes[i - 1]
          invariant i > 1 ==> prv == nodes[i - 2]
          modifies {}
        {
          prv := curr;
          curr := curr.next;
          i := i + 1;
        }
        tmp.next := curr;
        prv.next := tmp;
      }
      ghost var ns, k := nodes, index - 1;
      nodes := ns[..k] + [tmp] + ns[k..];
      LinkedIn(ns, k, tmp);
      SplicedIn(ns, k, tmp);
    }

    /** Walks the chain from the head to the tail and returns the values met, one per
        node, in list order; `visited` is the nodes met, each exactly once. */
    method ForwardWalk() returns (values: seq<int>, ghost visited: seq<Node>)
      requires Valid()
      ensures values == Contents()
      ensures visited == nodes
    {
      values, visited := [], [];
      if root == null {
        return;
      }
      var curr := root;
      while true
        invariant |values| < |nodes| && curr == nodes[|values|]
        invariant values == Contents()[..|values|] && visited == nodes[..|values|]
        decreases |nodes| - |values|
      {
        values, visited := values + [curr.data], visited + [curr];
        if curr.next == null {
          break;
        }
        curr := curr.next;
      }
    }

    /** Recursively walks the chain from `n`, node `k` of the list, to the tail, and
        returns the values on the way back: those after `n` in reverse order, then
        `n`'s own. Called with `root` and 0, it gives the whole list reversed. */
    method ReverseWalk(n: Node?, ghost k: nat) returns (values: seq<int>)
      requires Valid()
      requires k <= |nodes| && n == (if k < |nodes| then nodes[k] else null)
      ensures values == Reversed(Contents()[k..])
      decreases |nodes| - k
    {
      if n == null {
        values := [];
      } else {
        var rest := ReverseWalk(n.next, k + 1);
        assert Contents()[k..][1..] == Contents()[k + 1..];
        values := rest + [n.data];
      }
    }
  }

  /** A client session: pushes at both ends, with what the contracts above let a
      menu-driven caller conclude about the result. */
  method PushSession() returns (list: List)
    ensures list.Valid() && list.Contents() == [5, 10, 20]
  {
    list := new List();
    list.AddLast(10);
    list.AddLast(20);
    list.AddBegin(5);
  }

  /** A client session continued: both walks over the list that `PushSession` built. */
  method WalkSession(list: List)
    requires list.Valid() && list.Contents() == [5, 10, 20]
  {
    var forward, _ := list.ForwardWalk();
    assert forward == [5, 10, 20];
    var backward := list.ReverseWalk(list.root, 0);
    assert list.Contents()[0..] == [5, 10, 20];
    assert Reversed([20]) == [20] by {
      assert [20][1..] == [];
    }
    assert Reversed([10, 20]) == [20, 10] by {
      assert [10, 20][1..] == [20];
    }
    assert Reversed([5, 10, 20]) == [20, 10, 5] by {
      assert [5, 10, 20][1..] == [10, 20];
    }
    assert backward == [20, 10, 5];
  }

  /** A client session continued: an insertion after a value. */
  method InsertSession(list: List)
    requires list.Valid() && list.Contents() == [5, 10, 20]
    modifies list.Repr()
  {
    var at := list.InsertAfter(10, 15);
    assert at == 2 by {
      FirstIndexUnique([5, 10, 20], 10, 1);
    }
    assert list.Contents() == [5, 10, 15, 20];
  }

  /** A client session continued: the removal of a value, and a removal that finds
      nothing. */
  method RemoveSession(list: List)
    requires list.Valid() && list.Contents() == [5, 10, 15, 20]
    modifies list.Repr()
  {
    var removedAt := list.FindAndRemove(10);
    assert removedAt == 2 by {
      FirstIndexUnique([5, 10, 15, 20], 10, 1);
    }
    assert list.Contents() == [5, 15, 20];
    var missing := list.FindAndRemove(99);
    assert missing == -2 by {
      FirstIndexUnique([5, 15, 20], 99, 3);
    }
    assert list.Contents() == [5, 15, 20];
  }

  /** A client session on a single node: removing it from the tail empties the list,
      and a removal from the head then reports the empty list. */
  method PopSession() {
    var list := new List();
    list.AddLast(5);
    var last := list.RemoveLast();
    assert last == Removed(5) && list.Contents() == [] && list.root == null;
    var first := list.RemoveBegin();
    assert first == EmptyList;
  }
}
