/**
 * The recency queue: a doubly-linked list whose head (`first`) is the most
 * recently used node and whose tail (`last`) is the least recently used one.
 * Items are always added at the head; using or updating an item moves its
 * node to the head; eviction drops the tail.
 */
module Recency {

  /** A position of `x` in `s` (with distinct elements, the only one). */
  ghost function IndexOf<X>(s: seq<X>, x: X): (i: nat)
    requires x in s
    ensures i < |s| && s[i] == x
  {
    var i :| 0 <= i < |s| && s[i] == x; i
  }

  /** No element of `s` occurs twice. */
  ghost predicate Distinct<X>(s: seq<X>) {
    forall i, j :: 0 <= i < j < |s| ==> s[i] != s[j]
  }

  /** `s` without its element at position `i`. */
  ghost function RemoveAt<X>(s: seq<X>, i: nat): (r: seq<X>)
    requires i < |s|
    ensures |r| == |s| - 1
  {
    s[..i] + s[i + 1..]
  }

  /** Where each element of `RemoveAt(s, i)` comes from, and that removing keeps `s` distinct. */
  lemma RemoveAtAt<X>(s: seq<X>, i: nat)
    requires i < |s|
    ensures forall j :: 0 <= j < i ==> RemoveAt(s, i)[j] == s[j]
    ensures forall j :: i <= j < |s| - 1 ==> RemoveAt(s, i)[j] == s[j + 1]
    ensures Distinct(s) ==> Distinct(RemoveAt(s, i)) && s[i] !in RemoveAt(s, i)
    ensures forall x :: x in RemoveAt(s, i) ==> x in s
  {
    var r := RemoveAt(s, i);
    assert forall j :: 0 <= j < i ==> r[j] == s[j];
    assert forall j :: i <= j < |s| - 1 ==> r[j] == s[j + 1];
    if Distinct(s) {
      forall a, b | 0 <= a < b < |r| ensures r[a] != r[b] {
        var a' := if a < i then a else a + 1;
        var b' := if b < i then b else b + 1;
        assert r[a] == s[a'] && r[b] == s[b'];
      }
      forall j | 0 <= j < |r| ensures r[j] != s[i] {
        var j' := if j < i then j else j + 1;
        assert r[j] == s[j'];
      }
    }
  }

  /** `s` with its element at position `i` moved to the front. */
  ghost function MoveToFront<X>(s: seq<X>, i: nat): (r: seq<X>)
    requires i < |s|
    ensures |r| == |s| && r[0] == s[i]
  {
    [s[i]] + RemoveAt(s, i)
  }

  /**
   * A node being spliced out of the queue, with its position and its
   * neighbours before the splice.
   */
  datatype Splice<T> = Splice(node: Node<T>, i: nat, pred: Node<T>, succ: Node?<T>)

  /** Consecutive nodes of `ns` link to each other, forwards and backwards. */
  ghost predicate Chained<T>(ns: seq<Node<T>>)
    reads ns
  {
    && (forall i {:trigger ns[i].previous} :: 0 < i < |ns| ==> ns[i].previous == ns[i - 1])
    && (forall i {:trigger ns[i].next} :: 0 <= i < |ns| - 1 ==> ns[i].next == ns[i + 1])
  }

  /** A node of the queue: an item and the links to its neighbours. */
  class Node<T> {
    var nodeItem: T
    var next: Node?<T>
    var previous: Node?<T>

    constructor (value: T, previous: Node?<T>, next: Node?<T>)
      ensures nodeItem == value && this.previous == previous && this.next == next
    {
      nodeItem := value;
      this.previous := previous;
      this.next := next;
    }

    /**
     * Splices this node out of the list: its former neighbours now point at
     * each other, and both of its own links are cleared.
     */
    method Detach()
      modifies this`next, this`previous, ({previous} - {null})`next, ({next} - {null})`previous
      ensures next == null && previous == null
      ensures old(previous) != null && old(previous) != this ==> old(previous).next == old(next)
      ensures old(next) != null && old(next) != this ==> old(next).previous == old(previous)
    {
      if previous != null {
        previous.next := next;
      }
      if next != null {
        next.previous := previous;
      }
      next := null;
      previous := null;
    }
  }

  class RecencyQueue<T> {
    var currentSize: int
    var first: Node?<T>
    var last: Node?<T>

    /** The live nodes, from most recently used (head) to least recently used (tail). */
    ghost var Nodes: seq<Node<T>>
    /** The items of the live nodes, in the same order. */
    ghost var Contents: seq<T>
    /** Every node ever linked into this queue, live or evicted. */
    ghost var Repr: set<Node<T>>

    /**
     * The link structure: `previous` links lead from `last` back to `first`
     * through exactly the nodes of `Nodes`, `next` links lead forward from
     * `first` to `last`, and `first.previous` is null. The tail's `next` is
     * only known to be null or an evicted node: eviction does not clear it.
     */
    ghost predicate Linked()
      reads this, Repr
    {
      && (forall i :: 0 <= i < |Nodes| ==> Nodes[i] in Repr)
      && Distinct(Nodes)
      && |Contents| == |Nodes|
      && (forall i :: 0 <= i < |Nodes| ==> Nodes[i].nodeItem == Contents[i])
      && (Nodes == [] ==> first == null && last == null)
      && (Nodes != [] ==>
            && first == Nodes[0] && last == Nodes[|Nodes| - 1]
            && first.previous == null
            && (last.next == null || (last.next in Repr && last.next !in Nodes)))
      && Chained(Nodes)
    }

    /** The queue invariant: the links, and a size counter that agrees with them. */
    ghost predicate Valid()
      reads this, Repr
    {
      Linked() && currentSize == |Nodes|
    }

    /** The tail has no successor, as a doubly-linked list is meant to have. */
    ghost predicate Tidy()
      reads this, ({last} - {null})
    {
      last != null ==> last.next == null
    }

    constructor ()
      ensures Valid() && Tidy()
      ensures Nodes == [] && Contents == [] && Repr == {}
      ensures currentSize == 0 && first == null && last == null
    {
      currentSize := 0;
      first := null;
      last := null;
      Nodes := [];
      Contents := [];
      Repr := {};
    }

    /** Pushes a fresh node holding `item` at the head of the queue. */
    method Add(item: T) returns (node: Node<T>)
      requires Valid()
      modifies this, Repr`next, Repr`previous
      ensures Valid() && fresh(node) && Repr == old(Repr) + {node}
      ensures Nodes == [node] + old(Nodes) && Contents == [item] + old(Contents)
      ensures first == node && (old(Nodes) == [] ==> last == node)
      ensures currentSize == old(currentSize) + 1
      ensures old(Tidy()) ==> Tidy()
    {
      node := new Node(item, null, null);
      assert node !in Nodes;
      Repr := Repr + {node};
      if last == null || first == null {
        first := node;
        last := first;
        Nodes := [node];
        Contents := [item];
      }
      assert Linked();
      SetMRU(node);
      currentSize := currentSize + 1;
    }

    /**
     * Moves `node` to the head. The node is either linked into the queue, or
     * (when called from Add) a fresh node with no links that is not yet in it.
     */
    method SetMRU(node: Node<T>)
      requires Linked() && node in Repr
      requires node !in Nodes ==>
        Nodes != [] && node.previous == null && node.next == null && node != last.next
      modifies this, Repr`next, Repr`previous
      ensures Linked() && Repr == old(Repr) && currentSize == old(currentSize)
      ensures first == node
      ensures node in old(Nodes) ==>
        var i := IndexOf(old(Nodes), node);
        Nodes == MoveToFront(old(Nodes), i) && Contents == MoveToFront(old(Contents), i)
      ensures node !in old(Nodes) ==>
        Nodes == [node] + old(Nodes) && Contents == [node.nodeItem] + old(Contents)
      ensures node == old(first) ==> unchanged(this) && unchanged(Repr)
      ensures node == old(last) && node != old(first) ==> last == old(node.previous)
      ensures node != old(last) ==> last == old(last)
      ensures old(Tidy()) ==> Tidy()
    {
      if node != first {
        NeighboursInRepr(node);
        Unlink(node);
        LinkAtHead(node);
      }
    }

    /** The neighbours of a node of the queue are nodes of the queue too (or null). */
    lemma NeighboursInRepr(node: Node<T>)
      requires Linked() && node in Repr
      ensures node in Nodes ==> node.previous == null || node.previous in Repr
      ensures node in Nodes ==> node.next == null || node.next in Repr
    {
      if node in Nodes {
        var i := IndexOf(Nodes, node);
        if 0 < i {
          assert node.previous == Nodes[i - 1];
        }
        if i < |Nodes| - 1 {
          assert node.next == Nodes[i + 1];
        }
      }
    }

    /**
     * The first half of SetMRU: repairs `last` when `node` is the tail, then
     * detaches `node`. A fresh node that is not in the queue is left as it is.
     */
    method Unlink(node: Node<T>)
      requires Linked() && node in Repr && Nodes != [] && node != first
      requires node !in Nodes ==> node.previous == null && node.next == null && node != last.next
      modifies this`last, this`Nodes, this`Contents, node`next, node`previous
      modifies ({node.previous} - {null})`next, ({node.next} - {null})`previous
      ensures Linked()
      ensures Nodes != [] && node !in Nodes && node != last.next
      ensures node.previous == null && node.next == null
      ensures node in old(Nodes) ==>
        var i := IndexOf(old(Nodes), node);
        Nodes == RemoveAt(old(Nodes), i) && Contents == RemoveAt(old(Contents), i)
      ensures node !in old(Nodes) ==> Nodes == old(Nodes) && Contents == old(Contents)
      ensures node == old(last) ==> last == old(node.previous)
      ensures node != old(last) ==> last == old(last)
      ensures old(Tidy()) ==> Tidy()
    {
      ghost var oldNodes, oldContents := Nodes, Contents;
      ghost var n := |Nodes|;
      ghost var member := node in Nodes;
      ghost var i := if member then IndexOf(Nodes, node) else 0;
      ghost var pred, succ := node.previous, node.next;
      assert member ==> 0 < i && pred == oldNodes[i - 1];
      assert member && i < n - 1 ==> succ == oldNodes[i + 1];
      assert member && i == n - 1 ==> succ == old(last.next);
      if node == last {
        last := node.previous;
      }
      node.Detach();
      assert forall x :: x in Repr && x != node && x != succ ==> x.previous == old(x.previous);
      assert forall x :: x in Repr && x != node && x != pred ==> x.next == old(x.next);
      if member {
        Nodes := RemoveAt(oldNodes, i);
        Contents := RemoveAt(oldContents, i);
        ghost var sp := Splice(node, i, pred, succ);
        assert SplicedOut(sp);
        SplicedLinked(sp);
      } else {
        LinksKept();
      }
    }

    /** When no link, item or ghost field changed, the links are still well formed. */
    twostate lemma LinksKept()
      requires old(Linked()) && Nodes == old(Nodes) && Contents == old(Contents)
      requires Repr == old(Repr) && first == old(first) && last == old(last)
      requires forall x :: x in Repr ==> x.next == old(x.next) && x.previous == old(x.previous)
      requires forall x :: x in Repr ==> x.nodeItem == old(x.nodeItem)
      ensures Linked()
    {
      var n := |Nodes|;
      forall k | 0 < k < n ensures Nodes[k].previous == Nodes[k - 1] {
        assert old(Nodes[k].previous) == Nodes[k - 1];
      }
      forall j | 0 <= j < n - 1 ensures Nodes[j].next == Nodes[j + 1] {
        assert old(Nodes[j].next) == Nodes[j + 1];
      }
    }

    /**
     * The state right after the node at position `i` has been spliced out:
     * the ghost sequences have dropped position `i`, and of all the links
     * only the two neighbours' facing links changed (they now point at each
     * other).
     */
    twostate predicate SplicedOut(sp: Splice<T>)
      reads this, Repr
    {
      var Splice(node, i, pred, succ) := sp;
      && old(Linked()) && 0 < i < |old(Nodes)| && node == old(Nodes)[i]
      && pred == old(Nodes)[i - 1] && succ == old(node.next)
      && Nodes == RemoveAt(old(Nodes), i) && Contents == RemoveAt(old(Contents), i)
      && Repr == old(Repr) && first == old(first)
      && (i == |old(Nodes)| - 1 ==> last == pred)
      && (i < |old(Nodes)| - 1 ==> last == old(last))
      && pred.next == succ && (succ != null ==> succ.previous == pred)
      && (forall x :: x in Repr && x != node && x != succ ==> x.previous == old(x.previous))
      && (forall x :: x in Repr && x != node && x != pred ==> x.next == old(x.next))
      && (forall x :: x in Repr ==> x.nodeItem == old(x.nodeItem))
    }

    /** After a splice, the remaining nodes form a well-linked queue without the spliced node. */
    twostate lemma SplicedLinked(sp: Splice<T>)
      requires SplicedOut(sp)
      ensures Linked() && Nodes != [] && sp.node !in Nodes && sp.node != last.next
    {
      SplicedItems(sp);
      SplicedEnds(sp);
      SplicedPrevious(sp);
      SplicedNext(sp);
    }

    /** After a splice, the remaining nodes are distinct nodes of the queue that keep their items. */
    twostate lemma SplicedItems(sp: Splice<T>)
      requires SplicedOut(sp)
      ensures forall j :: 0 <= j < |Nodes| ==> Nodes[j] in Repr
      ensures Distinct(Nodes) && |Contents| == |Nodes| && sp.node !in Nodes
      ensures forall j :: 0 <= j < |Nodes| ==> Nodes[j].nodeItem == Contents[j]
    {
      var Splice(node, i, pred, succ) := sp;
      var oldNodes, oldContents, n := old(Nodes), old(Contents), |old(Nodes)|;
      RemoveAtAt(oldNodes, i);
      RemoveAtAt(oldContents, i);
      forall j | 0 <= j < n - 1 ensures Nodes[j].nodeItem == Contents[j] {
        var j' := if j < i then j else j + 1;
        assert Nodes[j] == oldNodes[j'] && Contents[j] == oldContents[j'];
      }
    }

    /** After a splice, `first` and `last` are the ends of the remaining nodes. */
    twostate lemma SplicedEnds(sp: Splice<T>)
      requires SplicedOut(sp)
      ensures Nodes != [] && first == Nodes[0] && last == Nodes[|Nodes| - 1] && first.previous == null
      ensures last.next == null || (last.next in Repr && last.next !in Nodes)
      ensures sp.node != last.next
    {
      var Splice(node, i, pred, succ) := sp;
      var oldNodes, n := old(Nodes), |old(Nodes)|;
      RemoveAtAt(oldNodes, i);
      if i == n - 1 {
        assert last == Nodes[n - 2] && last.next == old(last.next);
      } else {
        assert last == oldNodes[n - 1] == Nodes[n - 2] && last.next == old(last.next);
      }
    }

    /** After a splice, the `previous` links of the remaining nodes are chained. */
    twostate lemma SplicedPrevious(sp: Splice<T>)
      requires SplicedOut(sp)
      ensures forall k {:trigger Nodes[k].previous} :: 0 < k < |Nodes| ==> Nodes[k].previous == Nodes[k - 1]
    {
      var Splice(node, i, pred, succ) := sp;
      var oldNodes, n := old(Nodes), |old(Nodes)|;
      RemoveAtAt(oldNodes, i);
      forall k | 0 < k < n - 1 ensures Nodes[k].previous == Nodes[k - 1] {
        if k < i {
          assert Nodes[k] == oldNodes[k] && Nodes[k - 1] == oldNodes[k - 1];
          assert old(oldNodes[k].previous) == oldNodes[k - 1];
        } else if k == i {
          assert Nodes[k] == succ && Nodes[k - 1] == pred;
        } else {
          assert Nodes[k] == oldNodes[k + 1] && Nodes[k - 1] == oldNodes[k];
          assert old(oldNodes[k + 1].previous) == oldNodes[k];
        }
      }
    }

    /** After a splice, the `next` links of the remaining nodes are chained. */
    twostate lemma SplicedNext(sp: Splice<T>)
      requires SplicedOut(sp)
      ensures forall j {:trigger Nodes[j].next} :: 0 <= j < |Nodes| - 1 ==> Nodes[j].next == Nodes[j + 1]
    {
      var Splice(node, i, pred, succ) := sp;
      var oldNodes, n := old(Nodes), |old(Nodes)|;
      RemoveAtAt(oldNodes, i);
      forall j | 0 <= j < n - 2 ensures Nodes[j].next == Nodes[j + 1] {
        if j < i - 1 {
          assert Nodes[j] == oldNodes[j] && Nodes[j + 1] == oldNodes[j + 1];
          assert old(oldNodes[j].next) == oldNodes[j + 1];
        } else if j == i - 1 {
          assert Nodes[j] == pred && Nodes[j + 1] == succ;
        } else {
          assert Nodes[j] == oldNodes[j + 1] && Nodes[j + 1] == oldNodes[j + 2];
          assert old(oldNodes[j + 1].next) == oldNodes[j + 2];
        }
      }
    }

    /** The second half of SetMRU: links a detached node in front of `first`. */
    method LinkAtHead(node: Node<T>)
      requires Linked() && node in Repr && Nodes != [] && node !in Nodes
      requires node.previous == null && node.next == null && node != last.next
      modifies this`first, this`Nodes, this`Contents, ({first} - {null})`previous, node`next
      ensures Linked()
      ensures Nodes == [node] + old(Nodes) && Contents == [node.nodeItem] + old(Contents)
      ensures first == node
      ensures old(Tidy()) ==> Tidy()
    {
      ghost var oldNodes := Nodes;
      first.previous := node;
      node.next := first;
      first := node;
      Nodes := [node] + Nodes;
      Contents := [node.nodeItem] + Contents;
      assert Chained(Nodes) by {
        forall k | 0 < k < |Nodes| ensures Nodes[k].previous == Nodes[k - 1] {
          if 1 < k {
            assert Nodes[k] == oldNodes[k - 1] && Nodes[k - 1] == oldNodes[k - 2];
            assert old(oldNodes[k - 1].previous) == oldNodes[k - 2];
          }
        }
        forall j | 0 <= j < |Nodes| - 1 ensures Nodes[j].next == Nodes[j + 1] {
          if 0 < j {
            assert Nodes[j] == oldNodes[j - 1] && Nodes[j + 1] == oldNodes[j];
            assert old(oldNodes[j - 1].next) == oldNodes[j];
          }
        }
      }
    }

    /** Replaces the item of `node`, then moves the node to the head. */
    method UpdateNode(node: Node<T>, value: T)
      requires Valid() && node in Nodes
      modifies this, Repr`next, Repr`previous, node`nodeItem
      ensures Valid() && Repr == old(Repr) && currentSize == old(currentSize)
      ensures first == node && node.nodeItem == value
      ensures
        var i := IndexOf(old(Nodes), node);
        Nodes == MoveToFront(old(Nodes), i) && Contents == [value] + RemoveAt(old(Contents), i)
      ensures old(Tidy()) ==> Tidy()
    {
      ghost var i := IndexOf(Nodes, node);
      ghost var oldContents := Contents;
      node.nodeItem := value;
      Contents := Contents[i := value];
      forall j | 0 <= j < |Nodes| ensures Nodes[j].nodeItem == Contents[j] {
        if j != i {
          assert Nodes[j] != node;
        }
      }
      assert RemoveAt(Contents, i) == RemoveAt(oldContents, i);
      SetMRU(node);
    }

    /**
     * Drops the tail and returns it. Only `last` moves back: the new tail's
     * `next` is left pointing at the evicted node.
     */
    method EvictLRU() returns (oldLast: Node<T>)
      requires Valid() && Nodes != []
      modifies this
      ensures Valid() && Repr == old(Repr)
      ensures oldLast == old(last) && old(Nodes) == Nodes + [oldLast]
      ensures oldLast.nodeItem == old(Contents)[|old(Contents)| - 1]
      ensures Contents == old(Contents)[..|old(Contents)| - 1]
      ensures currentSize == old(currentSize) - 1
      ensures first == (if Nodes == [] then null else old(first))
      ensures Nodes == [] ==> last == null
      ensures Nodes != [] ==> last == old(last.previous) && last.next == oldLast
    {
      oldLast := last;
      if first == last {
        first := null;
        last := null;
      } else {
        assert Nodes[|Nodes| - 2].next == oldLast;
        last := last.previous;
      }
      currentSize := currentSize - 1;
      Nodes := Nodes[..|Nodes| - 1];
      Contents := Contents[..|Contents| - 1];
    }

    /**
     * Drops the tail and returns it, and also clears the new tail's `next`
     * link, so that the queue is left tidy whatever state it was in.
     */
    method EvictLRUUnlinked() returns (oldLast: Node<T>)
      requires Valid() && Nodes != []
      modifies this, Repr`next
      ensures Valid() && Tidy() && Repr == old(Repr)
      ensures oldLast == old(last) && old(Nodes) == Nodes + [oldLast]
      ensures oldLast.nodeItem == old(Contents)[|old(Contents)| - 1]
      ensures Contents == old(Contents)[..|old(Contents)| - 1]
      ensures currentSize == old(currentSize) - 1
      ensures first == (if Nodes == [] then null else old(first))
      ensures Nodes == [] ==> last == null
      ensures Nodes != [] ==> last == old(last.previous)
    {
      oldLast := last;
      if first == last {
        first := null;
        last := null;
      } else {
        assert Nodes[|Nodes| - 2] in Repr;
        last := last.previous;
        last.next := null;
      }
      currentSize := currentSize - 1;
      Nodes := Nodes[..|Nodes| - 1];
      Contents := Contents[..|Contents| - 1];
    }

    /** The number of live nodes. */
    function GetSize(): (size: int)
      reads this, Repr
      requires Valid()
      ensures size == |Nodes| && size == |Contents|
    {
      currentSize
    }
  }
}
