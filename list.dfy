/** The singly linked list of BouncingBalls/src/list.c and its forward iterator.

    The list is a chain of Node objects reached from `head`; `numitems` counts them.
    The ghost field `nodes` names the chain in order, `Items` the stored items in the
    same order, and `Repr` every node the list has ever linked (a removed node stays in
    it; it is never linked again). Because `Repr` holds only nodes, an item object or
    an iterator is never part of what the list reads or writes. Items are compared by
    identity (`==` on references when T is a class) and are never owned by the list. */
module LinkedList {
  import opened ListSpec

  /** What list_next hands back: an item, or the end of the list (NULL in the source). */
  datatype Option<T> = None | Some(value: T)

  /** One link of the chain: the stored item, set once, and the next link. */
  class Node<T> {
    const item: T
    var next: Node?<T>

    constructor (item: T, next: Node?<T>)
      ensures this.item == item && this.next == next
    {
      this.item := item;
      this.next := next;
    }
  }

  /** The node that follows position `i` of a chain, or null after the last one. */
  ghost function Successor<T>(ns: seq<Node<T>>, i: int): Node?<T> {
    if 0 <= i && i + 1 < |ns| then ns[i + 1] else null
  }

  class List<T(==)> {
    var head: Node?<T>
    var numitems: int
    ghost var nodes: seq<Node<T>>
    ghost var Items: seq<T>
    ghost var Repr: set<Node<T>>

    /** The object invariant: `head` starts the chain `nodes`, each node links to the
        following one and the last to nothing, no node occurs twice, and `numitems`
        is the number of linked nodes. */
    ghost predicate Valid()
      reads this, Repr
    {
      (forall i | 0 <= i < |nodes| :: nodes[i] in Repr) &&
      head == (if nodes == [] then null else nodes[0]) &&
      (forall i {:trigger nodes[i].next} | 0 <= i < |nodes| :: nodes[i].next == Successor(nodes, i)) &&
      Distinct(nodes) &&
      |Items| == |nodes| &&
      (forall i | 0 <= i < |nodes| :: nodes[i].item == Items[i]) &&
      numitems == |nodes|
    }

    /** list_create: a list with no head node and no items. */
    constructor ()
      ensures Valid() && Repr == {}
      ensures head == null && numitems == 0 && Items == []
    {
      head := null;
      numitems := 0;
      nodes := [];
      Items := [];
      Repr := {};
    }

    /** list_addfirst: the item becomes the first element, everything else follows it
        in its old order, and the count grows by one. */
    method AddFirst(item: T)
      requires Valid()
      modifies this
      ensures Valid()
      ensures Items == [item] + old(Items)
      ensures numitems == old(numitems) + 1
      ensures nodes[1..] == old(nodes)
      ensures Repr == old(Repr) + {nodes[0]} && fresh(nodes[0])
    {
      var node := new Node(item, head);
      head := node;
      numitems := numitems + 1;
      nodes := [node] + nodes;
      Items := [item] + Items;
      Repr := Repr + {node};
      assert forall i | 0 < i < |nodes| :: nodes[i] == old(nodes)[i - 1];
    }

    /** list_addlast: the item becomes the last element and everything else keeps its
        place; on an empty list this is list_addfirst. */
    method AddLast(item: T)
      requires Valid()
      modifies this, Repr
      ensures Valid()
      ensures Items == old(Items) + [item]
      ensures numitems == old(numitems) + 1
      ensures |nodes| == |old(nodes)| + 1 && nodes[..|old(nodes)|] == old(nodes)
      ensures Repr == old(Repr) + {nodes[|old(nodes)|]} && fresh(nodes[|old(nodes)|])
    {
      if head == null {
        AddFirst(item);
        return;
      }
      var tail := head;
      ghost var k := 0;
      while tail.next != null
        invariant 0 <= k < |nodes| && tail == nodes[k]
        decreases |nodes| - k
      {
        tail := tail.next;
        k := k + 1;
      }
      var node := new Node(item, null);
      DistinctSnoc(nodes, node);
      tail.next := node;
      numitems := numitems + 1;
      nodes := nodes + [node];
      Items := Items + [item];
      Repr := Repr + {node};
    }

    /** list_remove: unlinks the first node whose item is `item` (by identity) and only
        that one; when there is none, the list stays as it is. */
    method Remove(item: T)
      requires Valid()
      modifies this, Repr
      ensures Valid() && Repr == old(Repr)
      ensures Items == RemoveFirst(old(Items), item)
      ensures numitems == if item in old(Items) then old(numitems) - 1 else old(numitems)
      ensures nodes == Without(old(nodes), FirstIndex(old(Items), item))
    {
      var node := head;
      var prev: Node?<T> := null;
      ghost var k := 0;
      while node != null && node.item != item
        invariant 0 <= k <= |nodes|
        invariant node == if k < |nodes| then nodes[k] else null
        invariant prev == if k == 0 then null else nodes[k - 1]
        invariant forall j | 0 <= j < k :: Items[j] != item
        decreases |nodes| - k
      {
        prev := node;
        node := node.next;
        k := k + 1;
      }
      if node == null {
        RemoveFirstAbsent(Items, item);
        return;
      }
      assert FirstIndex(Items, item) == k;
      RemoveFirstIsWithout(Items, item);
      Unlink(prev, node, k);
    }

    /** The matching branch of list_remove: `node`, at position k, leaves the chain;
        its predecessor `prev`, or `head` when k is 0, takes over its successor. */
    method Unlink(prev: Node?<T>, node: Node<T>, ghost k: nat)
      requires Valid() && k < |nodes| && node == nodes[k]
      requires prev == if k == 0 then null else nodes[k - 1]
      modifies this, prev
      ensures Valid() && Repr == old(Repr)
      ensures nodes == Without(old(nodes), k) && Items == Without(old(Items), k)
      ensures numitems == old(numitems) - 1
    {
      ghost var ns, its := nodes, Items;
      if prev != null {
        prev.next := node.next;
      } else {
        head := node.next;
      }
      numitems := numitems - 1;
      DistinctWithout(nodes, k);
      nodes := Without(nodes, k);
      Items := Without(Items, k);
      forall i | 0 <= i < |nodes|
        ensures nodes[i].next == Successor(nodes, i) && nodes[i].item == Items[i]
      {
        if i + 1 == k {
          assert nodes[i] == prev && Items[i] == its[i];
        } else if i < k {
          DistinctAt(ns, i, k - 1);
          assert nodes[i] == ns[i] && Items[i] == its[i];
        } else {
          assert nodes[i] == ns[i + 1] && Items[i] == its[i + 1];
          if k > 0 {
            DistinctAt(ns, k - 1, i + 1);
          }
        }
      }
    }

    /** list_size: the number of items stored. */
    method Size() returns (n: int)
      requires Valid()
      ensures n == |Items|
    {
      n := numitems;
    }
  }

  /** The forward cursor of list.c. `next` is the node the following call to Next hands
      out; the iterator stays bound to the list it was created for. */
  class ListIterator<T(==)> {
    var next: Node?<T>
    const list: List<T>

    /** The cursor is the end of the list or one of its linked nodes. */
    ghost predicate Valid()
      reads this, list, list.Repr
    {
      list.Valid() && (next == null || next in list.nodes)
    }

    /** The position in the list of the node the next call hands out; the length of the
        list at the end. */
    ghost function Cursor(): (c: nat)
      reads this, list, list.Repr
      requires Valid()
      ensures c <= |list.Items|
      ensures next != null ==> c < |list.nodes| && list.nodes[c] == next
    {
      if next == null then |list.nodes| else FirstIndex(list.nodes, next)
    }

    /** The items that the following calls to Next hand out, in order. */
    ghost function Remaining(): seq<T>
      reads this, list, list.Repr
      requires Valid()
    {
      list.Items[Cursor()..]
    }

    /** list_createiterator: a cursor at the list's current head (see FromTheHead). */
    constructor (list: List<T>)
      requires list.Valid()
      ensures Valid() && this.list == list && Cursor() == 0
    {
      this.list := list;
      next := list.head;
    }

    /** list_next: hands out the item at the cursor after first moving the cursor past
        its node, so that removing that item from the list keeps the cursor valid; at
        the end it hands out None, and keeps doing so. */
    method Next() returns (r: Option<T>)
      requires Valid()
      modifies this
      ensures Valid()
      ensures old(Remaining()) == [] ==> r == None && Remaining() == []
      ensures old(Remaining()) != [] ==>
        r == Some(old(Remaining())[0]) &&
        Cursor() == old(Cursor()) + 1 &&
        Remaining() == old(Remaining())[1..]
    {
      if next == null {
        return None;
      }
      var current := next;
      ghost var c := Cursor();
      if current.next != null {
        assert c + 1 < |list.nodes| && list.nodes[c + 1] == current.next;
        FirstIndexOfDistinct(list.nodes, c + 1);
      }
      next := current.next;
      r := Some(current.item);
    }

    /** list_resetiterator: the cursor goes back to the list's current head, whatever
        has been added or removed since the iterator was created (see FromTheHead). */
    method Reset()
      requires list.Valid()
      modifies this
      ensures Valid() && Cursor() == 0
    {
      next := list.head;
    }
  }

  /** A cursor at the head, as list_createiterator and list_resetiterator leave it, has
      every item of the list still to come, in list order. */
  lemma FromTheHead<T>(it: ListIterator<T>)
    requires it.Valid() && it.Cursor() == 0
    ensures it.Remaining() == it.list.Items
  {
  }

  /** The contract the iterator exists for. Next hands out the item at position c - 1
      of the list only after moving the cursor to position c. When the caller then
      removes that item, the list (whose items and nodes were `items` and `ns` before
      the removal) loses a node before the cursor, so the cursor stays a linked node or
      the end, now at position c - 1, and exactly the same items are still to come. */
  lemma RemoveJustReturned<T>(it: ListIterator<T>, x: T, items: seq<T>, ns: seq<Node<T>>, c: nat)
    requires Distinct(ns) && |items| == |ns| && 0 < c <= |ns| && items[c - 1] == x
    requires if it.next == null then c == |ns| else c < |ns| && ns[c] == it.next
    requires it.list.Valid()
    requires it.list.Items == RemoveFirst(items, x)
    requires it.list.nodes == Without(ns, FirstIndex(items, x))
    ensures it.Valid() && it.Cursor() == c - 1
    ensures it.Remaining() == items[c..]
  {
    RemoveBehindCursor(items, c, x);
    if it.next != null {
      var n: Node<T> := it.next;
      FirstIndexOfDistinct(ns, c);
      CursorAfterRemove(ns, FirstIndex(items, x), n);
    }
  }
}
