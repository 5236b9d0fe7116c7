/** The singly linked list of the list menu: heap nodes holding an int and a next
    pointer, and the list's head pointer, updated in place by insertion at the end and by
    deletion of the first node holding a key. */
module LinkedList {
  import opened ListSpec

  /** One heap node of the list. */
  class Node {
    var data: int
    var next: Node?

    /** A fresh node holding data and pointing nowhere. */
    constructor (data: int)
      ensures this.data == data && next == null
    {
      this.data := data;
      next := null;
    }
  }

  /** The list as the menu holds it: its head pointer, which the operations update
      through a pointer to it. */
  class List {
    var head: Node?

    /** The nodes from head on, in chain order. */
    ghost var Nodes: seq<Node>
    /** The values the nodes hold, in chain order. */
    ghost var Contents: seq<int>
    ghost var Repr: set<object>

    /** head starts a null-terminated chain through exactly Nodes, whose values are
        Contents, and no node occurs twice on it. */
    ghost predicate Valid()
      reads this, Repr
    {
      this in Repr &&
      |Nodes| == |Contents| &&
      head == (if Nodes == [] then null else Nodes[0]) &&
      (forall i :: 0 <= i < |Nodes| ==> Nodes[i] in Repr) &&
      (forall i :: 0 <= i < |Nodes| ==> Nodes[i].data == Contents[i]) &&
      (forall i :: 0 <= i < |Nodes| - 1 ==> Nodes[i].next == Nodes[i + 1]) &&
      (Nodes != [] ==> Nodes[|Nodes| - 1].next == null) &&
      (forall i, j :: 0 <= i < j < |Nodes| ==> Nodes[i] != Nodes[j])
    }

    /** The empty list: a null head. */
    constructor ()
      ensures Valid() && fresh(Repr) && Contents == []
    {
      head := null;
      Nodes := [];
      Contents := [];
      Repr := {this};
    }

    /** Appends a fresh node holding data: it becomes the head of an empty list, and is
        otherwise linked after the node whose next pointer is null. */
    method InsertAtEnd(data: int)
      requires Valid()
      modifies Repr
      ensures Valid() && fresh(Repr - old(Repr))
      ensures Contents == old(Contents) + [data]
      ensures |Nodes| == |old(Nodes)| + 1 && Nodes[..|old(Nodes)|] == old(Nodes)
      ensures fresh(Nodes[|Nodes| - 1]) && Repr == old(Repr) + {Nodes[|Nodes| - 1]}
      ensures old(head) != null ==> head == old(head)
    {
      var newNode := new Node(data);
      if head == null {
        head := newNode;
        Nodes := [newNode];
        Contents := [data];
        Repr := Repr + {newNode};
        return;
      }
      var temp := head;
      ghost var i := 0;
      while temp.next != null
        invariant 0 <= i < |Nodes| && temp == Nodes[i]
        invariant temp.next == if i + 1 < |Nodes| then Nodes[i + 1] else null
        decreases |Nodes| - i
      {
        temp := temp.next;
        i := i + 1;
      }
      temp.next := newNode;
      Nodes := Nodes + [newNode];
      Contents := Contents + [data];
      Repr := Repr + {newNode};
    }

    /** Unlinks the first node holding key, from the head or from after its predecessor.
        found is false, and the list unchanged, when no node holds key: the case in which
        the menu reports that the node was not found. */
    method DeleteNode(key: int) returns (found: bool)
      requires Valid()
      modifies Repr
      ensures Valid() && Repr <= old(Repr)
      ensures found == (key in old(Contents))
      ensures Contents == RemoveFirst(old(Contents), key)
      ensures !found ==> Nodes == old(Nodes) && Repr == old(Repr)
      ensures found ==> var i := FirstIndex(old(Contents), key);
        Nodes == old(Nodes[..i] + Nodes[i + 1..]) && Repr == old(Repr) - {old(Nodes[i])}
    {
      var temp := head;
      var prev: Node?;
      if temp != null && temp.data == key {
        assert FirstIndex(Contents, key) == 0 && RemoveFirst(Contents, key) == Contents[1..];
        assert Nodes[..0] + Nodes[1..] == Nodes[1..];
        UnlinkHead(temp);
        found := true;
      } else {
        ghost var i;
        prev, temp, i := Find(key);
        if temp == null {
          RemoveFirstAbsent(Contents, key);
          found := false;
        } else {
          RemoveFirstAt(Contents, key, i);
          Unlink(prev, temp, i);
          found := true;
        }
      }
    }

    /** The walk of the deletion: from the head, steps along next pointers, remembering
        the node stepped from, until it reaches null or a node holding key. Position i
        of the list is where it stops: the first occurrence of key, or the end. */
    method Find(key: int) returns (prev: Node?, temp: Node?, ghost i: nat)
      requires Valid()
      ensures temp == null <==> key !in Contents
      ensures temp != null ==> temp.data == key && i == FirstIndex(Contents, key)
      ensures i <= |Nodes| && forall j :: 0 <= j < i ==> Contents[j] != key
      ensures i < |Nodes| ==> temp == Nodes[i] && Contents[i] == key
      ensures i == |Nodes| ==> temp == null
      ensures prev == if i == 0 then null else Nodes[i - 1]
    {
      temp := head;
      prev := null;
      i := 0;
      while temp != null && temp.data != key
        invariant i <= |Nodes|
        invariant temp == if i < |Nodes| then Nodes[i] else null
        invariant prev == if i == 0 then null else Nodes[i - 1]
        invariant forall j :: 0 <= j < i ==> Contents[j] != key
        decreases |Nodes| - i
      {
        prev := temp;
        temp := temp.next;
        i := i + 1;
      }
    }

    /** Unlinks the head node temp by moving the head pointer past it. */
    method UnlinkHead(temp: Node)
      requires Valid() && head == temp
      modifies this
      ensures Valid() && Repr == old(Repr) - {temp}
      ensures Nodes == old(Nodes[1..]) && Contents == old(Contents[1..])
    {
      ghost var ns := Nodes;
      head := temp.next;
      Nodes := Nodes[1..];
      Contents := Contents[1..];
      Repr := Repr - {temp};
      assert forall k :: 0 <= k < |Nodes| ==> Nodes[k] == ns[k + 1];
    }

    /** Unlinks node i, which is not the head, by pointing its predecessor prev past it. */
    method Unlink(prev: Node, temp: Node, ghost i: nat)
      requires Valid() && 0 < i < |Nodes| && prev == Nodes[i - 1] && temp == Nodes[i]
      modifies this, prev
      ensures Valid() && Repr == old(Repr) - {temp} && head == old(head)
      ensures Nodes == old(Nodes[..i] + Nodes[i + 1..])
      ensures Contents == old(Contents[..i] + Contents[i + 1..])
    {
      ghost var ns := Nodes;
      prev.next := temp.next;
      Nodes := Nodes[..i] + Nodes[i + 1..];
      Contents := Contents[..i] + Contents[i + 1..];
      Repr := Repr - {temp};
      assert forall k :: 0 <= k < |Nodes| ==> Nodes[k] == if k < i then ns[k] else ns[k + 1];
      forall k | 0 <= k < |Nodes| - 1
        ensures Nodes[k].next == Nodes[k + 1]
      {
        if k != i - 1 {
          assert Nodes[k] != prev;
        }
      }
    }
  }
}
