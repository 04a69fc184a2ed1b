/** `SinglyLinkedList<T>`: a chain of `Node`s from `head`, with a cached `size`.
    The ghost `nodes` lists the chain in order and `Contents` the data it holds;
    every operation is specified by what it does to `Contents`. */
module SinglyLinked {
  import opened Wrappers
  import opened Nodes
  import opened Sequences

  class SinglyLinkedList<T(==,0)> {
    var head: Node?<T>
    var size: int
    ghost var Contents: seq<T>
    ghost var nodes: seq<Node<T>>
    ghost var Repr: set<object>

    /** `head` starts a chain of `size` distinct nodes, the last with a null `next`,
        holding `Contents` in order; so `head == null` exactly when `size == 0`. */
    ghost predicate Valid()
      reads this, Repr
    {
      && this in Repr
      && (forall i :: 0 <= i < |nodes| ==> nodes[i] in Repr)
      && |nodes| == |Contents| == size
      && head == (if nodes == [] then null else nodes[0])
      && (forall i :: 0 <= i < |nodes| ==> nodes[i].data == Contents[i])
      && (forall i :: 0 <= i < |nodes| - 1 ==> nodes[i].next == nodes[i + 1])
      && (nodes != [] ==> nodes[|nodes| - 1].next == null)
      && (forall i, j :: 0 <= i < j < |nodes| ==> nodes[i] != nodes[j])
    }

    constructor ()
      ensures Valid() && fresh(Repr)
      ensures Contents == []
    {
      head := null;
      size := 0;
      Contents := [];
      nodes := [];
      Repr := {this};
    }

    method AddFirst(value: T)
      requires Valid()
      modifies this
      ensures Valid() && fresh(Repr - old(Repr))
      ensures Contents == [value] + old(Contents)
    {
      var newNode := new Node(value);
      newNode.next := head;
      head := newNode;
      size := size + 1;
      Contents := [value] + Contents;
      nodes := [newNode] + nodes;
      Repr := Repr + {newNode};
    }

    /** Walks to the last node and links a new one after it. */
    method AddLast(value: T)
      requires Valid()
      modifies this, Repr
      ensures Valid() && fresh(Repr - old(Repr))
      ensures Contents == old(Contents) + [value]
    {
      var newNode := new Node(value);
      if head == null {
        head := newNode;
      } else {
        var current := head;
        ghost var i := 0;
        while current.next != null
          invariant 0 <= i < |nodes| && current == nodes[i]
          invariant current.next == if i + 1 < |nodes| then nodes[i + 1] else null
          decreases |nodes| - i
        {
          current := current.next;
          i := i + 1;
        }
        current.next := newNode;
      }
      size := size + 1;
      Contents := Contents + [value];
      nodes := nodes + [newNode];
      Repr := Repr + {newNode};
    }

    method RemoveFirst() returns (r: Result<T, ContainerError>)
      requires Valid()
      modifies this
      ensures Valid() && Repr == old(Repr)
      ensures old(Contents) == [] ==> r == Failure(EmptyList) && Contents == old(Contents)
      ensures old(Contents) != [] ==> r == Success(old(Contents)[0]) && Contents == old(Contents)[1..]
    {
      if head == null {
        return Failure(EmptyList);
      }
      var data := head.data;
      head := head.next;
      size := size - 1;
      Contents := Contents[1..];
      nodes := nodes[1..];
      return Success(data);
    }

    /** A one-element list is emptied directly; a longer one is walked up to the
        second-to-last node, whose `next` is cut. */
    method RemoveLast() returns (r: Result<T, ContainerError>)
      requires Valid()
      modifies this, Repr
      ensures Valid() && Repr == old(Repr)
      ensures old(Contents) == [] ==> r == Failure(EmptyList) && Contents == old(Contents)
      ensures old(Contents) != [] ==>
        r == Success(old(Contents)[|old(Contents)| - 1]) && Contents == old(Contents)[..|old(Contents)| - 1]
    {
      if head == null {
        return Failure(EmptyList);
      }
      if size == 1 {
        var data := head.data;
        head := null;
        size := 0;
        Contents := [];
        nodes := [];
        return Success(data);
      }
      var current := head;
      ghost var i := 0;
      while current.next.next != null
        invariant 0 <= i <= |nodes| - 2 && current == nodes[i] && current.next == nodes[i + 1]
        invariant current.next.next == if i + 2 < |nodes| then nodes[i + 2] else null
        decreases |nodes| - i
      {
        current := current.next;
        i := i + 1;
      }
      var data := current.next.data;
      current.next := null;
      size := size - 1;
      Contents := Contents[..|Contents| - 1];
      nodes := nodes[..|nodes| - 1];
      return Success(data);
    }

    method Get(index: int) returns (r: Result<T, ContainerError>)
      requires Valid()
      ensures 0 <= index < |Contents| ==> r == Success(Contents[index])
      ensures !(0 <= index < |Contents|) ==> r == Failure(InvalidIndex(index, |Contents|))
    {
      if index < 0 || index >= size {
        return Failure(InvalidIndex(index, size));
      }
      var current := head;
      for i := 0 to index
        invariant current == nodes[i]
      {
        current := current.next;
      }
      return Success(current.data);
    }

    method IsEmpty() returns (b: bool)
      requires Valid()
      ensures b <==> Contents == []
    {
      return head == null;
    }

    method Size() returns (n: int)
      requires Valid()
      ensures n == |Contents|
    {
      return size;
    }

    method Clear()
      requires Valid()
      modifies this
      ensures Valid() && Repr == old(Repr)
      ensures Contents == []
    {
      head := null;
      size := 0;
      Contents := [];
      nodes := [];
    }

    method Contains(value: T) returns (b: bool)
      requires Valid()
      ensures b <==> value in Contents
    {
      var current := head;
      ghost var i := 0;
      while current != null
        invariant 0 <= i <= |nodes| && current == (if i < |nodes| then nodes[i] else null)
        invariant value !in Contents[..i]
        decreases |nodes| - i
      {
        if current.data == value {
          return true;
        }
        current := current.next;
        i := i + 1;
      }
      return false;
    }

    /** Index 0 delegates to `AddFirst`; otherwise the node before the slot is
        found by walking `index - 1` links and the new node is spliced after it. */
    method InsertAt(index: int, value: T) returns (r: Status<ContainerError>)
      requires Valid()
      modifies this, Repr
      ensures Valid() && fresh(Repr - old(Repr))
      ensures 0 <= index <= |old(Contents)| ==>
        r == Done && Contents == old(Contents)[..index] + [value] + old(Contents)[index..]
      ensures !(0 <= index <= |old(Contents)|) ==>
        r == Thrown(InvalidIndex(index, |old(Contents)|)) && Contents == old(Contents)
    {
      if index < 0 || index > size {
        return Thrown(InvalidIndex(index, size));
      }
      if index == 0 {
        AddFirst(value);
        return Done;
      }
      var current := head;
      for i := 0 to index - 1
        invariant current == nodes[i]
      {
        current := current.next;
      }
      LinkAfter(current, value, index - 1);
      return Done;
    }

    /** Links a new node holding `value` in after `current`, the node at position `k`. */
    method LinkAfter(current: Node<T>, value: T, ghost k: nat)
      requires Valid() && k < |nodes| && current == nodes[k]
      modifies this, Repr
      ensures Valid() && fresh(Repr - old(Repr))
      ensures Contents == Insert(old(Contents), k + 1, value)
    {
      ghost var old_nodes := nodes;
      var newNode := new Node(value);
      newNode.next := current.next;
      current.next := newNode;
      size := size + 1;
      Contents := Insert(Contents, k + 1, value);
      nodes := Insert(nodes, k + 1, newNode);
      Repr := Repr + {newNode};
      forall j | 0 <= j < |nodes| - 1
        ensures nodes[j].next == nodes[j + 1]
      {
        if j < k {
          assert nodes[j] == old_nodes[j] && nodes[j + 1] == old_nodes[j + 1];
        } else if j > k + 1 {
          assert nodes[j] == old_nodes[j - 1] && nodes[j + 1] == old_nodes[j];
        }
      }
      forall i | 0 <= i < |nodes|
        ensures nodes[i] in Repr && nodes[i].data == Contents[i]
      {
        if i < k + 1 {
          assert nodes[i] == old_nodes[i];
        } else if i > k + 1 {
          assert nodes[i] == old_nodes[i - 1];
        }
      }
      forall i, j | 0 <= i < j < |nodes|
        ensures nodes[i] != nodes[j]
      {
        if i != k + 1 && j != k + 1 {
          assert nodes[i] == old_nodes[if i < k + 1 then i else i - 1];
          assert nodes[j] == old_nodes[if j < k + 1 then j else j - 1];
        }
      }
    }

    /** Index 0 delegates to `RemoveFirst`; otherwise the node before `index` is
        found and linked past the removed one. */
    method RemoveAt(index: int) returns (r: Result<T, ContainerError>)
      requires Valid()
      modifies this, Repr
      ensures Valid() && Repr == old(Repr)
      ensures 0 <= index < |old(Contents)| ==>
        r == Success(old(Contents)[index]) && Contents == old(Contents)[..index] + old(Contents)[index + 1..]
      ensures !(0 <= index < |old(Contents)|) ==>
        r == Failure(InvalidIndex(index, |old(Contents)|)) && Contents == old(Contents)
    {
      if index < 0 || index >= size {
        return Failure(InvalidIndex(index, size));
      }
      if index == 0 {
        r := RemoveFirst();
        return;
      }
      var current := head;
      for i := 0 to index - 1
        invariant current == nodes[i]
      {
        current := current.next;
      }
      assert current.next == nodes[index];
      var data := current.next.data;
      current.next := current.next.next;
      size := size - 1;
      Contents := Delete(Contents, index);
      nodes := Delete(nodes, index);
      return Success(data);
    }

    method ToArray() returns (a: array<T>)
      requires Valid()
      ensures fresh(a) && a[..] == Contents
    {
      a := new T[size];
      var current := head;
      var index := 0;
      while current != null
        invariant 0 <= index <= |nodes| && current == (if index < |nodes| then nodes[index] else null)
        invariant a[..index] == Contents[..index]
        decreases |nodes| - index
      {
        a[index] := current.data;
        current := current.next;
        index := index + 1;
      }
    }
  }
}
