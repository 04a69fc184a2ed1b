/** `DoublyLinkedList<T>` over `DoublyNode<T>`: nodes linked both ways between
    `head` and `tail`, with a cached `size`. The ghost `nodes` lists the chain
    from head to tail and `Contents` the data it holds. */
module Doubly {
  import opened Wrappers
  import opened Sequences

  class DoublyNode<T> {
    var data: T
    var next: DoublyNode?<T>
    var prev: DoublyNode?<T>

    constructor (data: T)
      ensures this.data == data && next == null && prev == null
    {
      this.data := data;
      next := null;
      prev := null;
    }

    method GetData() returns (d: T)
      ensures d == data
    {
      return data;
    }

    method SetData(data: T)
      modifies this
      ensures this.data == data && next == old(next) && prev == old(prev)
    {
      this.data := data;
    }

    method GetNext() returns (n: DoublyNode?<T>)
      ensures n == next
    {
      return next;
    }

    method SetNext(next: DoublyNode?<T>)
      modifies this
      ensures this.next == next && data == old(data) && prev == old(prev)
    {
      this.next := next;
    }

    method GetPrev() returns (p: DoublyNode?<T>)
      ensures p == prev
    {
      return prev;
    }

    method SetPrev(prev: DoublyNode?<T>)
      modifies this
      ensures this.prev == prev && data == old(data) && next == old(next)
    {
      this.prev := prev;
    }
  }

  /** Reading the data back after `SetData(d)` gives `d`. */
  method SetThenGet<T>(n: DoublyNode<T>, d: T) returns (r: T)
    modifies n
    ensures r == d
  {
    n.SetData(d);
    r := n.GetData();
  }

  class DoublyLinkedList<T(==,0)> {
    var head: DoublyNode?<T>
    var tail: DoublyNode?<T>
    var size: int
    ghost var Contents: seq<T>
    ghost var nodes: seq<DoublyNode<T>>
    ghost var Repr: set<object>

    /** `size` distinct nodes run from `head` to `tail` holding `Contents`;
        `next` and `prev` are inverse along the chain, `head.prev` and
        `tail.next` are null, and `head`, `tail` are null exactly when empty. */
    ghost predicate Valid()
      reads this, Repr
    {
      && this in Repr
      && (forall i :: 0 <= i < |nodes| ==> nodes[i] in Repr)
      && |nodes| == |Contents| == size
      && head == (if nodes == [] then null else nodes[0])
      && tail == (if nodes == [] then null else nodes[|nodes| - 1])
      && (forall i :: 0 <= i < |nodes| ==> nodes[i].data == Contents[i])
      && (forall i :: 0 <= i < |nodes| - 1 ==> nodes[i].next == nodes[i + 1] && nodes[i + 1].prev == nodes[i])
      && (nodes != [] ==> nodes[0].prev == null && nodes[|nodes| - 1].next == null)
      && (forall i, j :: 0 <= i < j < |nodes| ==> nodes[i] != nodes[j])
    }

    constructor ()
      ensures Valid() && fresh(Repr)
      ensures Contents == []
    {
      head := null;
      tail := null;
      size := 0;
      Contents := [];
      nodes := [];
      Repr := {this};
    }

    method AddFirst(value: T)
      requires Valid()
      modifies this, Repr
      ensures Valid() && fresh(Repr - old(Repr))
      ensures Contents == [value] + old(Contents) && nodes[1..] == old(nodes)
    {
      var newNode := new DoublyNode(value);
      if head == null {
        head := newNode;
        tail := newNode;
      } else {
        newNode.next := head;
        head.prev := newNode;
        head := newNode;
      }
      size := size + 1;
      Contents := [value] + Contents;
      nodes := [newNode] + nodes;
      Repr := Repr + {newNode};
    }

    method AddLast(value: T)
      requires Valid()
      modifies this, Repr
      ensures Valid() && fresh(Repr - old(Repr))
      ensures Contents == old(Contents) + [value] && nodes[..|old(nodes)|] == old(nodes)
    {
      var newNode := new DoublyNode(value);
      if head == null {
        head := newNode;
        tail := newNode;
      } else {
        newNode.prev := tail;
        tail.next := newNode;
        tail := newNode;
      }
      size := size + 1;
      Contents := Contents + [value];
      nodes := nodes + [newNode];
      Repr := Repr + {newNode};
    }

    method RemoveFirst() returns (r: Result<T, ContainerError>)
      requires Valid()
      modifies this, Repr
      ensures Valid() && Repr == old(Repr)
      ensures old(Contents) == [] ==> r == Failure(EmptyList) && Contents == old(Contents)
      ensures old(Contents) != [] ==> r == Success(old(Contents)[0]) && Contents == old(Contents)[1..]
    {
      if head == null {
        return Failure(EmptyList);
      }
      var data := head.data;
      if size == 1 {
        head := null;
        tail := null;
      } else {
        assert head.next == nodes[1];
        head := head.next;
        head.prev := null;
      }
      size := size - 1;
      Contents := Contents[1..];
      nodes := nodes[1..];
      return Success(data);
    }

    method RemoveLast() returns (r: Result<T, ContainerError>)
      requires Valid()
      modifies this, Repr
      ensures Valid() && Repr == old(Repr)
      ensures old(Contents) == [] ==> r == Failure(EmptyList) && Contents == old(Contents)
      ensures old(Contents) != [] ==>
        r == Success(old(Contents)[|old(Contents)| - 1]) && Contents == old(Contents)[..|old(Contents)| - 1]
    {
      if head == null {
        return Failure(EmptyList);
      }
      var data := tail.data;
      if size == 1 {
        head := null;
        tail := null;
      } else {
        assert tail.prev == nodes[|nodes| - 2];
        tail := tail.prev;
        tail.next := null;
      }
      size := size - 1;
      Contents := Contents[..|Contents| - 1];
      nodes := nodes[..|nodes| - 1];
      return Success(data);
    }

    /** The walk the indexed operations share: from `head` forwards when `index`
        is in the first half, otherwise from `tail` backwards. Both reach the
        node at `index`. */
    method NodeAt(index: int) returns (node: DoublyNode<T>)
      requires Valid() && 0 <= index < |nodes|
      ensures node == nodes[index]
    {
      var current := head;
      if index < size / 2 {
        for i := 0 to index
          invariant current == nodes[i]
        {
          current := current.next;
        }
      } else {
        current := tail;
        var i := size - 1;
        while i > index
          invariant index <= i < |nodes| && current == nodes[i]
        {
          current := current.prev;
          i := i - 1;
        }
      }
      return current;
    }

    method Get(index: int) returns (r: Result<T, ContainerError>)
      requires Valid()
      ensures 0 <= index < |Contents| ==> r == Success(Contents[index])
      ensures !(0 <= index < |Contents|) ==> r == Failure(InvalidIndex(index, |Contents|))
    {
      if index < 0 || index >= size {
        return Failure(InvalidIndex(index, size));
      }
      var current := NodeAt(index);
      return Success(current.data);
    }

    method IsEmpty() returns (b: bool)
      requires Valid()
      ensures b <==> Contents == []
    {
      return head == null;
    }

    method Size() returns (n: int)
      requires Valid()
      ensures n == |Contents|
    {
      return size;
    }

    method Clear()
      requires Valid()
      modifies this
      ensures Valid() && Repr == old(Repr)
      ensures Contents == []
    {
      head := null;
      tail := null;
      size := 0;
      Contents := [];
      nodes := [];
    }

    method Contains(value: T) returns (b: bool)
      requires Valid()
      ensures b <==> value in Contents
    {
      var current := head;
      ghost var i := 0;
      while current != null
        invariant 0 <= i <= |nodes| && current == (if i < |nodes| then nodes[i] else null)
        invariant value !in Contents[..i]
        decreases |nodes| - i
      {
        if current.data == value {
          return true;
        }
        current := current.next;
        i := i + 1;
      }
      return false;
    }

    /** Links a new node holding `value` between `current` (at position `k > 0`)
        and its predecessor. */
    method LinkBefore(current: DoublyNode<T>, value: T, ghost k: nat)
      requires Valid() && 0 < k < |nodes| && current == nodes[k]
      modifies this, Repr
      ensures Valid() && fresh(Repr - old(Repr))
      ensures Contents == Insert(old(Contents), k, value) && nodes[k + 1] == current
    {
      ghost var old_nodes := nodes;
      assert current.prev == nodes[k - 1];
      var newNode := new DoublyNode(value);
      newNode.prev := current.prev;
      newNode.next := current;
      current.prev.next := newNode;
      current.prev := newNode;
      size := size + 1;
      Contents := Insert(Contents, k, value);
      nodes := Insert(nodes, k, newNode);
      Repr := Repr + {newNode};
      forall j | 0 <= j < |nodes| - 1
        ensures nodes[j].next == nodes[j + 1] && nodes[j + 1].prev == nodes[j]
      {
        if j < k - 1 {
          assert nodes[j] == old_nodes[j] && nodes[j + 1] == old_nodes[j + 1];
        } else if j > k {
          assert nodes[j] == old_nodes[j - 1] && nodes[j + 1] == old_nodes[j];
        }
      }
      forall i | 0 <= i < |nodes|
        ensures nodes[i] in Repr && nodes[i].data == Contents[i]
      {
        if i < k {
          assert nodes[i] == old_nodes[i];
        } else if i > k {
          assert nodes[i] == old_nodes[i - 1];
        }
      }
      forall i, j | 0 <= i < j < |nodes|
        ensures nodes[i] != nodes[j]
      {
        if i != k && j != k {
          assert nodes[i] == old_nodes[if i < k then i else i - 1];
          assert nodes[j] == old_nodes[if j < k then j else j - 1];
        }
      }
    }

    /** Links a new node holding `value` between `node` (at position
        `k < |nodes| - 1`) and its successor. */
    method LinkAfter(node: DoublyNode<T>, value: T, ghost k: nat)
      requires Valid() && k < |nodes| - 1 && node == nodes[k]
      modifies this, Repr
      ensures Valid() && fresh(Repr - old(Repr))
      ensures Contents == Insert(old(Contents), k + 1, value) && nodes[k] == node
    {
      ghost var old_nodes := nodes;
      assert node.next == nodes[k + 1];
      var newNode := new DoublyNode(value);
      newNode.prev := node;
      newNode.next := node.next;
      node.next.prev := newNode;
      node.next := newNode;
      size := size + 1;
      Contents := Insert(Contents, k + 1, value);
      nodes := Insert(nodes, k + 1, newNode);
      Repr := Repr + {newNode};
      forall j | 0 <= j < |nodes| - 1
        ensures nodes[j].next == nodes[j + 1] && nodes[j + 1].prev == nodes[j]
      {
        if j < k {
          assert nodes[j] == old_nodes[j] && nodes[j + 1] == old_nodes[j + 1];
        } else if j > k + 1 {
          assert nodes[j] == old_nodes[j - 1] && nodes[j + 1] == old_nodes[j];
        }
      }
    }

    /** Links `current` (at position `0 < k < |nodes| - 1`) out of the chain. */
    method Unlink(current: DoublyNode<T>, ghost k: nat) returns (data: T)
      requires Valid() && 0 < k < |nodes| - 1 && current == nodes[k]
      modifies this, Repr
      ensures Valid() && Repr == old(Repr)
      ensures data == old(Contents)[k] && Contents == Delete(old(Contents), k)
    {
      assert current.prev == nodes[k - 1] && current.next == nodes[k + 1];
      data := current.data;
      current.prev.next := current.next;
      current.next.prev := current.prev;
      size := size - 1;
      Contents := Delete(Contents, k);
      nodes := Delete(nodes, k);
    }

    /** Index 0 and index `size` go to `AddFirst` and `AddLast`; any other
        valid index links the new node before the node found there. */
    method InsertAt(index: int, value: T) returns (r: Status<ContainerError>)
      requires Valid()
      modifies this, Repr
      ensures Valid() && fresh(Repr - old(Repr))
      ensures 0 <= index <= |old(Contents)| ==>
        r == Done && Contents == old(Contents)[..index] + [value] + old(Contents)[index..]
      ensures !(0 <= index <= |old(Contents)|) ==>
        r == Thrown(InvalidIndex(index, |old(Contents)|)) && Contents == old(Contents)
    {
      if index < 0 || index > size {
        return Thrown(InvalidIndex(index, size));
      }
      if index == 0 {
        AddFirst(value);
        return Done;
      }
      if index == size {
        AddLast(value);
        return Done;
      }
      var current := NodeAt(index);
      LinkBefore(current, value, index);
      return Done;
    }

    /** Index 0 and index `size - 1` go to `RemoveFirst` and `RemoveLast`; any
        other valid index unlinks the node found there. */
    method RemoveAt(index: int) returns (r: Result<T, ContainerError>)
      requires Valid()
      modifies this, Repr
      ensures Valid() && Repr == old(Repr)
      ensures 0 <= index < |old(Contents)| ==>
        r == Success(old(Contents)[index]) && Contents == old(Contents)[..index] + old(Contents)[index + 1..]
      ensures !(0 <= index < |old(Contents)|) ==>
        r == Failure(InvalidIndex(index, |old(Contents)|)) && Contents == old(Contents)
    {
      if index < 0 || index >= size {
        return Failure(InvalidIndex(index, size));
      }
      if index == 0 {
        r := RemoveFirst();
        return;
      }
      if index == size - 1 {
        r := RemoveLast();
        return;
      }
      var current := NodeAt(index);
      var data := Unlink(current, index);
      return Success(data);
    }

    /** Inserts `value` immediately before `node`, which must be in the list. */
    method AddBefore(node: DoublyNode?<T>, value: T) returns (r: Status<ContainerError>)
      requires Valid() && (node != null ==> node in nodes)
      modifies this, Repr
      ensures Valid() && fresh(Repr - old(Repr))
      ensures node == null ==> r == Thrown(IllegalArgument) && Contents == old(Contents)
      ensures node != null ==>
        var k := IndexOf(old(nodes), node);
        r == Done && Contents == Insert(old(Contents), k, value) && nodes[k + 1] == node
    {
      if node == null {
        return Thrown(IllegalArgument);
      }
      ghost var k := IndexOf(nodes, node);
      if node == head {
        AddFirst(value);
        return Done;
      }
      LinkBefore(node, value, k);
      return Done;
    }

    /** Inserts `value` immediately after `node`, which must be in the list. */
    method AddAfter(node: DoublyNode?<T>, value: T) returns (r: Status<ContainerError>)
      requires Valid() && (node != null ==> node in nodes)
      modifies this, Repr
      ensures Valid() && fresh(Repr - old(Repr))
      ensures node == null ==> r == Thrown(IllegalArgument) && Contents == old(Contents)
      ensures node != null ==>
        var k := IndexOf(old(nodes), node);
        r == Done && Contents == Insert(old(Contents), k + 1, value) && nodes[k] == node
    {
      if node == null {
        return Thrown(IllegalArgument);
      }
      ghost var k := IndexOf(nodes, node);
      if node == tail {
        AddLast(value);
        return Done;
      }
      LinkAfter(node, value, k);
      return Done;
    }

    /** Unlinks `node`, which must be in the list, and returns its data. */
    method Remove(node: DoublyNode?<T>) returns (r: Result<T, ContainerError>)
      requires Valid() && (node != null ==> node in nodes)
      modifies this, Repr
      ensures Valid() && Repr == old(Repr)
      ensures node == null ==> r == Failure(IllegalArgument) && Contents == old(Contents)
      ensures node != null ==>
        var k := IndexOf(old(nodes), node);
        r == Success(old(Contents)[k]) && Contents == Delete(old(Contents), k)
    {
      if node == null {
        return Failure(IllegalArgument);
      }
      ghost var k := IndexOf(nodes, node);
      if node == head {
        r := RemoveFirst();
        return;
      }
      if node == tail {
        r := RemoveLast();
        return;
      }
      var data := Unlink(node, k);
      return Success(data);
    }

    method GetNode(index: int) returns (r: Result<DoublyNode<T>, ContainerError>)
      requires Valid()
      ensures 0 <= index < |nodes| ==> r == Success(nodes[index])
      ensures !(0 <= index < |nodes|) ==> r == Failure(InvalidIndex(index, |nodes|))
    {
      if index < 0 || index >= size {
        return Failure(InvalidIndex(index, size));
      }
      var current := NodeAt(index);
      return Success(current);
    }

    method GetFirstNode() returns (n: DoublyNode?<T>)
      requires Valid()
      ensures n == if nodes == [] then null else nodes[0]
    {
      return head;
    }

    method GetLastNode() returns (n: DoublyNode?<T>)
      requires Valid()
      ensures n == if nodes == [] then null else nodes[|nodes| - 1]
    {
      return tail;
    }

    method ToArray() returns (a: array<T>)
      requires Valid()
      ensures fresh(a) && a[..] == Contents
    {
      a := new T[size];
      var current := head;
      var index := 0;
      while current != null
        invariant 0 <= index <= |nodes| && current == (if index < |nodes| then nodes[index] else null)
        invariant a[..index] == Contents[..index]
        decreases |nodes| - index
      {
        a[index] := current.data;
        current := current.next;
        index := index + 1;
      }
    }
  }
}
