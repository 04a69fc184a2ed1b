/** `StackManual<T>`: a stack kept as a chain of `Node`s from the top (`head`),
    with a cached `size`. `Contents` lists the elements top first. */
module Stacks {
  import opened Wrappers
  import opened Nodes

  class StackManual<T(==,0)> {
    var head: Node?<T>
    var size: int
    ghost var Contents: seq<T>
    ghost var nodes: seq<Node<T>>
    ghost var Repr: set<object>

    /** `head` starts a chain of `size` distinct nodes holding `Contents`, ending in null. */
    ghost predicate Valid()
      reads this, Repr
    {
      && this in Repr
      && (forall i :: 0 <= i < |nodes| ==> nodes[i] in Repr)
      && |nodes| == |Contents| == size
      && head == (if nodes == [] then null else nodes[0])
      && (forall i :: 0 <= i < |nodes| ==> nodes[i].data == Contents[i])
      && (forall i :: 0 <= i < |nodes| - 1 ==> nodes[i].next == nodes[i + 1])
      && (nodes != [] ==> nodes[|nodes| - 1].next == null)
      && (forall i, j :: 0 <= i < j < |nodes| ==> nodes[i] != nodes[j])
    }

    constructor ()
      ensures Valid() && fresh(Repr)
      ensures Contents == []
    {
      head := null;
      size := 0;
      Contents := [];
      nodes := [];
      Repr := {this};
    }

    method Push(value: T)
      requires Valid()
      modifies this
      ensures Valid() && fresh(Repr - old(Repr))
      ensures Contents == [value] + old(Contents)
    {
      var newNode := new Node(value);
      newNode.next := head;
      head := newNode;
      size := size + 1;
      Contents := [value] + Contents;
      nodes := [newNode] + nodes;
      Repr := Repr + {newNode};
    }

    method Pop() returns (r: Result<T, ContainerError>)
      requires Valid()
      modifies this
      ensures Valid() && Repr == old(Repr)
      ensures old(Contents) == [] ==> r == Failure(EmptyStack) && Contents == old(Contents)
      ensures old(Contents) != [] ==> r == Success(old(Contents)[0]) && Contents == old(Contents)[1..]
    {
      if head == null {
        return Failure(EmptyStack);
      }
      var data := head.data;
      head := head.next;
      size := size - 1;
      Contents := Contents[1..];
      nodes := nodes[1..];
      return Success(data);
    }

    method Peek() returns (r: Result<T, ContainerError>)
      requires Valid()
      ensures Contents == [] ==> r == Failure(EmptyStack)
      ensures Contents != [] ==> r == Success(Contents[0])
    {
      if head == null {
        return Failure(EmptyStack);
      }
      return Success(head.data);
    }

    method IsEmpty() returns (b: bool)
      requires Valid()
      ensures b <==> Contents == []
    {
      return head == null;
    }

    method Size() returns (n: int)
      requires Valid()
      ensures n == |Contents|
    {
      return size;
    }

    method Clear()
      requires Valid()
      modifies this
      ensures Valid() && Repr == old(Repr)
      ensures Contents == []
    {
      head := null;
      size := 0;
      Contents := [];
      nodes := [];
    }

    method Contains(value: T) returns (b: bool)
      requires Valid()
      ensures b <==> value in Contents
    {
      var current := head;
      ghost var i := 0;
      while current != null
        invariant 0 <= i <= |nodes| && current == (if i < |nodes| then nodes[i] else null)
        invariant value !in Contents[..i]
        decreases |nodes| - i
      {
        if current.data == value {
          return true;
        }
        current := current.next;
        i := i + 1;
      }
      return false;
    }

    /** The elements from the top down. */
    method ToArray() returns (a: array<T>)
      requires Valid()
      ensures fresh(a) && a[..] == Contents
    {
      a := new T[size];
      var current := head;
      var index := 0;
      while current != null
        invariant 0 <= index <= |nodes| && current == (if index < |nodes| then nodes[index] else null)
        invariant a[..index] == Contents[..index]
        decreases |nodes| - index
      {
        a[index] := current.data;
        current := current.next;
        index := index + 1;
      }
    }
  }

  /** A push followed by a pop hands back the pushed value and leaves the
      stack as it was. */
  method PushThenPop<T(==,0)>(s: StackManual<T>, value: T) returns (r: Result<T, ContainerError>)
    requires s.Valid()
    modifies s
    ensures s.Valid() && s.Contents == old(s.Contents)
    ensures r == Success(value)
  {
    s.Push(value);
    r := s.Pop();
  }

  /** `size` counts pushes minus successful pops: after pushing `n` values and
      popping `m <= n` times the size is `n - m`. */
  method PushesThenPops<T(==,0)>(s: StackManual<T>, values: seq<T>, m: nat) returns (n: int)
    requires s.Valid() && s.Contents == [] && m <= |values|
    modifies s
    ensures n == |values| - m
  {
    for i := 0 to |values|
      invariant s.Valid() && fresh(s.Repr - old(s.Repr)) && |s.Contents| == i
    {
      s.Push(values[i]);
    }
    for i := 0 to m
      invariant s.Valid() && fresh(s.Repr - old(s.Repr)) && |s.Contents| == |values| - i
    {
      var _ := s.Pop();
    }
    n := s.Size();
  }
}
