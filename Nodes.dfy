/** The singly linked node shared by `SinglyLinkedList` and `StackManual`.
    Its Java class is not part of this model; only the two fields the lists use are kept. */
module Nodes {

  class Node<T> {
    var data: T
    var next: Node?<T>

    constructor (data: T)
      ensures this.data == data && next == null
    {
      this.data := data;
      next := null;
    }
  }
}
