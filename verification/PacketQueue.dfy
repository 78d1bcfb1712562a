/** The linked queue and its cells.  The queue is generic in what its cells point to. */
module PacketQueue {

  class Cell<T> {
    var element: T
    var next: Cell?<T>

    constructor (element: T, next: Cell?<T>)
      ensures this.element == element && this.next == next
    {
      this.element, this.next := element, next;
    }
  }

  /** `cons` */
  method Cons<T>(element: T, l: Cell?<T>) returns (c: Cell<T>)
    ensures fresh(c) && c.element == element && c.next == l
  {
    c := new Cell(element, l);
  }

  /** `cdr_and_free`; the freed cell is left to the garbage collector. */
  method Cdr<T>(l: Cell<T>) returns (c: Cell?<T>)
    ensures c == l.next
  {
    c := l.next;
  }

  class Queue<T> {
    var head: Cell?<T>
    var tail: Cell?<T>
    /** The cells reachable from `head`, in order. */
    ghost var cells: seq<Cell<T>>
    /** The elements, first to be dequeued first. */
    ghost var contents: seq<T>
    /** All the cells the queue has had. */
    ghost var repr: set<Cell<T>>

    /** The cells form a path from `head` to null without repetition.  Of an empty queue
        nothing is known about `tail`: the last dequeue leaves it on the freed cell. */
    ghost predicate Valid()
      reads this, repr
    {
      && (forall i :: 0 <= i < |cells| ==> cells[i] in repr)
      && |contents| == |cells|
      && (forall i :: 0 <= i < |cells| ==> cells[i].element == contents[i])
      && (forall i, j :: 0 <= i < j < |cells| ==> cells[i] != cells[j])
      && (forall i :: 0 <= i < |cells| - 1 ==> cells[i].next == cells[i + 1])
      && (if cells == [] then head == null
          else head == cells[0] && tail == cells[|cells| - 1] && cells[|cells| - 1].next == null)
    }

    constructor ()
      ensures Valid() && contents == [] && repr == {}
    {
      head, tail := null, null;
      cells, contents, repr := [], [], {};
    }

    method Empty() returns (b: bool)
      requires Valid()
      ensures b <==> contents == []
    {
      b := head == null;
    }

    method Enqueue(element: T)
      requires Valid()
      modifies this, repr
      ensures Valid() && contents == old(contents) + [element]
      ensures fresh(repr - old(repr))
    {
      var empty := Empty();
      var c := Cons(element, null);
      if empty {
        head := c;
        tail := c;
      } else {
        tail.next := c;
        tail := tail.next;
      }
      cells, contents, repr := cells + [c], contents + [element], repr + {c};
    }

    method Dequeue() returns (element: T)
      requires Valid() && contents != []
      modifies this
      ensures Valid() && [element] + contents == old(contents)
      ensures repr == old(repr)
    {
      element := head.element;
      head := Cdr(head);
      cells, contents := cells[1..], contents[1..];
    }

    /** How many elements wait: a walk along the cells. */
    method Size() returns (n: nat)
      requires Valid()
      ensures n == |contents|
    {
      n := 0;
      var c := head;
      while c != null
        invariant n <= |cells| && c == if n < |cells| then cells[n] else null
        decreases |cells| - n
      {
        c := c.next;
        n := n + 1;
      }
    }
  }
}
