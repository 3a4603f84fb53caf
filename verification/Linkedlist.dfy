/** The singly linked list every other structure queues its values in. */
module Linkedlists {
  import opened Bytes

  /** What reading or writing at a position comes to: NULL or EXIT_FAILURE is Absent. */
  datatype Access<+T> = Found(value: T) | Absent | Crash

  class Linkednode<T> {
    var next: Linkednode?<T>
    var value: T

    constructor (value: T)
      ensures this.value == value && next == null
    {
      this.value := value;
      this.next := null;
    }
  }

  class Linkedlist<T> {
    var head: Linkednode?<T>
    // Left as it was when the list is emptied by Pop.
    var end: Linkednode?<T>
    var count: int

    ghost var Contents: seq<T>
    ghost var Nodes: seq<Linkednode<T>>
    ghost var Repr: set<object>

    ghost predicate Valid()
      reads this, Repr
      ensures Valid() ==> this in Repr
    {
      && this in Repr
      && (forall i | 0 <= i < |Nodes| :: Nodes[i] in Repr)
      && (forall i, j | 0 <= i < j < |Nodes| :: Nodes[i] != Nodes[j])
      && (forall i {:trigger Nodes[i].next} | 0 <= i < |Nodes| ::
            Nodes[i].next == if i + 1 < |Nodes| then Nodes[i + 1] else null)
      && count == |Nodes| == |Contents|
      && (forall i | 0 <= i < |Nodes| :: Nodes[i].value == Contents[i])
      && (head == null <==> Nodes == [])
      && (Nodes != [] ==>
            && head == Nodes[0]
            && end == Nodes[|Nodes| - 1])
    }

    constructor ()
      ensures Valid() && fresh(Repr)
      ensures Contents == []
    {
      head := null;
      end := null;
      count := 0;
      Contents, Nodes, Repr := [], [], {this};
    }

    /** The value at `pos`. A negative position gives the front, as the walk does not start.
        The guard lets through the position just past the end, where NULL is followed. */
    method Get(pos: int) returns (r: Access<T>)
      requires Valid()
      ensures r == if Contents == [] || pos > |Contents| then Absent
                   else if pos == |Contents| then Crash
                   else Found(Contents[if pos < 0 then 0 else pos])
    {
      if head == null {
        return Absent;
      }
      if pos > count {
        return Absent;
      }
      var curr := Walk(pos);
      if curr == null {
        return Crash;
      }
      r := Found(curr.value);
    }

    method Set(pos: int, value: T) returns (r: Access<()>)
      requires Valid()
      modifies Repr
      ensures Valid() && Repr == old(Repr)
      ensures r == if old(Contents) == [] || pos > |old(Contents)| then Absent
                   else if pos == |old(Contents)| then Crash
                   else Found(())
      ensures Contents ==
              if r.Found? then old(Contents)[(if pos < 0 then 0 else pos) := value] else old(Contents)
    {
      if head == null {
        return Absent;
      }
      if pos > count {
        return Absent;
      }
      var curr := Walk(pos);
      if curr == null {
        return Crash;
      }
      curr.value := value;
      Contents := Contents[(if pos < 0 then 0 else pos) := value];
      r := Found(());
    }

    /** The index loop shared by Get and Set. */
    method Walk(pos: int) returns (curr: Linkednode?<T>)
      requires Valid() && Nodes != [] && pos <= |Nodes|
      ensures curr == if pos < 0 then Nodes[0] else if pos < |Nodes| then Nodes[pos] else null
    {
      curr := head;
      var i := 0;
      while i < pos
        invariant 0 <= i <= if pos < 0 then 0 else pos
        invariant curr == if i < |Nodes| then Nodes[i] else null
      {
        curr := curr.next;
        i := i + 1;
      }
    }

    /** Unlinks the front node; `end` keeps pointing at the last node popped. */
    method Pop() returns (result: Linkednode?<T>)
      requires Valid()
      modifies Repr
      ensures Valid() && Repr <= old(Repr)
      ensures result == null <==> old(Contents) == []
      ensures result == null ==> Contents == []
      ensures result != null ==>
                && result in old(Repr) && result !in Repr
                && result.next == null
                && [result.value] + Contents == old(Contents)
    {
      if head == null {
        return null;
      }
      result := head;
      head := head.next;
      result.next := null;
      count := count - 1;
      Contents, Nodes, Repr := Contents[1..], Nodes[1..], Repr - {result};
    }

    method Append(value: T)
      requires Valid()
      modifies Repr
      ensures Valid() && fresh(Repr - old(Repr)) && old(Repr) <= Repr
      ensures Contents == old(Contents) + [value]
    {
      var node := new Linkednode(value);
      if head == null {
        head := node;
        end := node;
      }
      end.next := node;
      end := node;
      end.next := null;
      count := count + 1;
      Contents, Nodes, Repr := Contents + [value], Nodes + [node], Repr + {node};
    }
  }
}
