/**
 The ring buffer of pending connections, proved to be a bounded double-ended sequence.
 */
module ConnRing {
  import opened Options
  import opened Circular

  class Ring<T> {
    const connections: array<Option<T>>
    var next: nat
    var size: nat
    ghost var contents: seq<T>  // from oldest to newest

    // The slot of the oldest element.
    function Oldest(): (i: nat)
      reads this
      requires next < connections.Length && size <= connections.Length
      ensures i < connections.Length
    {
      if next >= size then next - size else next + connections.Length - size
    }

    // The k-th oldest element stands k slots after the oldest, and all other slots are free.
    ghost predicate Valid()
      reads this, connections
    {
      && next < connections.Length && size <= connections.Length && |contents| == size
      && (forall i :: 0 <= i < connections.Length ==>
            var k := Steps(Oldest(), i, connections.Length);
            connections[i] == if k < size then Some(contents[k]) else None)
    }

    constructor (maxSize: nat)
      requires maxSize > 0
      ensures Valid() && fresh(connections) && connections.Length == maxSize && contents == []
    {
      connections := new Option<T>[maxSize](_ => None);
      next, size, contents := 0, 0, [];
    }

    // The newest element.
    method Peek() returns (c: Option<T>)
      requires Valid()
      ensures c == if contents == [] then None else Some(contents[|contents| - 1])
    {
      var i := next - 1;
      if i < 0 {
        i := connections.Length - 1;
      }
      c := connections[i];
    }

    method PeekOldest() returns (c: Option<T>)
      requires Valid()
      ensures c == if contents == [] then None else Some(contents[0])
    {
      var i := next - size;
      if i < 0 {
        i := i + connections.Length;
      }
      c := connections[i];
    }

    // Appends; a full ring gives up its oldest element.
    method Enqueue(c: T) returns (oldest: Option<T>)
      requires Valid()
      modifies this, connections
      ensures Valid()
      ensures if |old(contents)| == connections.Length
              then oldest == Some(old(contents)[0]) && contents == old(contents)[1..] + [c]
              else oldest == None && contents == old(contents) + [c]
    {
      oldest := None;
      if size == connections.Length {
        oldest := connections[next];
        contents := contents[1..] + [c];
      } else {
        size := size + 1;
        contents := contents + [c];
      }
      connections[next] := Some(c);
      next := next + 1;
      if next == connections.Length {
        next := 0;
      }
      ghost var n := connections.Length;
      assert Oldest() == if oldest.Some? then Wrap(old(Oldest()), if n == 1 then 0 else 1, n) else old(Oldest());
      forall i | 0 <= i < n
        ensures connections[i] == var k := Steps(Oldest(), i, n); if k < size then Some(contents[k]) else None
      {
        if i != old(next) { assert connections[i] == old(connections[i]); }
      }
    }

    // Removes the newest element.
    method Dequeue() returns (c: Option<T>)
      requires Valid() && contents != []
      modifies this, connections
      ensures Valid()
      ensures c == Some(old(contents)[|old(contents)| - 1])
      ensures contents == old(contents)[..|old(contents)| - 1]
    {
      next := if next == 0 then connections.Length - 1 else next - 1;
      c := connections[next];
      connections[next] := None;
      size := size - 1;
      contents := contents[..|contents| - 1];
    }

    method DequeueOldest() returns (c: Option<T>)
      requires Valid() && contents != []
      modifies this, connections
      ensures Valid()
      ensures c == Some(old(contents)[0]) && contents == old(contents)[1..]
    {
      var i := next - size;
      if i < 0 {
        i := i + connections.Length;
      }
      c := connections[i];
      connections[i] := None;
      size := size - 1;
      contents := contents[1..];
    }

    // The elements a caller's function is applied to, in order.
    method RangeOver() returns (visited: seq<T>)
      requires Valid()
      ensures visited == contents
    {
      var start := next - size;
      if start < 0 {
        start := connections.Length + start;
      }
      var finish := start + size;
      if finish >= connections.Length {
        finish := connections.Length;
      }
      visited := [];
      for i := start to finish
        invariant visited == contents[..i - start]
      {
        visited := visited + [connections[i].value];
      }
      var rest := size + start - finish;
      for i := 0 to rest
        invariant visited == contents[..finish - start + i]
      {
        visited := visited + [connections[i].value];
      }
    }
  }
}
