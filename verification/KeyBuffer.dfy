/** The keyboard ring buffer (drivers/keyboard.rs) as a bounded first-in first-out queue. */
module KeyBuffer {
  import opened Wrappers

  const CAPACITY: nat := 256

  // ---- the queue it stands for ----

  datatype Op = Push(b: byte) | Pop

  /** What is queued after `ops`; a push to a full queue is dropped. */
  function Queued(ops: seq<Op>): (q: seq<byte>)
    ensures |q| <= CAPACITY
  {
    if ops == [] then []
    else
      var q, op := Queued(ops[..|ops| - 1]), ops[|ops| - 1];
      match op
      case Push(b) => if |q| < CAPACITY then q + [b] else q
      case Pop => if q == [] then q else q[1..]
  }

  /** The pushes that found room, in order. */
  function Accepted(ops: seq<Op>): seq<byte> {
    if ops == [] then []
    else
      var before, op := Accepted(ops[..|ops| - 1]), ops[|ops| - 1];
      if op.Push? && |Queued(ops[..|ops| - 1])| < CAPACITY then before + [op.b] else before
  }

  /** What the pops returned, in order. */
  function Popped(ops: seq<Op>): seq<byte> {
    if ops == [] then []
    else
      var before, q := Popped(ops[..|ops| - 1]), Queued(ops[..|ops| - 1]);
      if ops[|ops| - 1].Pop? && q != [] then before + [q[0]] else before
  }

  /** Nothing is lost, repeated or reordered: popped then queued is what was accepted. */
  lemma {:induction false} FirstInFirstOut(ops: seq<Op>)
    ensures Popped(ops) + Queued(ops) == Accepted(ops)
    decreases |ops|
  {
    if ops != [] {
      FirstInFirstOut(ops[..|ops| - 1]);
    }
  }

  // ---- the ring ----

  class Ring {
    const buf: array<byte>
    var read: nat
    var write: nat
    var count: nat

    ghost predicate Valid()
      reads this, buf
    {
      && buf.Length == CAPACITY && read < CAPACITY && count <= CAPACITY
      && write == (read + count) % CAPACITY
    }

    ghost function Contents(): (s: seq<byte>)
      requires Valid()
      reads this, buf
      ensures |s| == count
    {
      seq(count, i requires 0 <= i < count && buf.Length == CAPACITY reads this, buf => buf[(read + i) % CAPACITY])
    }

    constructor ()
      ensures Valid() && Contents() == [] && fresh(buf)
    {
      buf := new byte[CAPACITY](_ => 0);
      read, write, count := 0, 0, 0;
    }

    method Push(b: byte)
      requires Valid()
      modifies this, buf
      ensures Valid()
      ensures Contents() == if |old(Contents())| < 256 then old(Contents()) + [b] else old(Contents())
    {
      if count < CAPACITY {
        buf[write] := b;
        write := (write + 1) % CAPACITY;
        count := count + 1;
        assert Contents() == old(Contents()) + [b];
      }
    }

    method Pop() returns (b: Option<byte>)
      requires Valid()
      modifies this
      ensures Valid()
      ensures var q := old(Contents());
        if q == [] then b == None && Contents() == [] else b == Some(q[0]) && Contents() == q[1..]
    {
      if count == 0 {
        return None;
      }
      b := Some(buf[read]);
      read := (read + 1) % CAPACITY;
      count := count - 1;
      assert Contents() == old(Contents())[1..];
    }

    /** Any interleaving of pushes and pops on an empty ring behaves as the queue. */
    method Drive(ops: seq<Op>) returns (popped: seq<byte>)
      requires Valid() && Contents() == []
      modifies this, buf
      ensures Valid() && Contents() == Queued(ops) && popped == Popped(ops)
      ensures popped + Contents() == Accepted(ops)
    {
      popped := [];
      var i := 0;
      while i < |ops|
        invariant i <= |ops| && Valid()
        invariant Contents() == Queued(ops[..i]) && popped == Popped(ops[..i])
      {
        assert ops[..i + 1][..i] == ops[..i];
        match ops[i] {
          case Push(b) =>
            Push(b);
          case Pop =>
            var b := Pop();
            if b.Some? {
              popped := popped + [b.value];
            }
        }
        i := i + 1;
      }
      assert ops[..i] == ops;
      FirstInFirstOut(ops);
    }
  }
}
