/** A byte queue with room kept free at its head (buffer.hpp). */
module ByteBuffer {
  import opened PowerOfTwo

  type Byte = b: int | 0 <= b < 256

  const STACK_CAPACITY := 216

  class Buffer {
    const stack: array<Byte>
    var heap: array?<Byte>
    var headreserved: nat
    var capacity: nat
    var readpos: nat
    var writepos: nat

    ghost predicate Valid()
      reads this
    {
      && stack.Length == STACK_CAPACITY && readpos <= writepos <= capacity && headreserved <= capacity
      && if heap == null then capacity == STACK_CAPACITY else heap.Length == capacity && heap != stack
    }

    function Data(): array<Byte>
      reads this
    {
      if heap == null then stack else heap
    }

    /** The bytes that were written and not read, in order. */
    ghost function Contents(): seq<Byte>
      reads this, Data()
      requires Valid()
    {
      Data()[readpos..writepos]
    }

    function WriteableSize(): nat
      reads this
      requires Valid()
    {
      capacity - writepos
    }

    constructor (capacity: nat, headreserved: nat)
      requires headreserved <= STACK_CAPACITY
      ensures Valid() && fresh(stack) && fresh(Data()) && Contents() == []
      ensures this.headreserved == readpos == headreserved && capacity <= WriteableSize()
      ensures capacity + headreserved <= 216 ==> this.capacity == 216
    {
      stack := new Byte[STACK_CAPACITY](_ => 0);
      heap := null;
      this.headreserved := headreserved;
      this.capacity := STACK_CAPACITY;
      readpos := headreserved;
      writepos := headreserved;
      new;
      if capacity + headreserved > this.capacity {
        CheckSpace(capacity);
      }
    }

    /** Makes room for more bytes and keeps the contents: nothing moves when there is room; the bytes
        move down to the reserved head when that is enough, which it only is when the read position
        is beyond it; otherwise the buffer grows. */
    method CheckSpace(need: nat)
      requires Valid()
      modifies this`heap, this`capacity, this`readpos, this`writepos, Data()
      ensures Valid() && (Data() == old(Data()) || fresh(Data()))
      ensures need <= WriteableSize() && Contents() == old(Contents())
      ensures if need <= old(WriteableSize()) then
          readpos == old(readpos) && capacity == old(capacity) && Data() == old(Data())
        else if need + headreserved <= old(WriteableSize() + readpos) then
          readpos == headreserved < old(readpos) && capacity == old(capacity) && Data() == old(Data())
        else
          readpos == old(readpos) && capacity == NextPow2(old(writepos) + need) > old(capacity) && fresh(Data())
    {
      hide NextPow2;
      if WriteableSize() >= need { return; }
      if WriteableSize() + readpos < need + headreserved {
        Grow(writepos + need);
      } else {
        Compact();
      }
    }

    method Grow(least: nat)
      requires Valid() && capacity < least
      modifies this`heap, this`capacity
      ensures Valid() && fresh(Data()) && capacity == NextPow2(least) && least <= capacity
      ensures Contents() == old(Contents())
    {
      hide NextPow2;
      var required := NextPow2(least);
      NextPow2Is(least);
      var bytes, used := Data(), writepos;
      ghost var before := Contents();
      heap := new Byte[required](i requires 0 <= i < required reads bytes =>
        if i < used && i < bytes.Length then bytes[i] else 0);
      capacity := required;
      assert forall i :: 0 <= i < |before| ==> heap[readpos..writepos][i] == before[i];
    }

    method Compact()
      requires Valid() && headreserved < readpos
      modifies this`readpos, this`writepos, Data()
      ensures Valid() && readpos == headreserved && Data() == old(Data())
      ensures writepos == headreserved + |old(Contents())| && Contents() == old(Contents())
    {
      var readable, data, from, to := writepos - readpos, Data(), readpos, headreserved;
      ghost var bytes := Contents();
      for i := 0 to readable
        invariant forall k :: 0 <= k < i ==> data[to + k] == bytes[k]
        invariant forall k :: i <= k < readable ==> data[from + k] == bytes[k]
      {
        assert data[from + i] == bytes[i];
        data[to + i] := data[from + i];
      }
      readpos := headreserved;
      writepos := readpos + readable;
      assert forall k :: 0 <= k < readable ==> data[readpos..writepos][k] == bytes[k];
    }

    /** Appends bytes. */
    method WriteBack(src: seq<Byte>)
      requires Valid()
      modifies this`heap, this`capacity, this`readpos, this`writepos, Data()
      ensures Valid() && (Data() == old(Data()) || fresh(Data()))
      ensures Contents() == old(Contents()) + src
      ensures if |src| <= old(WriteableSize()) then readpos == old(readpos) && capacity == old(capacity)
        else if |src| + headreserved <= old(WriteableSize() + readpos) then
          readpos == headreserved && capacity == old(capacity)
        else readpos == old(readpos) && capacity == NextPow2(old(writepos) + |src|)
    {
      hide NextPow2;
      if src == [] { return; }
      CheckSpace(|src|);
      Append(src);
    }

    method Append(src: seq<Byte>)
      requires Valid() && |src| <= WriteableSize()
      modifies this`writepos, Data()
      ensures Valid() && Data() == old(Data()) && Contents() == old(Contents()) + src
    {
      var data := Data();
      forall i | 0 <= i < |src| { data[writepos + i] := src[i]; }
      writepos := writepos + |src|;
      assert data[readpos..writepos] == old(Contents()) + src;
    }

    /** Puts bytes in front, into the free head; without enough of it, or without bytes, nothing
        happens. */
    method WriteFront(src: seq<Byte>, offset: nat, count: nat) returns (ok: bool)
      requires Valid()
      modifies this`readpos, Data()
      ensures Valid() && Data() == old(Data())
      ensures ok <==> src != [] && offset < count && |src| <= old(readpos)
      ensures Contents() == if ok then src + old(Contents()) else old(Contents())
      ensures readpos == if ok then old(readpos) - |src| else old(readpos)
    {
      if src == [] || offset >= count { return false; }
      if |src| > readpos { return false; }
      readpos := readpos - |src|;
      var data := Data();
      forall i | 0 <= i < |src| { data[readpos + i] := src[i]; }
      assert data[readpos..readpos + |src|] == src;
      assert data[readpos + |src|..writepos] == old(Contents());
      assert data[readpos..writepos] == src + old(Contents());
      return true;
    }

    /** Takes bytes from the front, all of them or none. */
    method Read(n: nat) returns (ok: bool, out: seq<Byte>)
      requires Valid()
      modifies this`readpos
      ensures Valid()
      ensures ok <==> 0 < n <= |old(Contents())|
      ensures readpos == old(readpos) + |out|
      ensures ok ==> out == old(Contents())[..n] && Contents() == old(Contents())[n..]
      ensures !ok ==> out == [] && Contents() == old(Contents())
    {
      if n == 0 { return false, []; }
      if readpos + n > writepos { return false, []; }
      out := Data()[readpos..readpos + n];
      readpos := readpos + n;
      ok := true;
    }

    method Clear()
      requires Valid()
      modifies this`readpos, this`writepos
      ensures Valid() && Contents() == [] && readpos == headreserved
    {
      readpos := headreserved;
      writepos := headreserved;
    }
  }

  // ----- Whole runs -----

  datatype Op = Back(bytes: seq<Byte>) | Front(bytes: seq<Byte>) | Take(n: nat)

  /** A queue of bytes with the room before it, the room it has in all, and the head to be reserved. */
  datatype Queue = Queue(bytes: seq<Byte>, head: nat, capacity: nat, reserved: nat)

  function Room(q: Queue): int { q.capacity - q.head - |q.bytes| }

  function Done(q: Queue, op: Op): Queue {
    match op
    case Back(bytes) =>
      if |bytes| <= Room(q) then q.(bytes := q.bytes + bytes)
      else if |bytes| + q.reserved <= Room(q) + q.head then q.(bytes := q.bytes + bytes, head := q.reserved)
      else q.(bytes := q.bytes + bytes, capacity := NextPow2(q.head + |q.bytes| + |bytes|))
    case Front(bytes) => if |bytes| <= q.head then q.(bytes := bytes + q.bytes, head := q.head - |bytes|) else q
    case Take(n) => if n <= |q.bytes| then q.(bytes := q.bytes[n..], head := q.head + n) else q
  }

  function DoneAll(q: Queue, ops: seq<Op>): Queue {
    if ops == [] then q else Done(DoneAll(q, ops[..|ops| - 1]), ops[|ops| - 1])
  }

  ghost function Abstract(b: Buffer): Queue
    reads b, b.Data()
    requires b.Valid()
  {
    Queue(b.Contents(), b.readpos, b.capacity, b.headreserved)
  }

  method Perform(b: Buffer, op: Op)
    requires b.Valid()
    modifies b`heap, b`capacity, b`readpos, b`writepos, b.Data()
    ensures b.Valid() && (b.Data() == old(b.Data()) || fresh(b.Data()))
    ensures Abstract(b) == Done(old(Abstract(b)), op)
  {
    hide NextPow2;
    match op
    case Back(bytes) =>
      assert b.Contents() + [] == b.Contents();
      b.WriteBack(bytes);
    case Front(bytes) =>
      assert [] + b.Contents() == b.Contents();
      var _ := b.WriteFront(bytes, 0, 1);
    case Take(n) =>
      assert b.Contents()[0..] == b.Contents();
      var _, _ := b.Read(n);
  }

  /** Any run on a buffer is the same run on a queue of bytes, which decides what each write does. */
  method RunAll(b: Buffer, ops: seq<Op>)
    requires b.Valid()
    modifies b`heap, b`capacity, b`readpos, b`writepos, b.Data()
    ensures b.Valid() && Abstract(b) == DoneAll(old(Abstract(b)), ops)
  {
    hide Done;
    assert ops[..0] == [];
    for i := 0 to |ops|
      invariant b.Valid() && (b.Data() == old(b.Data()) || fresh(b.Data()))
      invariant Abstract(b) == DoneAll(old(Abstract(b)), ops[..i])
    {
      assert ops[..i + 1][..i] == ops[..i];
      Perform(b, ops[i]);
    }
    assert ops[..|ops|] == ops;
  }

  ghost predicate NoFront(ops: seq<Op>) { forall i :: 0 <= i < |ops| ==> !ops[i].Front? }

  /** At least the reserved head is free until something is put there. */
  lemma {:induction false} HeadStaysFree(q: Queue, ops: seq<Op>)
    requires q.reserved <= q.head && NoFront(ops)
    ensures DoneAll(q, ops).reserved == q.reserved <= DoneAll(q, ops).head
  {
    if ops != [] {
      HeadStaysFree(q, ops[..|ops| - 1]);
    }
  }

  ghost function Appended(ops: seq<Op>): seq<Byte> {
    if ops == [] then []
    else Appended(ops[..|ops| - 1]) + if ops[|ops| - 1].Back? then ops[|ops| - 1].bytes else []
  }

  /** First in, first out: without front writes, what is left is an end of what was there and what was
      appended since. */
  lemma {:induction false} FirstInFirstOut(q: Queue, ops: seq<Op>) returns (n: nat)
    requires NoFront(ops)
    ensures n <= |q.bytes + Appended(ops)| && DoneAll(q, ops).bytes == (q.bytes + Appended(ops))[n..]
  {
    if ops == [] {
      n := 0;
      assert q.bytes + Appended(ops) == q.bytes;
    } else {
      var m := FirstInFirstOut(q, ops[..|ops| - 1]);
      var before, last := DoneAll(q, ops[..|ops| - 1]), ops[|ops| - 1];
      var all := q.bytes + Appended(ops[..|ops| - 1]);
      OneMoreOp(q, ops);
      hide DoneAll, Appended, NextPow2;
      match last
      case Back(bytes) =>
        n := m;
        PutBehind(q.bytes, Appended(ops[..|ops| - 1]), bytes, m);
      case Take(k) => n := if k <= |before.bytes| then m + k else m;
    }
  }

  lemma PutBehind(a: seq<Byte>, b: seq<Byte>, c: seq<Byte>, m: nat)
    requires m <= |a + b|
    ensures a + (b + c) == (a + b) + c && ((a + b) + c)[m..] == (a + b)[m..] + c
  {}

  lemma OneMoreOp(q: Queue, ops: seq<Op>)
    requires ops != []
    ensures DoneAll(q, ops) == Done(DoneAll(q, ops[..|ops| - 1]), ops[|ops| - 1])
    ensures Appended(ops) == Appended(ops[..|ops| - 1]) + if ops[|ops| - 1].Back? then ops[|ops| - 1].bytes else []
  {}
}
