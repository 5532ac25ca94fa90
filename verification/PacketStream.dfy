/** Cutting a stream of bytes back into packets (network_task.cpp: NotifyData;
    network_oper_define.h: packet_header, packet_buffer). */
module PacketStream {
  type Byte = b: int | 0 <= b < 256

  const HEADER_SIZE: nat := 16
  const PACKET_SIZE: nat := 65535
  const BUFFER_SIZE: nat := 5 * 65535

  /** The signed length field, bytes 4 to 7 of a packet, lowest first. */
  function LengthField(b: seq<Byte>): int
    requires |b| >= 8
  {
    var n: int := b[4] as int + 0x100 * b[5] as int + 0x1_0000 * b[6] as int + 0x100_0000 * b[7] as int;
    if n >= 0x8000_0000 then n - 0x1_0000_0000 else n
  }

  /** A packet says how long it is, header included. */
  predicate WellSized(p: seq<Byte>) { HEADER_SIZE <= |p| <= PACKET_SIZE && LengthField(p) == |p| }

  /** The length of a packet is its second word, lowest byte first; a packet has between 16 and 65535
      bytes. */
  lemma WellSizedIs(p: seq<Byte>)
    ensures WellSized(p) <==>
      && 16 <= |p| <= 65535
      && p[4] as int == |p| % 256 && p[5] as int == |p| / 256 && p[6] as int == 0 && p[7] as int == 0
  {}

  predicate AllWellSized(ps: seq<seq<Byte>>) { forall i :: 0 <= i < |ps| ==> WellSized(ps[i]) }

  function Concat(ps: seq<seq<Byte>>): seq<Byte> {
    if ps == [] then [] else ps[0] + Concat(ps[1..])
  }

  /** What an event carries: the packet in a block of fixed size. */
  function Padded(p: seq<Byte>): seq<Byte> {
    if |p| <= PACKET_SIZE then p + seq(PACKET_SIZE - |p|, _ => 0) else p
  }

  lemma PaddedIs(p: seq<Byte>)
    requires |p| <= 65535
    ensures |Padded(p)| == 65535 && Padded(p)[..|p|] == p && forall i :: |p| <= i < 65535 ==> Padded(p)[i] == 0
  {}

  function PaddedAll(ps: seq<seq<Byte>>): seq<seq<Byte>> { seq(|ps|, i requires 0 <= i < |ps| => Padded(ps[i])) }

  /** How many whole packets stand at the front of n bytes. */
  function Whole(ps: seq<seq<Byte>>, n: nat): (k: nat)
    ensures k <= |ps|
  {
    if ps == [] || n < |ps[0]| then 0 else 1 + Whole(ps[1..], n - |ps[0]|)
  }

  predicate IsPrefix(a: seq<Byte>, b: seq<Byte>) { |a| <= |b| && a == b[..|a|] }

  /** Bytes that begin with a whole packet. */
  lemma FirstPacket(ps: seq<seq<Byte>>, bytes: seq<Byte>)
    requires AllWellSized(ps) && IsPrefix(bytes, Concat(ps)) && |bytes| >= HEADER_SIZE
    ensures ps != [] && LengthField(bytes) == |ps[0]|
    ensures |ps[0]| <= |bytes| ==> bytes[..|ps[0]|] == ps[0] && IsPrefix(bytes[|ps[0]|..], Concat(ps[1..]))
  {
    var p := ps[0];
    assert forall i :: 0 <= i < 8 ==> bytes[i] == Concat(ps)[i] == p[i];
    if |p| <= |bytes| {
      assert Concat(ps)[..|bytes|][..|p|] == p;
      assert Concat(ps)[|p|..] == Concat(ps[1..]);
    }
  }

  class Receiver {
    const rbuffer: array<Byte>
    var rlength: nat
    var events: seq<seq<Byte>>

    ghost predicate Valid()
      reads this
    {
      rbuffer.Length == BUFFER_SIZE && rlength <= BUFFER_SIZE
    }

    ghost function Held(): seq<Byte>
      reads this, rbuffer
      requires Valid()
    {
      rbuffer[..rlength]
    }

    constructor ()
      ensures Valid() && fresh(rbuffer) && Held() == [] && events == []
    {
      rbuffer := new Byte[BUFFER_SIZE](_ => 0);
      rlength := 0;
      events := [];
    }

    /** Takes a chunk of a stream of well-sized packets: every packet that is complete now becomes an
        event, in order, and the buffer keeps the incomplete rest. */
    method NotifyData(data: seq<Byte>, ghost ps: seq<seq<Byte>>) returns (code: int)
      requires Valid() && rlength + |data| <= BUFFER_SIZE
      requires AllWellSized(ps) && IsPrefix(Held() + data, Concat(ps))
      modifies this, rbuffer
      ensures Valid()
      ensures var all, k := old(Held()) + data, Whole(ps, |old(Held()) + data|);
        && events == old(events) + PaddedAll(ps[..k])
        && |Concat(ps[..k])| <= |all| && Held() == all[|Concat(ps[..k])|..]
        && (k < |ps| ==> |Held()| < |ps[k]|)
      ensures code == if rlength < HEADER_SIZE then 1 else -1
    {
      hide LengthField, Padded, PaddedAll, Concat, WellSized, Whole;
      ghost var all := Held() + data;
      Append(data);
      ghost var done, rest := [], ps;
      Nothing(all);
      assert [] + ps == ps;
      while true
        invariant Valid() && ps == done + rest && AllWellSized(rest)
        invariant all == Concat(done) + Held() && IsPrefix(Held(), Concat(rest))
        invariant events == old(events) + PaddedAll(done)
        decreases rlength
      {
        if rlength < HEADER_SIZE {
          if rest != [] { assert WellSized(rest[0]); LongEnough(rest[0]); }
          WholeIs(ps, done, rest, Held());
          return 1;
        }
        ghost var held := Held();
        var taken := TakePacket(rest);
        if !taken {
          WholeIs(ps, done, rest, Held());
          return -1;
        }
        MoveOver(done, rest, held);
        done, rest := done + [rest[0]], rest[1..];
      }
    }

    /** Makes an event of the packet at the front if all of it is there. */
    method TakePacket(ghost rest: seq<seq<Byte>>) returns (taken: bool)
      requires Valid() && HEADER_SIZE <= rlength && AllWellSized(rest) && IsPrefix(Held(), Concat(rest))
      modifies this`rlength, this`events, rbuffer
      ensures Valid() && rest != [] && (taken <==> |rest[0]| <= |old(Held())|)
      ensures !taken ==> Held() == old(Held()) && events == old(events)
      ensures taken ==>
        && old(Held())[..|rest[0]|] == rest[0] && Held() == old(Held())[|rest[0]|..] && |Held()| < |old(Held())|
        && IsPrefix(Held(), Concat(rest[1..])) && events == old(events) + [Padded(rest[0])]
    {
      hide LengthField, Padded, Concat, WellSized;
      FirstPacket(rest, Held());
      assert WellSized(rest[0]);
      LongEnough(rest[0]);
      SameField(rbuffer[..8], Held());
      var size := LengthField(rbuffer[..8]);
      if size > rlength { return false; }
      Emit(size);
      return true;
    }

    method Append(data: seq<Byte>)
      requires Valid() && rlength + |data| <= BUFFER_SIZE
      modifies this`rlength, rbuffer
      ensures Valid() && Held() == old(Held()) + data
    {
      forall i | 0 <= i < |data| { rbuffer[rlength + i] := data[i]; }
      rlength := rlength + |data|;
      assert rbuffer[..rlength] == old(Held()) + data;
    }

    /** Makes an event of the first bytes and moves the others down. */
    method Emit(size: nat)
      requires Valid() && 0 < size <= rlength && size <= PACKET_SIZE
      modifies this`rlength, this`events, rbuffer
      ensures Valid() && rlength == old(rlength) - size
      ensures Held() == old(Held())[size..] && events == old(events) + [Padded(old(Held())[..size])]
    {
      hide Padded;
      var pack := Padded(rbuffer[..size]);
      rlength := rlength - size;
      MoveDown(size, rlength);
      events := events + [pack];
      assert old(Held())[..size] == old(rbuffer[..size]);
    }

    method MoveDown(from: nat, n: nat)
      requires from + n <= rbuffer.Length
      modifies rbuffer
      ensures rbuffer[..n] == old(rbuffer[from..from + n])
    {
      ghost var bytes := rbuffer[from..from + n];
      for i := 0 to n
        invariant forall k :: 0 <= k < i ==> rbuffer[k] == bytes[k]
        invariant forall k :: i <= k < n ==> rbuffer[from + k] == bytes[k]
      {
        assert rbuffer[from + i] == bytes[i];
        rbuffer[i] := rbuffer[from + i];
      }
    }
  }

  lemma SameField(a: seq<Byte>, b: seq<Byte>)
    requires |a| >= 8 && |b| >= 8 && forall i :: 0 <= i < 8 ==> a[i] == b[i]
    ensures LengthField(a) == LengthField(b)
  {}

  lemma LongEnough(p: seq<Byte>)
    requires WellSized(p)
    ensures HEADER_SIZE <= |p| <= PACKET_SIZE
  {}

  lemma Nothing(all: seq<Byte>)
    ensures Concat([]) == [] && PaddedAll([]) == [] && all == Concat([]) + all
  {}

  /** One more packet has been taken off. */
  lemma MoveOver(done: seq<seq<Byte>>, rest: seq<seq<Byte>>, held: seq<Byte>)
    requires rest != [] && |rest[0]| <= |held| && held[..|rest[0]|] == rest[0]
    ensures done + rest == (done + [rest[0]]) + rest[1..]
    ensures Concat(done) + held == Concat(done + [rest[0]]) + held[|rest[0]|..]
    ensures PaddedAll(done + [rest[0]]) == PaddedAll(done) + [Padded(rest[0])]
  {
    hide Concat, Padded;
    ConcatAppend(done, rest[0]);
    Regroup(Concat(done), rest[0], held);
    PaddedAppend(done, [rest[0]]);
    assert rest == [rest[0]] + rest[1..];
  }

  lemma Regroup(done: seq<Byte>, next: seq<Byte>, held: seq<Byte>)
    requires |next| <= |held| && held[..|next|] == next
    ensures done + held == (done + next) + held[|next|..]
  {
    assert held == next + held[|next|..];
  }

  /** The packets taken off are all the whole ones. */
  lemma {:induction false} WholeIs(ps: seq<seq<Byte>>, done: seq<seq<Byte>>, rest: seq<seq<Byte>>, held: seq<Byte>)
    requires ps == done + rest && (rest != [] ==> |held| < |rest[0]|) && (rest == [] ==> held == [])
    ensures Whole(ps, |Concat(done) + held|) == |done| && ps[..|done|] == done
    ensures (Concat(done) + held)[|Concat(done)|..] == held
    decreases |done|
  {
    if done == [] {
      assert ps == rest;
    } else {
      WholeIs(ps[1..], done[1..], rest, held);
      assert ps[1..] == done[1..] + rest;
      assert |Concat(done) + held| - |ps[0]| == |Concat(done[1..]) + held|;
    }
  }

  lemma {:induction false} ConcatAppend(ps: seq<seq<Byte>>, p: seq<Byte>)
    ensures Concat(ps + [p]) == Concat(ps) + p
  {
    if ps == [] {
      assert ps + [p] == [p] && Concat([p]) == p + Concat([]);
    } else {
      ConcatAppend(ps[1..], p);
      assert (ps + [p])[1..] == ps[1..] + [p];
    }
  }

  lemma {:induction false} ConcatSplit(ps: seq<seq<Byte>>, k: nat)
    requires k <= |ps|
    ensures Concat(ps) == Concat(ps[..k]) + Concat(ps[k..])
  {
    if k > 0 {
      ConcatSplit(ps[1..], k - 1);
      assert ps[..k][1..] == ps[1..][..k - 1] && ps[1..][k - 1..] == ps[k..];
    } else {
      assert ps[..0] == [] && ps[0..] == ps;
    }
  }

  lemma PaddedAppend(a: seq<seq<Byte>>, b: seq<seq<Byte>>)
    ensures PaddedAll(a + b) == PaddedAll(a) + PaddedAll(b)
  {
    hide Padded;
  }

  /** How much of the first n bytes of a stream belongs to a packet that is not complete. */
  function Incomplete(ps: seq<seq<Byte>>, n: nat): int { n - |Concat(ps[..Whole(ps, n)])| }

  /** Every chunk fits into the buffer behind what is held when it comes. */
  ghost predicate ChunksFit(chunks: seq<seq<Byte>>, ps: seq<seq<Byte>>) {
    forall i :: 0 <= i < |chunks| ==> Incomplete(ps, |Concat(chunks[..i])|) + |chunks[i]| <= BUFFER_SIZE
  }

  /** However the beginning of a stream of packets is cut into chunks that fit the buffer, each packet
      that has arrived becomes one event, in order, and the buffer holds just the incomplete tail. */
  method ReceiveAll(r: Receiver, chunks: seq<seq<Byte>>, ghost ps: seq<seq<Byte>>)
    requires r.Valid() && r.Held() == [] && AllWellSized(ps) && IsPrefix(Concat(chunks), Concat(ps))
    requires ChunksFit(chunks, ps)
    modifies r, r.rbuffer
    ensures r.Valid()
    ensures var k := Whole(ps, |Concat(chunks)|);
      && r.events == old(r.events) + PaddedAll(ps[..k])
      && Concat(chunks) == Concat(ps[..k]) + r.Held()
      && (if k < |ps| then |r.Held()| < |ps[k]| else r.Held() == [])
  {
    hide LengthField, PaddedAll, Concat, WellSized, Whole, Cut;
    ghost var done, rest := [], ps;
    Nothing([]);
    CutStart(chunks, ps);
    for i := 0 to |chunks|
      invariant r.Valid() && Cut(chunks, i, ps, done, rest, r.Held())
      invariant r.events == old(r.events) + PaddedAll(done)
    {
      ghost var held := r.Held();
      CutNext(chunks, i, ps, done, rest, held);
      var _ := r.NotifyData(chunks[i], rest);
      ghost var k := Whole(rest, |held + chunks[i]|);
      CutStep(chunks, i, ps, done, rest, held, k, r.Held());
      PaddedAppend(done, rest[..k]);
      done, rest := done + rest[..k], rest[k..];
    }
    CutEnd(chunks, ps, done, rest, r.Held());
  }

  /** After i chunks: the packets taken off, the others, and what is held of the next. */
  ghost predicate Cut(chunks: seq<seq<Byte>>, i: nat, ps: seq<seq<Byte>>, done: seq<seq<Byte>>, rest: seq<seq<Byte>>,
                      held: seq<Byte>)
    requires i <= |chunks|
  {
    && ps == done + rest && AllWellSized(ps) && Concat(chunks[..i]) == Concat(done) + held
    && (if rest == [] then held == [] else |held| < |rest[0]|)
  }

  lemma CutStart(chunks: seq<seq<Byte>>, ps: seq<seq<Byte>>)
    requires AllWellSized(ps)
    ensures Cut(chunks, 0, ps, [], ps, [])
  {
    assert chunks[..0] == [] && [] + ps == ps;
    if ps != [] { LongEnough(ps[0]); }
  }

  lemma CutNext(chunks: seq<seq<Byte>>, i: nat, ps: seq<seq<Byte>>, done: seq<seq<Byte>>, rest: seq<seq<Byte>>,
                held: seq<Byte>)
    requires i < |chunks| && Cut(chunks, i, ps, done, rest, held) && IsPrefix(Concat(chunks), Concat(ps))
    ensures AllWellSized(rest) && IsPrefix(held + chunks[i], Concat(rest))
    ensures Incomplete(ps, |Concat(chunks[..i])|) == |held|
  {
    hide Concat, WellSized;
    forall n | 0 <= n < |rest| ensures WellSized(rest[n]) {
      assert rest[n] == ps[|done| + n];
    }
    WholeIs(ps, done, rest, held);
    ConcatSplit(chunks, i);
    FirstOf(chunks[i..]);
    ConcatSplit(ps, |done|);
    assert ps[..|done|] == done && ps[|done|..] == rest;
    var later := Concat(chunks[i..][1..]);
    BehindDone(Concat(chunks), Concat(done), held, chunks[i], later);
    PrefixBehind(Concat(done), held + chunks[i], later, Concat(rest));
  }

  lemma BehindDone(all: seq<Byte>, done: seq<Byte>, held: seq<Byte>, next: seq<Byte>, later: seq<Byte>)
    requires all == (done + held) + (next + later)
    ensures all == done + ((held + next) + later)
  {}

  lemma PrefixBehind(front: seq<Byte>, next: seq<Byte>, later: seq<Byte>, rest: seq<Byte>)
    requires IsPrefix(front + (next + later), front + rest)
    ensures IsPrefix(next, rest)
  {
    var a, b := front + (next + later), front + rest;
    assert a[|front|..] == next + later && b[|front|..] == rest;
    assert a[|front|..|front| + |next|] == next;
    assert b[|front|..|front| + |next|] == rest[..|next|];
  }

  lemma CutStep(chunks: seq<seq<Byte>>, i: nat, ps: seq<seq<Byte>>, done: seq<seq<Byte>>, rest: seq<seq<Byte>>,
                held: seq<Byte>, k: nat, now: seq<Byte>)
    requires i < |chunks| && Cut(chunks, i, ps, done, rest, held) && IsPrefix(held + chunks[i], Concat(rest))
    requires k <= |rest| && |Concat(rest[..k])| <= |held + chunks[i]|
    requires now == (held + chunks[i])[|Concat(rest[..k])|..] && (k < |rest| ==> |now| < |rest[k]|)
    ensures Cut(chunks, i + 1, ps, done + rest[..k], rest[k..], now)
  {
    hide Concat, WellSized;
    Received(chunks, i, done, rest, held, k, now);
    if k == |rest| { assert rest[..k] == rest; }
  }

  lemma CutEnd(chunks: seq<seq<Byte>>, ps: seq<seq<Byte>>, done: seq<seq<Byte>>, rest: seq<seq<Byte>>, held: seq<Byte>)
    requires Cut(chunks, |chunks|, ps, done, rest, held)
    ensures var k := Whole(ps, |Concat(chunks)|);
      && k == |done| && ps[..k] == done && Concat(chunks) == Concat(done) + held
      && (if k < |ps| then |held| < |ps[k]| else held == [])
  {
    hide Concat, WellSized;
    assert chunks[..|chunks|] == chunks;
    WholeIs(ps, done, rest, held);
  }

  /** What has been received is what has been taken off and what is held. */
  lemma Received(chunks: seq<seq<Byte>>, i: nat, done: seq<seq<Byte>>, rest: seq<seq<Byte>>, held: seq<Byte>, k: nat,
                 now: seq<Byte>)
    requires i < |chunks| && Concat(chunks[..i]) == Concat(done) + held && k <= |rest|
    requires |Concat(rest[..k])| <= |held + chunks[i]| && now == (held + chunks[i])[|Concat(rest[..k])|..]
    requires IsPrefix(held + chunks[i], Concat(rest))
    ensures Concat(chunks[..i + 1]) == Concat(done + rest[..k]) + now
    ensures done + rest == (done + rest[..k]) + rest[k..]
  {
    hide Concat;
    assert chunks[..i + 1] == chunks[..i] + [chunks[i]];
    ConcatAppend(chunks[..i], chunks[i]);
    ConcatSplit(done + rest[..k], |done|);
    assert (done + rest[..k])[..|done|] == done && (done + rest[..k])[|done|..] == rest[..k];
    ConcatSplit(rest, k);
    var n := |Concat(rest[..k])|;
    assert (held + chunks[i])[..n] == Concat(rest)[..n] == Concat(rest[..k]);
    assert held + chunks[i] == Concat(rest[..k]) + now;
  }

  /** Chunks of up to four largest packets always fit. */
  lemma SmallChunksFit(chunks: seq<seq<Byte>>, ps: seq<seq<Byte>>)
    requires AllWellSized(ps) && IsPrefix(Concat(chunks), Concat(ps))
    requires forall i :: 0 <= i < |chunks| ==> |chunks[i]| <= 4 * PACKET_SIZE
    ensures ChunksFit(chunks, ps)
  {
    hide LengthField, Concat, Whole;
    forall i | 0 <= i < |chunks| ensures Incomplete(ps, |Concat(chunks[..i])|) + |chunks[i]| <= BUFFER_SIZE {
      ConcatSplit(chunks, i);
      IncompleteIsShort(ps, |Concat(chunks[..i])|);
    }
  }

  lemma {:induction false} IncompleteIsShort(ps: seq<seq<Byte>>, n: nat)
    requires AllWellSized(ps) && n <= |Concat(ps)|
    ensures Incomplete(ps, n) <= PACKET_SIZE
    decreases |ps|
  {
    hide LengthField;
    if ps != [] && n >= |ps[0]| {
      IncompleteIsShort(ps[1..], n - |ps[0]|);
      var k := Whole(ps, n);
      assert ps[..k][1..] == ps[1..][..k - 1];
    }
  }

  lemma FirstOf(ps: seq<seq<Byte>>)
    requires ps != []
    ensures Concat(ps) == ps[0] + Concat(ps[1..])
  {}
}
