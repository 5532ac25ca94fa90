/** Bit-packed output and input streams (MemoryBitStream.h, MemoryBitStream.cpp). */
module BitStream {
  type Byte = bv8

  // ----- Bits of bytes -----

  /** A shift to the left by any amount up to a whole byte. */
  function Left(b: Byte, k: nat): Byte
    requires k <= 8
  {
    match k
    case 0 => b
    case 1 => b << 1
    case 2 => b << 2
    case 3 => b << 3
    case 4 => b << 4
    case 5 => b << 5
    case 6 => b << 6
    case 7 => b << 7
    case _ => 0
  }

  function Right(b: Byte, k: nat): Byte
    requires k <= 8
  {
    match k
    case 0 => b
    case 1 => b >> 1
    case 2 => b >> 2
    case 3 => b >> 3
    case 4 => b >> 4
    case 5 => b >> 5
    case 6 => b >> 6
    case 7 => b >> 7
    case _ => 0
  }

  predicate Bit(b: Byte, i: nat)
    requires i < 8
  {
    Right(b, i) & 1 == 1
  }

  lemma LeftBit(b: Byte, k: nat, i: nat)
    requires k <= 8 && i < 8
    ensures Bit(Left(b, k), i) == (i >= k && Bit(b, i - k))
  {}

  lemma RightBit(b: Byte, k: nat, i: nat)
    requires k <= 8 && i < 8
    ensures Bit(Right(b, k), i) == (i + k < 8 && Bit(b, i + k))
  {}

  lemma OrBit(a: Byte, b: Byte, i: nat)
    requires i < 8
    ensures Bit(Or(a, b), i) == (Bit(a, i) || Bit(b, i))
  {
    OrRight(a, b, i);
    OrLow(Right(a, i), Right(b, i));
  }

  lemma OrRight(a: Byte, b: Byte, i: nat)
    requires i < 8
    ensures Right(a | b, i) == Right(a, i) | Right(b, i)
  {
    match i
    case 0 =>
    case 1 => assert (a | b) >> 1 == (a >> 1) | (b >> 1);
    case 2 => assert (a | b) >> 2 == (a >> 2) | (b >> 2);
    case 3 => assert (a | b) >> 3 == (a >> 3) | (b >> 3);
    case 4 => assert (a | b) >> 4 == (a >> 4) | (b >> 4);
    case 5 => assert (a | b) >> 5 == (a >> 5) | (b >> 5);
    case 6 => assert (a | b) >> 6 == (a >> 6) | (b >> 6);
    case _ => assert (a | b) >> 7 == (a >> 7) | (b >> 7);
  }

  lemma OrLow(a: Byte, b: Byte)
    ensures (a | b) & 1 == 1 <==> a & 1 == 1 || b & 1 == 1
  {}

  function Or(a: Byte, b: Byte): Byte { a | b }

  /** The low k bits of a byte. */
  function Low(b: Byte, k: nat): Byte
    requires k <= 8
  {
    b & !Left(0xff, k)
  }

  lemma LowBit(b: Byte, k: nat, i: nat)
    requires k <= 8 && i < 8
    ensures Bit(Low(b, k), i) == (i < k && Bit(b, i))
  {}

  /** A byte is its bits. */
  lemma SameBits(a: Byte, b: Byte)
    requires forall i :: 0 <= i < 8 ==> Bit(a, i) == Bit(b, i)
    ensures a == b
  {
    assert Bit(a, 0) == Bit(b, 0) && Bit(a, 1) == Bit(b, 1) && Bit(a, 2) == Bit(b, 2) && Bit(a, 3) == Bit(b, 3);
    assert Bit(a, 4) == Bit(b, 4) && Bit(a, 5) == Bit(b, 5) && Bit(a, 6) == Bit(b, 6) && Bit(a, 7) == Bit(b, 7);
  }

  /** Bit p of a row of bytes, the lowest bit of each byte first. */
  predicate BitAt(bytes: seq<Byte>, p: nat)
    requires p < 8 * |bytes|
  {
    Bit(bytes[p / 8], p % 8)
  }

  /** n bits from bit a on. */
  ghost function Bits(bytes: seq<Byte>, a: nat, n: nat): seq<bool>
    requires a + n <= 8 * |bytes|
  {
    seq(n, k requires 0 <= k < n => BitAt(bytes, a + k))
  }

  // ----- Writing -----

  /** What is left of a byte and what is put behind it: the low o bits stay. */
  function Merge(x: Byte, data: Byte, o: nat): Byte
    requires o < 8
  {
    Or(Low(x, o), Left(data, o))
  }

  lemma MergeBit(x: Byte, data: Byte, o: nat, i: nat)
    requires o < 8 && i < 8
    ensures Bit(Merge(x, data, o), i) == if i < o then Bit(x, i) else Bit(data, i - o)
  {
    hide Bit, Left, Low, Or;
    OrBit(Low(x, o), Left(data, o), i);
    LowBit(x, o, i);
    LeftBit(data, o, i);
  }

  class OutputBitStream {
    var buffer: array<Byte>
    var head: nat
    var capacity: nat

    ghost predicate Valid()
      reads this
    {
      head <= capacity == 8 * buffer.Length && 12000 <= capacity
    }

    ghost function Contents(): seq<bool>
      reads this, buffer
      requires Valid()
    {
      Bits(buffer[..], 0, head)
    }

    constructor ()
      ensures Valid() && fresh(buffer) && head == 0 && Contents() == []
    {
      buffer := new Byte[1500](_ => 0);
      head := 0;
      capacity := 1500 * 8;
    }

    /** A new zeroed buffer with the old bytes in front; the length in bits is cut to whole bytes. */
    method ReallocBuffer(length: nat)
      requires Valid() && capacity <= length && length % 8 == 0
      modifies this
      ensures Valid() && fresh(buffer) && capacity == length && head == old(head)
      ensures Contents() == old(Contents())
    {
      var bytes := buffer;
      buffer := new Byte[length / 8](i requires 0 <= i < length / 8 reads bytes =>
        if i < bytes.Length then bytes[i] else 0);
      capacity := length;
      assert forall i :: 0 <= i < old(buffer.Length) ==> buffer[i] == old(buffer[i]);
    }

    /** Appends the low bits of a byte, whatever its other bits are. The capacity stays a whole number
        of bytes: it only ever doubles. */
    method WriteByte(data: Byte, n: nat)
      requires Valid() && 1 <= n <= 8 && head + n < 0x8000_0000
      modifies this, buffer
      ensures Valid() && (buffer == old(buffer) || fresh(buffer))
      ensures head == old(head) + n && Contents() == old(Contents()) + Bits([data], 0, n)
    {
      hide Bits;
      var next := head + n;
      if next > capacity {
        WholeBytes(buffer.Length);
        ReallocBuffer(if capacity * 2 < next then next else capacity * 2);
      }
      assert Contents() == old(Contents());
      PutByte(data, n);
      head := next;
    }

    /** Writes into one byte of the buffer, or two. */
    method PutByte(data: Byte, n: nat)
      requires Valid() && 1 <= n <= 8 && head + n <= capacity
      modifies buffer
      ensures Bits(buffer[..], 0, head + n) == old(Contents()) + Bits([data], 0, n)
    {
      hide Bits, Merge, Right, Left, Low, Or;
      Written(buffer[..], data, head, n);
      ghost var after := Put(buffer[..], data, head, n);
      var byte, offset := head / 8, head % 8;
      buffer[byte] := Merge(buffer[byte], data, offset);
      var free := 8 - offset;
      if free < n {
        buffer[byte + 1] := Right(data, free);
      }
      assert buffer[..] == after;
    }

    /** Appends the low n bits of a row of bytes. */
    method WriteBits(data: seq<Byte>, n: nat)
      requires Valid() && n <= 8 * |data| && head + n < 0x8000_0000
      modifies this, buffer
      ensures Valid() && (buffer == old(buffer) || fresh(buffer))
      ensures head == old(head) + n && Contents() == old(Contents()) + Bits(data, 0, n)
    {
      hide Bits;
      var left, src := n, 0;
      NoBits(data, 0);
      while left > 8
        invariant Valid() && (buffer == old(buffer) || fresh(buffer))
        invariant left == n - 8 * src && (left == 0 ==> n == 0) && head == old(head) + 8 * src
        invariant Contents() == old(Contents()) + Bits(data, 0, 8 * src)
      {
        MoreBits(data, src, 8);
        WriteByte(data[src], 8);
        src := src + 1;
        left := left - 8;
      }
      if left > 0 {
        MoreBits(data, src, left);
        WriteByte(data[src], left);
      }
    }

    /** A string: its length in 32 bits, then its bytes. */
    method WriteString(s: seq<Byte>)
      requires Valid() && |s| < 0x1_0000_0000 && head + 32 + 8 * |s| < 0x8000_0000
      modifies this, buffer
      ensures Valid() && (buffer == old(buffer) || fresh(buffer))
      ensures head == old(head) + 32 + 8 * |s|
      ensures Contents() == old(Contents()) + Bits(CountBytes(|s|), 0, 32) + Bits(s, 0, 8 * |s|)
    {
      hide Bits, CountBytes;
      WriteBits(CountBytes(|s|), 32);
      ghost var start := Contents();
      NoBits(s, 0);
      for i := 0 to |s|
        invariant Valid() && (buffer == old(buffer) || fresh(buffer)) && head == old(head) + 32 + 8 * i
        invariant Contents() == start + Bits(s, 0, 8 * i)
      {
        MoreBits(s, i, 8);
        WriteBits([s[i]], 8);
      }
    }
  }

  lemma WholeBytes(n: nat)
    ensures (8 * n) * 2 % 8 == 0
  {
    assert (8 * n) * 2 == 8 * (2 * n);
  }

  lemma NoBits(bytes: seq<Byte>, a: nat)
    requires a <= 8 * |bytes|
    ensures Bits(bytes, a, 0) == []
  {}

  lemma MoreBits(bytes: seq<Byte>, i: nat, n: nat)
    requires i < |bytes| && n <= 8
    ensures Bits(bytes, 0, 8 * i + n) == Bits(bytes, 0, 8 * i) + Bits([bytes[i]], 0, n)
  {
    hide Bit;
    forall k: nat | k < n ensures BitAt(bytes, 8 * i + k) == BitAt([bytes[i]], k) {
      PlaceOf(i, k);
      PlaceOf(0, k);
    }
  }

  lemma PlaceOf(i: nat, k: nat)
    requires k < 8
    ensures (8 * i + k) / 8 == i && (8 * i + k) % 8 == k
  {}

  // ----- Numbers of 32 bits -----

  /** The byte with given bits, the lowest first. */
  function ByteOf(b0: bool, b1: bool, b2: bool, b3: bool, b4: bool, b5: bool, b6: bool, b7: bool): Byte {
    (if b0 then 1 else 0) | (if b1 then 2 else 0) | (if b2 then 4 else 0) | (if b3 then 8 else 0)
    | (if b4 then 16 else 0) | (if b5 then 32 else 0) | (if b6 then 64 else 0) | (if b7 then 128 else 0)
  }

  lemma ByteOfBits(b0: bool, b1: bool, b2: bool, b3: bool, b4: bool, b5: bool, b6: bool, b7: bool)
    ensures var b := ByteOf(b0, b1, b2, b3, b4, b5, b6, b7);
      && Bit(b, 0) == b0 && Bit(b, 1) == b1 && Bit(b, 2) == b2 && Bit(b, 3) == b3
      && Bit(b, 4) == b4 && Bit(b, 5) == b5 && Bit(b, 6) == b6 && Bit(b, 7) == b7
  {}

  predicate Odd(n: nat) { n % 2 == 1 }

  function ToByte(n: nat): Byte
    requires n < 256
  {
    ByteOf(Odd(n), Odd(n / 2), Odd(n / 4), Odd(n / 8), Odd(n / 16), Odd(n / 32), Odd(n / 64), Odd(n / 128))
  }

  function Weight(b: Byte, i: nat, w: nat): nat
    requires i < 8
  {
    if Bit(b, i) then w else 0
  }

  function FromByte(b: Byte): nat {
    Weight(b, 0, 1) + Weight(b, 1, 2) + Weight(b, 2, 4) + Weight(b, 3, 8)
    + Weight(b, 4, 16) + Weight(b, 5, 32) + Weight(b, 6, 64) + Weight(b, 7, 128)
  }

  /** A byte is the number its bits make up. */
  lemma ByteIs(b: Byte)
    ensures FromByte(b) == b as nat
  {}

  function CountBytes(n: nat): (r: seq<Byte>)
    requires n < 0x1_0000_0000
    ensures |r| == 4
  {
    [ToByte(n % 256), ToByte(n / 256 % 256), ToByte(n / 256 / 256 % 256), ToByte(n / 256 / 256 / 256)]
  }

  function Count(bytes: seq<Byte>): nat
    requires |bytes| == 4
  {
    FromByte(bytes[0]) + 256 * FromByte(bytes[1]) + 65536 * FromByte(bytes[2]) + 16777216 * FromByte(bytes[3])
  }

  /** The length goes lowest byte first. */
  lemma CountBytesAre(n: nat)
    requires n < 0x1_0000_0000
    ensures var b := CountBytes(n);
      && b[0] as nat == n % 0x100 && b[1] as nat == n / 0x100 % 0x100
      && b[2] as nat == n / 0x1_0000 % 0x100 && b[3] as nat == n / 0x100_0000
  {
    hide ToByte, FromByte;
    ByteNumber(n % 256);
    ByteNumber(n / 256 % 256);
    ByteNumber(n / 256 / 256 % 256);
    ByteNumber(n / 256 / 256 / 256);
    Quotients(n);
  }

  lemma ByteNumber(n: nat)
    requires n < 256
    ensures ToByte(n) as nat == n
  {
    hide ToByte, FromByte;
    ByteRoundTrip(n);
    ByteIs(ToByte(n));
  }

  lemma Quotients(n: nat)
    ensures n / 256 / 256 == n / 0x1_0000 && n / 256 / 256 / 256 == n / 0x100_0000
  {}

  lemma CountRoundTrip(n: nat)
    requires n < 0x1_0000_0000
    ensures Count(CountBytes(n)) == n
  {
    hide ToByte, FromByte;
    ByteRoundTrip(n % 256);
    ByteRoundTrip(n / 256 % 256);
    ByteRoundTrip(n / 256 / 256 % 256);
    ByteRoundTrip(n / 256 / 256 / 256);
  }

  lemma ByteRoundTrip(n: nat)
    requires n < 256
    ensures FromByte(ToByte(n)) == n
  {
    hide Bit, ByteOf, Odd;
    ByteOfBits(Odd(n), Odd(n / 2), Odd(n / 4), Odd(n / 8), Odd(n / 16), Odd(n / 32), Odd(n / 64), Odd(n / 128));
    Binary(n, n / 2, n / 4, n / 8, n / 16, n / 32, n / 64, n / 128);
  }

  function Digit(n: nat): nat { if Odd(n) then 1 else 0 }

  lemma Binary(n: nat, a: nat, b: nat, c: nat, d: nat, e: nat, f: nat, g: nat)
    requires n < 256 && a == n / 2 && b == n / 4 && c == n / 8
    requires d == n / 16 && e == n / 32 && f == n / 64 && g == n / 128
    ensures n == Digit(n) + 2 * Digit(a) + 4 * Digit(b) + 8 * Digit(c)
               + 16 * Digit(d) + 32 * Digit(e) + 64 * Digit(f) + 128 * Digit(g)
  {
    hide Odd;
    Halve(n, a);
    Halve(a, b);
    Halve(b, c);
    Halve(c, d);
    Halve(d, e);
    Halve(e, f);
    Halve(f, g);
    Small(g);
  }

  lemma Halve(n: nat, h: nat)
    requires h == n / 2
    ensures n == 2 * h + Digit(n)
  {}

  lemma Small(n: nat)
    requires n < 2
    ensures n == Digit(n)
  {}

  // ----- Reading -----

  /** The bits of a byte that was read: the low n come from the stream, the rest are zero. */
  ghost predicate Carries(out: Byte, n: nat, bytes: seq<Byte>, a: nat)
    requires n <= 8 && a + n <= 8 * |bytes|
  {
    forall i :: 0 <= i < 8 ==> Bit(out, i) == (i < n && BitAt(bytes, a + i))
  }

  class InputBitStream {
    const buffer: array<Byte>
    var head: nat
    const capacity: nat

    ghost predicate Valid()
      reads this
    {
      head <= capacity <= 8 * buffer.Length
    }

    constructor (buffer: array<Byte>, capacity: nat)
      requires capacity <= 8 * buffer.Length
      ensures Valid() && this.buffer == buffer && this.capacity == capacity && head == 0
    {
      this.buffer := buffer;
      this.capacity := capacity;
      head := 0;
    }

    method ReadByte(n: nat) returns (out: Byte)
      requires Valid() && 1 <= n <= 8 && head + n <= capacity
      modifies this`head
      ensures Valid() && head == old(head) + n
      ensures Carries(out, n, buffer[..], old(head))
    {
      hide Bit, Left, Right, Low, Or;
      var byte, offset := head / 8, head % 8;
      out := Right(buffer[byte], offset);
      var free := 8 - offset;
      if free < n {
        out := Or(out, Left(buffer[byte + 1], free));
      }
      out := Low(out, n);
      assert out == Taken(buffer[..], head, n);
      forall i | 0 <= i < 8 ensures Bit(out, i) == (i < n && BitAt(buffer[..], head + i)) {
        ReadBit(buffer[..], head, n, i);
      }
      head := head + n;
    }

    /** Reads n bits into the first bytes of a row; the bytes behind them stay. */
    method ReadBits(dest: array<Byte>, n: nat)
      requires Valid() && n <= 8 * dest.Length && head + n <= capacity && dest != buffer
      modifies this`head, dest
      ensures Valid() && head == old(head) + n
      ensures Bits(dest[..], 0, n) == Bits(buffer[..], old(head), n)
      ensures forall p :: n <= p < 8 * ((n + 7) / 8) ==> !BitAt(dest[..], p)
      ensures forall i :: (n + 7) / 8 <= i < dest.Length ==> dest[i] == old(dest[i])
    {
      hide Bits, Carries;
      var left, at := n, 0;
      ghost var a := head;
      NoBits(dest[..], 0);
      NoBits(buffer[..], a);
      while left > 8
        invariant Valid() && left == n - 8 * at && (left == 0 ==> n == 0) && head == a + 8 * at
        invariant Bits(dest[..], 0, 8 * at) == Bits(buffer[..], a, 8 * at)
        invariant forall i :: at <= i < dest.Length ==> dest[i] == old(dest[i])
      {
        ghost var before := dest[..];
        var byte := ReadByte(8);
        dest[at] := byte;
        ReadMore(before, dest[..], at, 8, buffer[..], a);
        at := at + 1;
        left := left - 8;
      }
      if left > 0 {
        ghost var before := dest[..];
        var byte := ReadByte(left);
        dest[at] := byte;
        ReadMore(before, dest[..], at, left, buffer[..], a);
      }
    }
  }

  lemma BitOfByte(bytes: seq<Byte>, i: nat, k: nat)
    requires i < |bytes| && k < 8
    ensures BitAt(bytes, 8 * i + k) == Bit(bytes[i], k)
  {
    hide Bit;
  }

  /** One more byte of a row has been read. */
  lemma ReadMore(before: seq<Byte>, after: seq<Byte>, i: nat, n: nat, bytes: seq<Byte>, a: nat)
    requires |before| == |after| && i < |after| && n <= 8 && a + 8 * i + n <= 8 * |bytes|
    requires forall k :: 0 <= k < i ==> after[k] == before[k]
    requires Bits(before, 0, 8 * i) == Bits(bytes, a, 8 * i) && Carries(after[i], n, bytes, a + 8 * i)
    ensures Bits(after, 0, 8 * i + n) == Bits(bytes, a, 8 * i + n)
    ensures forall p :: 8 * i + n <= p < 8 * i + 8 ==> !BitAt(after, p)
  {
    hide Bit, BitAt;
    forall p | 0 <= p < 8 * i + 8 ensures BitAt(after, p) == (p < 8 * i + n && BitAt(bytes, a + p)) {
      var j, k := p / 8, p % 8;
      assert p == 8 * j + k;
      BitOfByte(after, j, k);
      if j < i {
        BitOfByte(before, j, k);
        assert Bits(before, 0, 8 * i)[p] == Bits(bytes, a, 8 * i)[p];
      }
    }
  }

  lemma CrossBit(x: Byte, y: Byte, o: nat, n: nat, i: nat)
    requires o < 8 && n <= 8 && i < 8
    ensures Bit(Low(Or(Right(x, o), Left(y, 8 - o)), n), i)
         == (i < n && if i + o < 8 then Bit(x, i + o) else Bit(y, i + o - 8))
  {
    hide Bit, Left, Right, Low, Or;
    RightBit(x, o, i);
    LeftBit(y, 8 - o, i);
    OrBit(Right(x, o), Left(y, 8 - o), i);
    LowBit(Or(Right(x, o), Left(y, 8 - o)), n, i);
  }

  lemma PlainBit(x: Byte, o: nat, n: nat, i: nat)
    requires o < 8 && n <= 8 && i < 8
    ensures Bit(Low(Right(x, o), n), i) == (i < n && i + o < 8 && Bit(x, i + o))
  {
    hide Bit, Left, Right, Low;
    RightBit(x, o, i);
    LowBit(Right(x, o), n, i);
  }

  /** What is read at a position: the rest of one byte and, where needed, the start of the next. */
  function Taken(bytes: seq<Byte>, head: nat, n: nat): Byte
    requires 1 <= n <= 8 && head + n <= 8 * |bytes|
  {
    var byte, offset := head / 8, head % 8;
    var low := Right(bytes[byte], offset);
    Low(if 8 - offset < n then Or(low, Left(bytes[byte + 1], 8 - offset)) else low, n)
  }

  lemma ReadBit(bytes: seq<Byte>, head: nat, n: nat, i: nat)
    requires 1 <= n <= 8 && head + n <= 8 * |bytes| && i < 8
    ensures Bit(Taken(bytes, head, n), i) == (i < n && BitAt(bytes, head + i))
  {
    hide Bit, Left, Right, Low, Or;
    var byte, offset := head / 8, head % 8;
    if 8 - offset < n {
      CrossBit(bytes[byte], bytes[byte + 1], offset, n, i);
    } else {
      PlainBit(bytes[byte], offset, n, i);
    }
    if i < n {
      assert (head + i) / 8 == if i + offset < 8 then byte else byte + 1;
    }
  }

  /** What writing a byte does to the buffer. */
  function Put(bytes: seq<Byte>, data: Byte, head: nat, n: nat): (r: seq<Byte>)
    requires 1 <= n <= 8 && head + n <= 8 * |bytes|
    ensures |r| == |bytes|
  {
    var byte, offset := head / 8, head % 8;
    var first := bytes[byte := Merge(bytes[byte], data, offset)];
    if 8 - offset < n then first[byte + 1 := Right(data, 8 - offset)] else first
  }

  /** The bits before the head stay, and the n new ones follow. */
  lemma Written(bytes: seq<Byte>, data: Byte, head: nat, n: nat)
    requires 1 <= n <= 8 && head + n <= 8 * |bytes|
    ensures Bits(Put(bytes, data, head, n), 0, head + n) == Bits(bytes, 0, head) + Bits([data], 0, n)
  {
    hide Put;
    var after := Put(bytes, data, head, n);
    forall p | 0 <= p < head + n
      ensures BitAt(after, p) == if p < head then BitAt(bytes, p) else BitAt([data], p - head)
    {
      BitPut(bytes, data, head, n, p);
    }
  }

  lemma BitPut(bytes: seq<Byte>, data: Byte, head: nat, n: nat, p: nat)
    requires 1 <= n <= 8 && p < head + n <= 8 * |bytes|
    ensures BitAt(Put(bytes, data, head, n), p) == if p < head then BitAt(bytes, p) else Bit(data, p - head)
  {
    hide Bit, Merge, Right;
    var byte, offset := head / 8, head % 8;
    if p / 8 == byte {
      MergeBit(bytes[byte], data, offset, p % 8);
    } else if p > head {
      RightBit(data, 8 - offset, p % 8);
    }
  }

  // ----- Reading back what was written -----

  lemma SameBytes(a: seq<Byte>, b: seq<Byte>)
    requires |a| == |b| && Bits(a, 0, 8 * |a|) == Bits(b, 0, 8 * |b|)
    ensures a == b
  {
    hide Bit, BitAt;
    forall i | 0 <= i < |a| ensures a[i] == b[i] {
      forall k | 0 <= k < 8 ensures Bit(a[i], k) == Bit(b[i], k) {
        BitOfByte(a, i, k);
        BitOfByte(b, i, k);
        assert Bits(a, 0, 8 * |a|)[8 * i + k] == Bits(b, 0, 8 * |b|)[8 * i + k];
      }
      SameBits(a[i], b[i]);
    }
  }

  lemma BitsPart(bytes: seq<Byte>, a: nat, n: nat, i: nat, m: nat)
    requires i + m <= n && a + n <= 8 * |bytes|
    ensures Bits(bytes, a, n)[i..i + m] == Bits(bytes, a + i, m)
  {
    hide BitAt;
  }

  lemma SplitBits(whole: seq<bool>, x: seq<bool>, y: seq<bool>)
    requires whole == x + y
    ensures whole[0..|x|] == x && whole[|x|..|x| + |y|] == y
  {}

  lemma LowBits(bytes: seq<Byte>, n: nat)
    requires n <= 8 * |bytes|
    ensures |Bits(bytes, 0, n)| == n
  {}

  /** Reads a string where one was written. */
  method ReadString(input: InputBitStream, ghost s0: seq<Byte>) returns (s: seq<Byte>)
    requires input.Valid() && |s0| < 0x1_0000_0000 && input.head + 32 + 8 * |s0| <= input.capacity
    requires Bits(input.buffer[..], input.head, 32 + 8 * |s0|) == Bits(CountBytes(|s0|), 0, 32) + Bits(s0, 0, 8 * |s0|)
    modifies input`head
    ensures input.Valid() && input.head == old(input.head) + 32 + 8 * |s0| && s == s0
  {
    hide Bits, BitAt, Count, CountBytes;
    ghost var a, n := input.head, 8 * |s0|;
    BitsPart(input.buffer[..], a, 32 + n, 0, 32);
    BitsPart(input.buffer[..], a, 32 + n, 32, n);
    LowBits(CountBytes(|s0|), 32);
    LowBits(s0, n);
    SplitBits(Bits(input.buffer[..], a, 32 + n), Bits(CountBytes(|s0|), 0, 32), Bits(s0, 0, n));
    var count := new Byte[4](_ => 0);
    input.ReadBits(count, 32);
    SameBytes(count[..], CountBytes(|s0|));
    CountRoundTrip(|s0|);
    var text := new Byte[Count(count[..])](_ => 0);
    input.ReadBits(text, 8 * text.Length);
    s := text[..];
    SameBytes(s, s0);
  }

  /** A value to be written with a width in bits. */
  datatype Field = Field(data: seq<Byte>, width: nat)

  predicate Good(f: Field) { 1 <= f.width <= 8 * |f.data| }

  ghost predicate AllGood(fields: seq<Field>) { forall i :: 0 <= i < |fields| ==> Good(fields[i]) }

  /** The bits of a row of fields, one after the other. */
  ghost function AllBits(fields: seq<Field>): seq<bool>
    requires AllGood(fields)
  {
    if fields == [] then [] else Bits(fields[0].data, 0, fields[0].width) + AllBits(fields[1..])
  }

  /** The value's low bits, and zeros. */
  ghost predicate IsLow(r: seq<Byte>, f: Field)
    requires Good(f)
  {
    |r| == |f.data| && forall p :: 0 <= p < 8 * |r| ==> BitAt(r, p) == (p < f.width && BitAt(f.data, p))
  }

  method WriteAll(output: OutputBitStream, fields: seq<Field>)
    requires output.Valid() && AllGood(fields) && output.head + |AllBits(fields)| < 0x8000_0000
    modifies output, output.buffer
    ensures output.Valid() && (output.buffer == old(output.buffer) || fresh(output.buffer))
    ensures output.Contents() == old(output.Contents()) + AllBits(fields)
    ensures output.head == old(output.head) + |AllBits(fields)|
  {
    hide Bits;
    ghost var before := output.Contents();
    for i := 0 to |fields|
      invariant output.Valid() && (output.buffer == old(output.buffer) || fresh(output.buffer))
      invariant output.head + |AllBits(fields[i..])| == old(output.head) + |AllBits(fields)|
      invariant output.Contents() + AllBits(fields[i..]) == before + AllBits(fields)
    {
      assert fields[i..][0] == fields[i] && fields[i..][1..] == fields[i + 1..];
      ghost var start, rest := output.Contents(), AllBits(fields[i + 1..]);
      ghost var bits := Bits(fields[i].data, 0, fields[i].width);
      LowBits(fields[i].data, fields[i].width);
      assert start + (bits + rest) == (start + bits) + rest;
      output.WriteBits(fields[i].data, fields[i].width);
    }
    assert output.Contents() + [] == output.Contents();
  }

  lemma ZeroBit(k: nat)
    requires k < 8
    ensures !Bit(0, k)
  {}

  /** Reads one field into zeroed bytes. */
  method ReadField(input: InputBitStream, ghost f: Field, size: nat, width: nat) returns (r: seq<Byte>)
    requires input.Valid() && Good(f) && size == |f.data| && width == f.width && input.head + width <= input.capacity
    requires Bits(input.buffer[..], input.head, width) == Bits(f.data, 0, width)
    modifies input`head
    ensures input.Valid() && input.head == old(input.head) + width && IsLow(r, f)
  {
    hide Bit, BitAt;
    var dest := new Byte[size](_ => 0);
    input.ReadBits(dest, width);
    r := dest[..];
    forall p | 0 <= p < 8 * |r| ensures BitAt(r, p) == (p < f.width && BitAt(f.data, p)) {
      if p < width {
        assert Bits(r, 0, width)[p] == Bits(f.data, 0, width)[p];
      } else if p >= 8 * ((width + 7) / 8) {
        BitOfByte(r, p / 8, p % 8);
        ZeroBit(p % 8);
      }
    }
  }

  /** Whatever is written, in whatever widths, reading it in the same widths gives each value's low
      bits back. */
  method WriteThenRead(fields: seq<Field>) returns (results: seq<seq<Byte>>)
    requires AllGood(fields) && |AllBits(fields)| < 0x8000_0000
    ensures |results| == |fields| && forall i :: 0 <= i < |fields| ==> IsLow(results[i], fields[i])
  {
    hide Bits, BitAt, IsLow;
    var output := new OutputBitStream();
    WriteAll(output, fields);
    var input := new InputBitStream(output.buffer, output.head);
    assert [] + AllBits(fields) == AllBits(fields);
    results := [];
    for i := 0 to |fields|
      invariant |results| == i && forall j :: 0 <= j < i ==> IsLow(results[j], fields[j])
      invariant input.Valid() && input.head + |AllBits(fields[i..])| == input.capacity
      invariant Bits(input.buffer[..], input.head, |AllBits(fields[i..])|) == AllBits(fields[i..])
    {
      assert fields[i..][0] == fields[i] && fields[i..][1..] == fields[i + 1..];
      ghost var n, m := fields[i].width, |AllBits(fields[i + 1..])|;
      LowBits(fields[i].data, n);
      SplitBits(AllBits(fields[i..]), Bits(fields[i].data, 0, n), AllBits(fields[i + 1..]));
      BitsPart(input.buffer[..], input.head, n + m, 0, n);
      BitsPart(input.buffer[..], input.head, n + m, n, m);
      var r := ReadField(input, fields[i], |fields[i].data|, fields[i].width);
      results := results + [r];
    }
  }

  /** Whole bytes written to a new stream are the bytes of its buffer. */
  method WholeBytesWritten(data: seq<Byte>) returns (output: OutputBitStream)
    requires 8 * |data| < 0x8000_0000
    ensures output.Valid() && output.head == 8 * |data| && output.buffer[..|data|] == data
  {
    hide Bit;
    output := new OutputBitStream();
    output.WriteBits(data, 8 * |data|);
    forall k | 0 <= k < |data| ensures output.buffer[k] == data[k] {
      forall i | 0 <= i < 8 ensures Bit(output.buffer[k], i) == Bit(data[k], i) {
        SameAt(output.buffer[..], data, k, i);
      }
      SameBits(output.buffer[k], data[k]);
    }
  }

  lemma SameAt(a: seq<Byte>, b: seq<Byte>, k: nat, i: nat)
    requires k < |b| <= |a| && i < 8 && Bits(a, 0, 8 * |b|) == [] + Bits(b, 0, 8 * |b|)
    ensures Bit(a[k], i) == Bit(b[k], i)
  {
    hide Bit, BitAt;
    BitOfByte(a, k, i);
    BitOfByte(b, k, i);
    var p := 8 * k + i;
    assert p < 8 * |b| && BitAt(a, p) == Bits(a, 0, 8 * |b|)[p] && BitAt(b, p) == Bits(b, 0, 8 * |b|)[p];
  }

  /** Two values written one after the other into one byte: the first in its low bits. */
  method TwoInOneByte(a: Byte, b: Byte, n: nat) returns (c: Byte)
    requires 0 < n < 8
    ensures forall i :: 0 <= i < 8 ==> Bit(c, i) == if i < n then Bit(a, i) else Bit(b, i - n)
  {
    hide Bit;
    var output := new OutputBitStream();
    output.WriteByte(a, n);
    output.WriteByte(b, 8 - n);
    ghost var bits := output.Contents();
    assert bits == [] + Bits([a], 0, n) + Bits([b], 0, 8 - n);
    c := output.buffer[0];
    forall i | 0 <= i < 8 ensures Bit(c, i) == if i < n then Bit(a, i) else Bit(b, i - n) {
      assert bits[i] == BitAt(output.buffer[..], i);
    }
  }

  /** A string goes through a stream unchanged. */
  method StringThroughStream(s: seq<Byte>) returns (t: seq<Byte>)
    requires 32 + 8 * |s| < 0x8000_0000
    ensures t == s
  {
    hide Bits, CountBytes;
    var output := new OutputBitStream();
    output.WriteString(s);
    assert [] + Bits(CountBytes(|s|), 0, 32) == Bits(CountBytes(|s|), 0, 32);
    var input := new InputBitStream(output.buffer, output.head);
    t := ReadString(input, s);
  }
}
