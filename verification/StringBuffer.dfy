/** The growing byte buffer (strbuf.h, strbuf.c) with exponential growth, which is the default. */
module StringBuffer {
  import opened JsonText
  import Limbs

  class Strbuf {
    var buf: array<Byte>
    var length: nat

    /** One byte is always left for a terminator. */
    ghost predicate Valid()
      reads this
    {
      length < buf.Length
    }

    ghost function Contents(): Text
      reads this, buf
      requires Valid()
    {
      buf[..length]
    }

    function EmptyLength(): nat
      reads this
      requires Valid()
    {
      buf.Length - length - 1
    }

    constructor (len: nat)
      ensures Valid() && fresh(buf) && Contents() == []
      ensures buf.Length == if len == 0 then 1023 else len + 1
    {
      buf := new Byte[if len == 0 then 1023 else len + 1](_ => '\0');
      length := 0;
    }

    method Reset()
      requires Valid()
      modifies this`length
      ensures Valid() && buf == old(buf) && Contents() == []
    {
      length := 0;
    }

    /** Exactly the room asked for when that shrinks the buffer; otherwise the size doubles until it
        is enough, and it was not enough one doubling before. */
    method CalculateNewSize(len: nat) returns (size: nat)
      requires Valid() && len > 0
      ensures len < size
      ensures buf.Length > len + 1 ==> size == len + 1
      ensures buf.Length <= len + 1 ==>
        exists j: nat :: size == buf.Length * Limbs.Power(2, j) && (j > 0 ==> size < 2 * (len + 1))
    {
      var required := len + 1;
      if buf.Length > required {
        return required;
      }
      size := buf.Length;
      ghost var j := 0;
      while size < required
        invariant size == buf.Length * Limbs.Power(2, j) && (j > 0 ==> size < 2 * required)
        invariant size > 0
        decreases required - size
      {
        Limbs.Associate(buf.Length, Limbs.Power(2, j), 2);
        size, j := size * 2, j + 1;
      }
    }

    method Resize(len: nat)
      requires Valid() && 0 < len && length <= len
      modifies this
      ensures Valid() && fresh(buf) && length == old(length) && Contents() == old(Contents())
      ensures len - length <= EmptyLength()
    {
      var size := CalculateNewSize(len);
      var old_buf := buf;
      buf := new Byte[size](i requires 0 <= i < size reads old_buf => if i < old_buf.Length then old_buf[i] else '\0');
    }

    method EnsureEmptyLength(len: nat)
      requires Valid()
      modifies this
      ensures Valid() && length == old(length) && Contents() == old(Contents())
      ensures buf == old(buf) || fresh(buf)
      ensures len <= old(EmptyLength()) ==> buf == old(buf)
      ensures len <= EmptyLength()
    {
      if len > EmptyLength() {
        Resize(length + len);
      }
    }

    /** Appends without looking whether there is room. */
    method AppendCharUnsafe(c: Byte)
      requires Valid() && 1 <= EmptyLength()
      modifies this`length, buf
      ensures Valid() && buf == old(buf) && Contents() == old(Contents()) + [c]
    {
      buf[length] := c;
      length := length + 1;
    }

    method AppendMemUnsafe(s: Text)
      requires Valid() && |s| <= EmptyLength()
      modifies this`length, buf
      ensures Valid() && buf == old(buf) && Contents() == old(Contents()) + s
    {
      forall i | 0 <= i < |s| {
        buf[length + i] := s[i];
      }
      length := length + |s|;
    }

    method AppendChar(c: Byte)
      requires Valid()
      modifies this, buf
      ensures Valid() && (buf == old(buf) || fresh(buf))
      ensures Contents() == old(Contents()) + [c]
    {
      EnsureEmptyLength(1);
      AppendCharUnsafe(c);
    }

    method AppendMem(s: Text)
      requires Valid()
      modifies this, buf
      ensures Valid() && (buf == old(buf) || fresh(buf))
      ensures Contents() == old(Contents()) + s
    {
      EnsureEmptyLength(|s|);
      AppendMemUnsafe(s);
    }

    /** Appends byte by byte, growing only when the room is used up. */
    method AppendString(s: Text)
      requires Valid()
      modifies this, buf
      ensures Valid() && (buf == old(buf) || fresh(buf))
      ensures |s| <= old(EmptyLength()) ==> buf == old(buf)
      ensures Contents() == old(Contents()) + s
    {
      var space := EmptyLength();
      for i := 0 to |s|
        invariant Valid() && (buf == old(buf) || fresh(buf))
        invariant space == EmptyLength()
        invariant |s| <= old(EmptyLength()) ==> buf == old(buf)
        invariant Contents() == old(Contents()) + s[..i]
      {
        if space < 1 {
          Resize(length + 1);
          space := EmptyLength();
        }
        AppendCharUnsafe(s[i]);
        space := space - 1;
        assert s[..i + 1] == s[..i] + [s[i]];
      }
      assert s[..|s|] == s;
    }
  }
}
