/** The growable byte buffer of serialize/buffer.c and the primitive readers and writers of
    serialize/serialize.c. */
module Buffers {
  import opened CStrings
  import opened Columns
  import opened Codec

  class Buffer {
    var buff: array<byte>
    var size: nat
    var pos: nat

    /** `getBuffer`. */
    constructor ()
      ensures Valid() && fresh(buff) && pos == 0 && size == 64
    {
      buff := new byte[64];
      size := 64;
      pos := 0;
    }

    ghost predicate Valid()
      reads this
    {
      size == buff.Length && pos <= size
    }

    /** What was written so far. */
    ghost function Written(): seq<byte>
      requires Valid()
      reads this, buff
    {
      buff[..pos]
    }

    /** All bytes of the array, with what earlier uses left behind `pos`. */
    ghost function Bytes(): seq<byte>
      reads this, buff
    {
      buff[..]
    }

    /** `reserve`: afterwards more than `len` bytes are free. */
    method Reserve(len: nat)
      requires Valid()
      modifies this
      ensures size == if old(size - pos) > len then old(size) else old(size) + len + 64
      ensures Valid() && pos == old(pos) && Written() == old(Written())
      ensures size - pos > len
      ensures buff == old(buff) || fresh(buff)
      ensures old(size - pos) > len ==> buff == old(buff)
    {
      if size - pos > len {
        return;
      }
      var newSize := size + len + 64;
      var bytes := new byte[newSize];
      forall i | 0 <= i < size { bytes[i] := buff[i]; }
      size := newSize;
      buff := bytes;
    }

    /** `reset`. */
    method Reset()
      requires Valid()
      modifies `pos
      ensures Valid() && pos == 0 && Bytes() == old(Bytes()) && size == old(size)
    {
      pos := 0;
    }

    /** `writeInt`, `writeUnsignedInt` and `writeLong`: all three append the low four bytes. */
    method WriteInt(data: int)
      requires Valid()
      modifies this, buff
      ensures Valid() && Written() == old(Written()) + EncInt(data)
      ensures buff == old(buff) || fresh(buff)
      ensures old(size - pos) > 4 ==> buff == old(buff)
    {
      ghost var was := Written();
      Reserve(4);
      for i := 0 to 4
        invariant Valid() && size - pos > 4 - i && |was| + i == pos
        invariant buff == old(buff) || fresh(buff)
        invariant old(size - pos) > 4 ==> buff == old(buff)
        invariant Written() == was + EncInt(data)[..i]
      {
        buff[pos] := GetByte(data, i);
        pos := pos + 1;
      }
    }

    method WriteByte(b: byte)
      requires Valid()
      modifies this, buff
      ensures Valid() && Written() == old(Written()) + [b]
      ensures buff == old(buff) || fresh(buff)
    {
      Reserve(1);
      buff[pos] := b;
      pos := pos + 1;
    }

    /** `writeBytes`: the length, then the bytes. */
    method WriteBytes(str: seq<byte>)
      requires Valid()
      modifies this, buff
      ensures Valid() && Written() == old(Written()) + EncBytes(str)
      ensures buff == old(buff) || fresh(buff)
    {
      Reserve(|str| + 4);
      WriteInt(|str|);
      CopyIn(str);
    }

    /** The memcpy of `writeBytes`. */
    method CopyIn(str: seq<byte>)
      requires Valid() && size - pos >= |str|
      modifies `pos, buff
      ensures Valid() && Written() == old(Written()) + str && size == old(size)
    {
      forall i | 0 <= i < |str| { buff[pos + i] := str[i]; }
      pos := pos + |str|;
    }

    /** `readInt`. */
    method ReadInt() returns (ok: bool, v: int32)
      requires Valid()
      modifies `pos
      ensures Valid() && ok == DecInt(Bytes(), old(pos)).Ok?
      ensures ok ==> DecInt(Bytes(), old(pos)) == Ok(v, pos)
      ensures !ok ==> pos == old(pos)
    {
      ok, v := false, 0;
      if size < pos + 4 {
        return;
      }
      var b0: int, b1: int, b2: int, b3: int := buff[pos], buff[pos + 1], buff[pos + 2], buff[pos + 3];
      pos := pos + 4;
      ok, v := true, ToInt32(b0 + 0x100 * b1 + 0x1_0000 * b2 + 0x100_0000 * b3);
    }

    /** `readUnsignedInt`. */
    method ReadUnsigned() returns (ok: bool, v: uint32)
      requires Valid()
      modifies `pos
      ensures Valid() && ok == DecUnsigned(Bytes(), old(pos)).Ok?
      ensures ok ==> DecUnsigned(Bytes(), old(pos)) == Ok(v, pos)
      ensures !ok ==> pos == old(pos)
    {
      ok, v := false, 0;
      if size < pos + 4 {
        return;
      }
      var b0: int, b1: int, b2: int, b3: int := buff[pos], buff[pos + 1], buff[pos + 2], buff[pos + 3];
      pos := pos + 4;
      ok, v := true, b0 + 0x100 * b1 + 0x1_0000 * b2 + 0x100_0000 * b3;
    }

    /** `readByte`. */
    method ReadByte() returns (ok: bool, v: byte)
      requires Valid()
      modifies `pos
      ensures Valid() && ok == DecByte(Bytes(), old(pos)).Ok?
      ensures ok ==> DecByte(Bytes(), old(pos)) == Ok(v, pos)
      ensures !ok ==> pos == old(pos)
    {
      ok, v := false, 0;
      if size < pos + 1 {
        return;
      }
      ok, v := true, buff[pos];
      pos := pos + 1;
    }

    /** `readBytes`: it fails when there is no length, or no memory for it, and the memcpy may leave the buffer. */
    method ReadBytes() returns (st: Status, v: seq<byte>)
      requires Valid()
      modifies `pos
      ensures Valid() && st == StatusOf(DecBytes(Bytes(), old(pos)))
      ensures st == Done ==> DecBytes(Bytes(), old(pos)) == Ok(v, pos)
    {
      v := [];
      var ok, len := ReadInt();
      if !ok || len < 0 {
        return Failed, [];
      }
      if pos + len > size {
        return Strayed, [];
      }
      v := buff[pos..pos + len];
      pos := pos + len;
      st := Done;
    }
  }
}
