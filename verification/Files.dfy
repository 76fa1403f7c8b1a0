/** Files of length-prefixed blocks (utils/auxilFile.c). A file is its bytes, a cursor and the
    end-of-file mark. */
module Files {
  import opened CStrings
  import opened Columns
  import opened Codec
  import opened Buffers

  /** The bytes after writing `data` at `pos`: what was there is overwritten. */
  function WriteAt(file: seq<byte>, pos: nat, data: seq<byte>): seq<byte>
    requires pos <= |file|
  {
    file[..pos] + data + if pos + |data| <= |file| then file[pos + |data|..] else []
  }

  /** A block: its length, then its bytes. */
  function Frame(data: seq<byte>): seq<byte> {
    EncInt(|data|) + data
  }

  function Frames(blocks: seq<seq<byte>>): seq<byte> {
    if blocks == [] then [] else Frame(blocks[0]) + Frames(blocks[1..])
  }

  lemma {:induction false} FramesAppend(a: seq<seq<byte>>, b: seq<seq<byte>>)
    ensures Frames(a + b) == Frames(a) + Frames(b)
  {
    if a == [] {
      assert a + b == b;
    } else {
      assert (a + b)[1..] == a[1..] + b;
      FramesAppend(a[1..], b);
    }
  }

  lemma FramesSnoc(a: seq<seq<byte>>, x: seq<byte>)
    ensures Frames(a + [x]) == Frames(a) + Frame(x)
  {
    FramesAppend(a, [x]);
    assert [x][1..] == [];
    assert Frames([x]) == Frame(x);
  }

  datatype Block = Block(data: seq<byte>, next: nat) | Empty | End | Wrong

  /** What `readFile` finds at `pos`: a block, a block of no bytes (which `fread` cannot read), the end
      of the file, or a length that is negative as an int. */
  function ReadBlock(file: seq<byte>, pos: nat): Block {
    if |file| < pos + 4 then End
    else
      var n := FromBytes(file, pos);
      if n == 0 then Empty
      else if n >= 0x8000_0000 then Wrong
      else if |file| < pos + 4 + n then End
      else Block(file[pos + 4..pos + 4 + n], pos + 4 + n)
  }

  /** How `readFile` ends there. */
  function BlockStatus(block: Block): Status {
    match block
    case Block(_, _) => Done
    case Wrong => Strayed
    case _ => Failed
  }

  /** The room in a buffer with so much room after `reserve(len)`. */
  function Reserved(room: int, len: nat): int {
    if room > len then room else room + len + 64
  }

  lemma BlockAdvances(file: seq<byte>, pos: nat)
    ensures ReadBlock(file, pos).Block? ==> pos < ReadBlock(file, pos).next <= |file|
  {
  }

  predicate GoodBlock(data: seq<byte>) {
    0 < |data| < 0x8000_0000
  }

  lemma ReadFrame(file: seq<byte>, pos: nat, data: seq<byte>)
    requires GoodBlock(data) && Holds(file, pos, Frame(data))
    ensures ReadBlock(file, pos) == Block(data, pos + |Frame(data)|)
  {
    HoldsSplit(file, pos, EncInt(|data|), data);
    HoldsBytes(file, pos, |data|);
    HoldsSlice(file, pos + 4, data);
  }

  /** The others: a block of no bytes, one whose length does not fit an int, and one that the end of the file cuts off. */
  lemma ReadOtherFrame(file: seq<byte>, pos: nat, data: seq<byte>, n: nat)
    requires Holds(file, pos, Frame(data)) && |data| < 0x1_0000_0000 && pos <= n < pos + |Frame(data)|
    ensures data == [] ==> ReadBlock(file, pos) == Empty
    ensures |data| >= 0x8000_0000 ==> ReadBlock(file, pos) == Wrong
    ensures |data| < 0x8000_0000 ==> ReadBlock(file[..n], pos) == End
  {
    HoldsSplit(file, pos, EncInt(|data|), data);
    HoldsBytes(file, pos, |data|);
    if n >= pos + 4 {
      HoldsBytes(file[..n], pos, |data|);
    }
  }

  class FileAbstract {
    var bytes: seq<byte>
    var pos: nat
    var eof: bool

    /** `openWriteFile` empties the file; `openReadFile` finds `bytes` there. */
    constructor (bytes: seq<byte>)
      ensures this.bytes == bytes && pos == 0 && !eof
    {
      this.bytes := bytes;
      pos, eof := 0, false;
    }

    /** `fseekToPos`. */
    method Seek(pos: nat)
      modifies `pos, `eof
      ensures this.pos == pos && !eof
    {
      this.pos := pos;
      eof := false;
    }

    /** `writeAppendFile`: the bytes written to the buffer so far, as a block at the cursor. */
    method WriteAppend(buff: Buffer)
      requires buff.Valid() && pos <= |bytes| && buff.pos > 0
      modifies `bytes, `pos
      ensures bytes == WriteAt(old(bytes), old(pos), Frame(buff.Written())) && pos == old(pos) + |Frame(buff.Written())|
      ensures pos <= |bytes|
    {
      var data := Frame(buff.buff[..buff.pos]);
      bytes := WriteAt(bytes, pos, data);
      pos := pos + |data|;
    }

    /** `readFile`: appends the block at the cursor to the buffer; a length that is negative as an int makes
        `fread` leave it. */
    method ReadFile(buff: Buffer) returns (st: Status)
      requires buff.Valid()
      modifies `pos, `eof, buff, buff.buff
      ensures buff.Valid()
      ensures buff.buff == old(buff.buff) || fresh(buff.buff)
      ensures st == BlockStatus(ReadBlock(bytes, old(pos)))
      ensures st == Done ==> buff.pos >= old(buff.pos) && buff.Written()[..old(buff.pos)] == old(buff.Written())
      ensures st == Done ==> ReadBlock(bytes, old(pos)) == Block(buff.Written()[old(buff.pos)..], pos) && eof == old(eof)
      ensures st == Done ==> buff.size == Reserved(old(buff.size - buff.pos), |ReadBlock(bytes, old(pos)).data|) + old(buff.pos)
      ensures st == Failed ==> eof == if ReadBlock(bytes, old(pos)).End? then true else old(eof)
    {
      match ReadBlock(bytes, pos)
      case Block(data, next) =>
        buff.Reserve(|data|);
        ghost var before := buff.pos;
        buff.CopyIn(data);
        pos := next;
        st := Done;
      case Empty =>
        pos, st := pos + 4, Failed;
      case End =>
        pos, eof, st := if pos < |bytes| then |bytes| else pos, true, Failed;
      case Wrong =>
        st := Strayed;
    }
  }
}
