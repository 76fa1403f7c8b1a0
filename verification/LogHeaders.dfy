/** The header of a commit log (clHeader, db/commitLog.c): a bitmap of dirty families and, for each
    family, the file position from which its records count. */
module LogHeaders {
  import opened CStrings
  import opened Columns
  import opened Bits
  import opened Codec
  import opened Buffers

  datatype Header = Header(cfCount: nat, dirtyBit: seq<byte>, posAt: seq<int32>)

  predicate WellFormed(h: Header) {
    h.cfCount < 0x8000_0000 && |h.dirtyBit| == h.cfCount / 8 + 1 && |h.posAt| == h.cfCount
  }

  /** A new header: nothing is dirty, all positions are 0. */
  function FreshHeader(cfCount: nat): Header {
    Header(cfCount, seq(cfCount / 8 + 1, _ => 0), seq(cfCount, _ => 0))
  }

  /** `isDirty`; an entry outside the header is clean. */
  predicate IsDirty(h: Header, entry: nat)
    requires WellFormed(h)
  {
    entry < h.cfCount && TestBit(h.dirtyBit[entry / 8], entry % 8)
  }

  /** `setDirty` and `clearDirty`. */
  function WithDirty(h: Header, entry: nat, dirty: bool): (r: Header)
    requires WellFormed(h)
    ensures WellFormed(r) && r.cfCount == h.cfCount
  {
    if entry >= h.cfCount then h
    else h.(dirtyBit := h.dirtyBit[entry / 8 := WithBit(h.dirtyBit[entry / 8], entry % 8, dirty)])
  }

  /** `setEntryPos`. */
  function WithPos(h: Header, entry: nat, position: int32): (r: Header)
    requires WellFormed(h)
    ensures WellFormed(r) && r.cfCount == h.cfCount
  {
    if entry >= h.cfCount then h else h.(posAt := h.posAt[entry := position])
  }

  /** One bit of the bitmap changes and no other. */
  lemma WithDirtyOnly(h: Header, entry: nat, dirty: bool, other: nat)
    requires WellFormed(h)
    ensures IsDirty(WithDirty(h, entry, dirty), other) ==
            if other == entry && entry < h.cfCount then dirty else IsDirty(h, other)
  {
    if entry < h.cfCount && other < h.cfCount && other / 8 == entry / 8 {
      WithBitTest(h.dirtyBit[entry / 8], entry % 8, dirty, other % 8);
    }
  }

  /** The header once a record of family `entry` is about to be written. */
  function Marked(h: Header, entry: nat): (r: Header)
    requires WellFormed(h)
    ensures WellFormed(r) && r.cfCount == h.cfCount
  {
    if IsDirty(h, entry) then h else WithDirty(h, entry, true)
  }

  lemma MarkedOnly(h: Header, entry: nat, other: nat)
    requires WellFormed(h)
    ensures IsDirty(Marked(h, entry), other) == ((other == entry && entry < h.cfCount) || IsDirty(h, other))
    ensures Marked(h, entry).posAt == h.posAt
  {
    WithDirtyOnly(h, entry, true, other);
  }

  /** The bits behind those of the families are never set. */
  ghost predicate Padded(h: Header)
    requires WellFormed(h)
  {
    forall j, k :: 0 <= j < |h.dirtyBit| && 0 <= k < 8 && 8 * j + k >= h.cfCount ==> !TestBit(h.dirtyBit[j], k)
  }

  lemma FreshPadded(cfCount: nat)
    requires cfCount < 0x8000_0000
    ensures Padded(FreshHeader(cfCount))
  {
    hide TestBit;
    forall k: nat | k < 8 ensures !TestBit(0, k) { ZeroBits(k); }
  }

  lemma WithDirtyPadded(h: Header, entry: nat, dirty: bool)
    requires WellFormed(h) && Padded(h)
    ensures Padded(WithDirty(h, entry, dirty))
  {
    hide TestBit, WithBit;
    if entry < h.cfCount {
      forall k: nat | k < 8 ensures TestBit(WithBit(h.dirtyBit[entry / 8], entry % 8, dirty), k) == if k == entry % 8 then dirty else TestBit(h.dirtyBit[entry / 8], k) {
        WithBitTest(h.dirtyBit[entry / 8], entry % 8, dirty, k);
      }
    }
  }

  // ---- the bytes of a header --------------------------------------------------------------------

  function EncInts(s: seq<int32>): seq<byte> {
    if s == [] then [] else EncInt(s[0]) + EncInts(s[1..])
  }

  /** `serializeCLH`. */
  function EncHeader(h: Header): seq<byte> {
    EncInt(h.cfCount) + (EncBytes(h.dirtyBit) + EncInts(h.posAt))
  }

  function DecInts(b: seq<byte>, p: nat, count: nat): Dec<seq<int32>>
    decreases count
  {
    if count == 0 then Ok([], p)
    else
      var (v, q) :- DecInt(b, p);
      var (rest, r) :- DecInts(b, q, count - 1);
      Ok([v] + rest, r)
  }

  /** `deserializeCLH`. */
  function DecHeader(b: seq<byte>): Dec<Header> {
    var (cfCount, p1) :- DecInt(b, 0);
    var (dirtyBit, p2) :- DecBytes(b, p1);
    if cfCount < 0 then Fail
    else
      var (posAt, p3) :- DecInts(b, p2, cfCount);
      Ok(Header(cfCount, dirtyBit, posAt), p3)
  }

  lemma {:induction false} EncIntsLength(s: seq<int32>)
    ensures |EncInts(s)| == 4 * |s|
  {
    if s != [] { EncIntsLength(s[1..]); }
  }

  /** The length of a header's bytes depends on the number of families only. */
  lemma HeaderLength(h: Header)
    requires WellFormed(h)
    ensures |EncHeader(h)| == 8 + (h.cfCount / 8 + 1) + 4 * h.cfCount
  {
    EncIntsLength(h.posAt);
  }

  lemma {:induction false} IntsRoundTrip(b: seq<byte>, p: nat, s: seq<int32>)
    requires Holds(b, p, EncInts(s))
    ensures DecInts(b, p, |s|) == Ok(s, p + |EncInts(s)|)
    decreases s
  {
    if s != [] {
      HoldsSplit(b, p, EncInt(s[0]), EncInts(s[1..]));
      IntRoundTrip(b, p, s[0]);
      IntsRoundTrip(b, p + 4, s[1..]);
      assert [s[0]] + s[1..] == s;
    }
  }

  lemma HeaderRoundTrip(b: seq<byte>, h: Header)
    requires WellFormed(h) && Holds(b, 0, EncHeader(h))
    ensures DecHeader(b) == Ok(h, |EncHeader(h)|)
  {
    var e := EncBytes(h.dirtyBit);
    HoldsSplit(b, 0, EncInt(h.cfCount), e + EncInts(h.posAt));
    HoldsSplit(b, 4, e, EncInts(h.posAt));
    IntRoundTrip(b, 0, h.cfCount);
    BytesRoundTrip(b, 4, h.dirtyBit);
    IntsRoundTrip(b, 4 + |e|, h.posAt);
  }

  // ---- the first position to replay from ----------------------------------------------------------

  /** The bitmap as flags, one for each family. */
  function Flags(h: Header): (flags: seq<bool>)
    requires WellFormed(h)
    ensures |flags| == h.cfCount && forall i :: 0 <= i < h.cfCount ==> flags[i] == IsDirty(h, i)
  {
    seq(h.cfCount, i requires 0 <= i < h.cfCount => IsDirty(h, i))
  }

  /** The least position of a dirty family among the first `n`. */
  function Least(flags: seq<bool>, posAt: seq<int32>, n: nat): Option<int32>
    requires n <= |flags| == |posAt|
  {
    if n == 0 then None
    else
      var before := Least(flags, posAt, n - 1);
      if !flags[n - 1] then before
      else if before.Some? && before.value < posAt[n - 1] then before
      else Some(posAt[n - 1])
  }

  /** Where replay starts, if anything is dirty. */
  function FirstDirty(h: Header): Option<int32>
    requires WellFormed(h)
  {
    Least(Flags(h), h.posAt, h.cfCount)
  }

  /** One round of `getFirstDirtyPos`. */
  lemma LeastStep(flags: seq<bool>, posAt: seq<int32>, i: nat, dirty: bool, flag: bool, tmp: int32)
    requires i < |flags| == |posAt| && dirty == flags[i] && Least(flags, posAt, i) == if flag then Some(tmp) else None
    ensures Least(flags, posAt, i + 1) ==
            if !dirty then Least(flags, posAt, i) else if flag && tmp < posAt[i] then Some(tmp) else Some(posAt[i])
  {
  }

  /** It is at or before the position of every dirty family. */
  lemma {:induction false} LeastBelow(flags: seq<bool>, posAt: seq<int32>, n: nat, i: nat)
    requires i < n <= |flags| == |posAt| && flags[i]
    ensures Least(flags, posAt, n).Some? && Least(flags, posAt, n).value <= posAt[i]
  {
    if i < n - 1 { LeastBelow(flags, posAt, n - 1, i); }
  }

  /** It is the position of some dirty family. */
  lemma {:induction false} LeastHeld(flags: seq<bool>, posAt: seq<int32>, n: nat) returns (i: nat)
    requires n <= |flags| == |posAt| && Least(flags, posAt, n).Some?
    ensures i < n && flags[i] && posAt[i] == Least(flags, posAt, n).value
  {
    if flags[n - 1] && Least(flags, posAt, n) == Some(posAt[n - 1]) {
      i := n - 1;
    } else {
      i := LeastHeld(flags, posAt, n - 1);
    }
  }

  class CLHeader {
    const cfCount: nat
    const byteCount: nat
    const dirtyBit: array<byte>
    const posAt: array<int32>

    /** `getCLHeader`. */
    constructor (cfCount: nat)
      requires cfCount < 0x8000_0000
      ensures Valid() && fresh(dirtyBit) && fresh(posAt) && this.cfCount == cfCount
      ensures Value() == FreshHeader(cfCount)
    {
      this.cfCount := cfCount;
      this.byteCount := cfCount / 8 + 1;
      dirtyBit := new byte[cfCount / 8 + 1](_ => 0);
      posAt := new int32[cfCount](_ => 0);
    }

    /** A header with given contents. */
    constructor Of(cfCount: nat, dirtyBit: seq<byte>, posAt: seq<int32>)
      requires |posAt| == cfCount
      ensures fresh(this.dirtyBit) && fresh(this.posAt)
      ensures this.cfCount == cfCount && this.dirtyBit[..] == dirtyBit && this.posAt[..] == posAt
      ensures Valid() <==> WellFormed(Header(cfCount, dirtyBit, posAt))
    {
      this.cfCount := cfCount;
      this.byteCount := |dirtyBit|;
      this.dirtyBit := new byte[|dirtyBit|](i requires 0 <= i < |dirtyBit| => dirtyBit[i]);
      this.posAt := new int32[|posAt|](i requires 0 <= i < |posAt| => posAt[i]);
    }

    ghost predicate Valid()
      reads this
    {
      cfCount < 0x8000_0000 && byteCount == cfCount / 8 + 1 && dirtyBit.Length == byteCount && posAt.Length == cfCount
    }

    ghost function Value(): (h: Header)
      requires Valid()
      reads this, dirtyBit, posAt
      ensures WellFormed(h) && h.cfCount == cfCount
    {
      Header(cfCount, dirtyBit[..], posAt[..])
    }

    /** `setDirty` and `clearDirty`. */
    method SetDirty(entry: nat, dirty: bool)
      requires Valid()
      modifies dirtyBit
      ensures Value() == WithDirty(old(Value()), entry, dirty)
    {
      if entry >= cfCount {
        return;
      }
      var be, rem := entry / 8, entry % 8;
      dirtyBit[be] := WithBit(dirtyBit[be], rem, dirty);
    }

    /** `setEntryPos`. */
    method SetEntryPos(entry: nat, position: int32)
      requires Valid()
      modifies posAt
      ensures Value() == WithPos(old(Value()), entry, position)
    {
      if entry >= cfCount {
        return;
      }
      posAt[entry] := position;
    }

    /** `isDirty`. */
    method TestDirty(entry: nat) returns (dirty: bool)
      requires Valid()
      ensures dirty == IsDirty(Value(), entry)
    {
      if entry >= cfCount {
        return false;
      }
      dirty := TestBit(dirtyBit[entry / 8], entry % 8);
    }

    /** `getFirstDirtyPos`: -1 when no family is dirty. */
    method FirstDirtyPos() returns (pos: int)
      requires Valid()
      ensures pos == match FirstDirty(Value()) case None => -1 case Some(p) => p
    {
      ghost var flags := Flags(Value());
      var flag, tmp, i := false, 0, 0;
      while i < cfCount
        invariant 0 <= i <= cfCount
        invariant Least(flags, posAt[..], i) == if flag then Some(tmp) else None
      {
        var dirty := TestDirty(i);
        LeastStep(flags, posAt[..], i, dirty, flag, tmp);
        if dirty {
          if flag {
            tmp := if tmp < posAt[i] then tmp else posAt[i];
          } else {
            flag := true;
            tmp := posAt[i];
          }
        }
        i := i + 1;
      }
      pos := if flag then tmp else -1;
    }

    /** `serializeCLH`. */
    method Serialize(buff: Buffer)
      requires Valid() && buff.Valid() && buff.buff != dirtyBit
      modifies buff, buff.buff
      ensures buff.Valid() && buff.Written() == old(buff.Written()) + EncHeader(Value())
      ensures Value() == old(Value()) && (buff.buff == old(buff.buff) || fresh(buff.buff))
    {
      ghost var h := Value();
      ThreeParts(buff.Written(), EncInt(cfCount), EncBytes(h.dirtyBit), EncInts(h.posAt));
      buff.WriteInt(cfCount);
      buff.WriteBytes(dirtyBit[..]);
      WritePositions(buff);
    }

    /** The loop of `serializeCLH`. */
    method WritePositions(buff: Buffer)
      requires Valid() && buff.Valid() && buff.buff != dirtyBit
      modifies buff, buff.buff
      ensures buff.Valid() && buff.Written() == old(buff.Written()) + EncInts(posAt[..])
      ensures Value() == old(Value()) && (buff.buff == old(buff.buff) || fresh(buff.buff))
    {
      ghost var was, s := buff.Written(), posAt[..];
      var i := 0;
      while i < cfCount
        invariant 0 <= i <= cfCount && buff.Valid() && (buff.buff == old(buff.buff) || fresh(buff.buff))
        invariant buff.Written() == was + EncInts(s[..i])
      {
        buff.WriteInt(posAt[i]);
        EncIntsSnoc(s, i);
        ThreeParts(was, EncInts(s[..i]), EncInt(s[i]), []);
        i := i + 1;
      }
      assert s[..i] == s;
    }
  }

  lemma ThreeParts(p: seq<byte>, x: seq<byte>, y: seq<byte>, z: seq<byte>)
    ensures p + x + y + z == p + (x + (y + z)) && p + x + y == p + (x + y)
  {
  }

  lemma EncIntsSnoc(s: seq<int32>, i: nat)
    requires i < |s|
    ensures EncInts(s[..i + 1]) == EncInts(s[..i]) + EncInt(s[i])
  {
    assert s[..i + 1] == s[..i] + [s[i]];
    EncIntsAppend(s[..i], s[i]);
  }

  lemma {:induction false} EncIntsAppend(s: seq<int32>, x: int32)
    ensures EncInts(s + [x]) == EncInts(s) + EncInt(x)
  {
    if s == [] {
      assert [x][1..] == [];
    } else {
      assert (s + [x])[1..] == s[1..] + [x];
      EncIntsAppend(s[1..], x);
    }
  }
}
