/** What happens to one commit log file, and which of its records the header makes recovery replay
    (db/commitLog.c). */
module LogHistory {
  import opened CStrings
  import opened Columns
  import opened Codec
  import opened Files
  import opened LogHeaders

  /** A record of a family was appended, or a family was synced: its records up to here are on disk elsewhere. */
  datatype Event = Appended(family: nat, rec: seq<byte>) | Synced(family: nat)

  function Recs(h: seq<Event>): seq<seq<byte>> {
    if h == [] then []
    else (if h[0].Appended? then [h[0].rec] else []) + Recs(h[1..])
  }

  /** The end of a file with header block length `H` after the events `h`. */
  function Pos(H: nat, h: seq<Event>): nat {
    H + |Frames(Recs(h))|
  }

  /** The records of family `f` that no sync of `f` follows. */
  function Survivors(h: seq<Event>, f: nat): seq<seq<byte>> {
    if h == [] then []
    else (if h[0].Appended? && h[0].family == f && Synced(f) !in h[1..] then [h[0].rec] else []) + Survivors(h[1..], f)
  }

  /** Where the last sync of `f` happened, or 0. */
  function LastSync(H: nat, h: seq<Event>, f: nat): nat {
    if h == [] then 0
    else
      var init, last := h[..|h| - 1], h[|h| - 1];
      if last == Synced(f) then Pos(H, init) else LastSync(H, init, f)
  }

  // ---- sequences of events ------------------------------------------------------------------------

  lemma {:induction false} RecsAppend(a: seq<Event>, b: seq<Event>)
    ensures Recs(a + b) == Recs(a) + Recs(b)
  {
    if a == [] {
      assert a + b == b;
    } else {
      assert (a + b)[1..] == a[1..] + b;
      RecsAppend(a[1..], b);
    }
  }

  lemma PosAppend(H: nat, a: seq<Event>, b: seq<Event>)
    ensures Pos(H, a + b) == Pos(H, a) + |Frames(Recs(b))|
  {
    RecsAppend(a, b);
    FramesAppend(Recs(a), Recs(b));
  }

  lemma PosStep(H: nat, h: seq<Event>, i: nat)
    requires i < |h|
    ensures Pos(H, h[..i + 1]) == Pos(H, h[..i]) + if h[i].Appended? then |Frame(h[i].rec)| else 0
  {
    assert h[..i + 1] == h[..i] + [h[i]];
    PosAppend(H, h[..i], [h[i]]);
    assert [h[i]][1..] == [];
    assert Recs([h[i]]) == if h[i].Appended? then [h[i].rec] else [];
    FramesSnoc([], if h[i].Appended? then h[i].rec else []);
    assert [] + [if h[i].Appended? then h[i].rec else []] == [if h[i].Appended? then h[i].rec else []];
  }

  lemma {:induction false} PosMonotone(H: nat, h: seq<Event>, i: nat, j: nat)
    requires i <= j <= |h|
    ensures Pos(H, h[..i]) <= Pos(H, h[..j])
    decreases j
  {
    if i < j {
      PosMonotone(H, h, i, j - 1);
      PosStep(H, h, j - 1);
    }
  }

  /** A later sync discards what an earlier part of the history left. */
  lemma {:induction false} SurvivorsAppend(a: seq<Event>, b: seq<Event>, f: nat)
    ensures Survivors(a + b, f) == (if Synced(f) in b then [] else Survivors(a, f)) + Survivors(b, f)
  {
    if a == [] {
      assert a + b == b;
    } else {
      assert (a + b)[1..] == a[1..] + b;
      SurvivorsAppend(a[1..], b, f);
    }
  }

  lemma SurvivorsSnoc(h: seq<Event>, e: Event, f: nat)
    ensures Survivors(h + [e], f) ==
            if e == Synced(f) then [] else if e.Appended? && e.family == f then Survivors(h, f) + [e.rec] else Survivors(h, f)
  {
    SurvivorsAppend(h, [e], f);
    assert [e][1..] == [];
    assert Survivors([e], f) == if e.Appended? && e.family == f then [e.rec] else [];
  }

  lemma {:induction false} SomeSurvivor(h: seq<Event>, f: nat, i: nat)
    requires i < |h| && h[i].Appended? && h[i].family == f && Synced(f) !in h[i + 1..]
    ensures Survivors(h, f) != []
  {
    if i > 0 {
      assert h[1..][i - 1] == h[i] && h[1..][i..] == h[i + 1..];
      SomeSurvivor(h[1..], f, i - 1);
    }
  }

  // ---- the last sync ----------------------------------------------------------------------------

  lemma {:induction false} LastSyncAfter(H: nat, h: seq<Event>, f: nat, j: nat)
    requires j < |h| && h[j] == Synced(f)
    ensures LastSync(H, h, f) >= Pos(H, h[..j])
  {
    var n := |h| - 1;
    var init := h[..n];
    if h[n] == Synced(f) {
      PosMonotone(H, h, j, n);
    } else {
      assert init[j] == h[j] && init[..j] == h[..j];
      LastSyncAfter(H, init, f, j);
    }
  }

  lemma {:induction false} LastSyncBefore(H: nat, h: seq<Event>, f: nat, i: nat)
    requires i <= |h| && Synced(f) !in h[i..]
    ensures LastSync(H, h, f) <= Pos(H, h[..i])
  {
    if h != [] {
      var n := |h| - 1;
      var init := h[..n];
      if i < |h| { assert h[i..][n - i] == h[n]; }
      if h[n] == Synced(f) {
        PosMonotone(H, h, n, i);
      } else if i == |h| {
        LastSyncBefore(H, init, f, n);
        assert init[..n] == init;
        PosMonotone(H, h, n, i);
      } else {
        assert init[i..] == h[i..][..n - i] && init[..i] == h[..i];
        LastSyncBefore(H, init, f, i);
      }
    }
  }

  /** The position `p` is where a block begins or the file ends. */
  ghost predicate Boundary(H: nat, h: seq<Event>, p: int) {
    exists i :: 0 <= i <= |h| && p == Pos(H, h[..i])
  }

  lemma {:induction false} LastSyncBoundary(H: nat, h: seq<Event>, f: nat)
    ensures LastSync(H, h, f) == 0 || Boundary(H, h, LastSync(H, h, f))
  {
    if h != [] {
      var n := |h| - 1;
      var init := h[..n];
      if h[n] != Synced(f) {
        LastSyncBoundary(H, init, f);
        if LastSync(H, init, f) != 0 {
          var i :| 0 <= i <= n && LastSync(H, init, f) == Pos(H, init[..i]);
          assert init[..i] == h[..i];
        }
      }
    }
  }

  /** A family has no position exactly when it was not synced. */
  lemma {:induction false} NeverSynced(H: nat, h: seq<Event>, f: nat)
    requires H > 0
    ensures LastSync(H, h, f) == 0 <==> Synced(f) !in h
  {
    if Synced(f) in h {
      var j :| 0 <= j < |h| && h[j] == Synced(f);
      LastSyncAfter(H, h, f, j);
    } else {
      assert h[0..] == h;
      LastSyncBound(H, h, f);
    }
  }

  lemma {:induction false} LastSyncBound(H: nat, h: seq<Event>, f: nat)
    requires Synced(f) !in h
    ensures LastSync(H, h, f) == 0
  {
    if h != [] {
      assert h[|h| - 1] in h;
      LastSyncBound(H, h[..|h| - 1], f);
    }
  }

  /** A family with survivors has a record. */
  lemma {:induction false} SurvivorRecord(h: seq<Event>, f: nat) returns (i: nat)
    requires Survivors(h, f) != []
    ensures i < |h| && h[i].Appended? && h[i].family == f
  {
    if h[0].Appended? && h[0].family == f {
      i := 0;
    } else {
      i := SurvivorRecord(h[1..], f);
      i := i + 1;
    }
  }

  // ---- the header and the history -----------------------------------------------------------------

  /** The header has each family dirty exactly when some record of it survives, and has the position
      of its last sync. */
  ghost predicate Reflects(H: nat, hdr: Header, h: seq<Event>) {
    && WellFormed(hdr)
    && forall f: nat :: f < hdr.cfCount ==> IsDirty(hdr, f) == (Survivors(h, f) != []) && hdr.posAt[f] == LastSync(H, h, f)
  }

  /** `needReplay`: the record of family `f` at `pos`. */
  predicate Accepted(hdr: Header, f: nat, pos: int)
    requires WellFormed(hdr)
  {
    IsDirty(hdr, f) && hdr.posAt[f] <= pos
  }

  /** A record's position against the last sync of its family. */
  lemma LastSyncAgainst(H: nat, h: seq<Event>, i: nat)
    requires i < |h| && h[i].Appended?
    ensures Pos(H, h[..i]) < LastSync(H, h, h[i].family) <==> Synced(h[i].family) in h[i + 1..]
    ensures Synced(h[i].family) !in h[i + 1..] ==> Survivors(h, h[i].family) != []
  {
    hide Pos, Survivors, LastSync;
    var f := h[i].family;
    if Synced(f) in h[i + 1..] {
      var k :| 0 <= k < |h[i + 1..]| && h[i + 1..][k] == Synced(f);
      LastSyncAfter(H, h, f, i + 1 + k);
      PosStep(H, h, i);
      PosMonotone(H, h, i + 1, i + 1 + k);
    } else {
      SomeSurvivor(h, f, i);
      assert h[i..] == [h[i]] + h[i + 1..];
      LastSyncBefore(H, h, f, i);
    }
  }

  /** A record is replayed exactly when no sync of its family came after it. */
  lemma AcceptedIffNotSynced(H: nat, hdr: Header, h: seq<Event>, i: nat)
    requires Reflects(H, hdr, h) && i < |h| && h[i].Appended? && h[i].family < hdr.cfCount
    ensures Accepted(hdr, h[i].family, Pos(H, h[..i])) <==> Synced(h[i].family) !in h[i + 1..]
  {
    LastSyncAgainst(H, h, i);
  }

  /** The header that `writeCommitLog` puts on disk before it appends the record already has the
      record's family dirty; it still decides about every earlier record as before. */
  lemma CoveredBeforeAppend(H: nat, hdr: Header, h: seq<Event>, f: nat, i: nat)
    requires Reflects(H, hdr, h) && f < hdr.cfCount
    requires i < |h| && h[i].Appended? && h[i].family < hdr.cfCount
    ensures Accepted(Marked(hdr, f), h[i].family, Pos(H, h[..i])) <==> Synced(h[i].family) !in h[i + 1..]
    ensures Accepted(Marked(hdr, f), f, Pos(H, h))
  {
    var g := h[i].family;
    MarkedOnly(hdr, f, g);
    MarkedOnly(hdr, f, f);
    LastSyncAgainst(H, h, i);
    LastSyncBefore(H, h, f, |h|);
    assert h[..|h|] == h;
  }

  /** Appending a record of a dirty family keeps the header right. */
  lemma AppendReflects(H: nat, hdr: Header, h: seq<Event>, f: nat, rec: seq<byte>)
    requires Reflects(H, hdr, h) && f < hdr.cfCount
    ensures Reflects(H, Marked(hdr, f), h + [Appended(f, rec)])
  {
    var h' := h + [Appended(f, rec)];
    assert h'[..|h|] == h;
    forall g: nat | g < hdr.cfCount
      ensures IsDirty(Marked(hdr, f), g) == (Survivors(h', g) != [])
           && Marked(hdr, f).posAt[g] == LastSync(H, h', g)
    {
      SurvivorsSnoc(h, Appended(f, rec), g);
      MarkedOnly(hdr, f, g);
    }
  }

  /** What a sync of `f` makes of the header's and the history's view of `g`. */
  lemma SyncedView(H: nat, hdr: Header, h: seq<Event>, f: nat, p: int32, g: nat)
    requires WellFormed(hdr) && f < hdr.cfCount && g < hdr.cfCount
    ensures var hdr', h' := WithPos(WithDirty(hdr, f, false), f, p), h + [Synced(f)];
            && IsDirty(hdr', g) == (g != f && IsDirty(hdr, g)) && hdr'.posAt[g] == (if g == f then p else hdr.posAt[g])
            && Survivors(h', g) == (if g == f then [] else Survivors(h, g))
            && LastSync(H, h', g) == if g == f then Pos(H, h) else LastSync(H, h, g)
  {
    assert (h + [Synced(f)])[..|h|] == h;
    SurvivorsSnoc(h, Synced(f), g);
    WithDirtyOnly(hdr, f, false, g);
  }

  /** `synCommitLog` keeps the header right exactly when the end of the file fits an int: the position
      is passed as one. */
  lemma SyncReflects(H: nat, hdr: Header, h: seq<Event>, f: nat)
    requires Reflects(H, hdr, h) && f < hdr.cfCount
    ensures Reflects(H, WithPos(WithDirty(hdr, f, false), f, ToInt32(Pos(H, h))), h + [Synced(f)]) <==> Pos(H, h) < 0x8000_0000
  {
    PosInt(Pos(H, h));
    forall g: nat | g < hdr.cfCount
      ensures var hdr', h' := WithPos(WithDirty(hdr, f, false), f, ToInt32(Pos(H, h))), h + [Synced(f)];
              (IsDirty(hdr', g) == (Survivors(h', g) != []) && hdr'.posAt[g] == LastSync(H, h', g)) <==>
              (g == f ==> Pos(H, h) < 0x8000_0000)
    {
      SyncedView(H, hdr, h, f, ToInt32(Pos(H, h)), g);
    }
    SyncedView(H, hdr, h, f, ToInt32(Pos(H, h)), f);
  }

  lemma PosInt(p: nat)
    ensures ToInt32(p) == p <==> p < 0x8000_0000
  {
    if p < 0x1_0000_0000 { assert p % 0x1_0000_0000 == p; }
  }

  // ---- the accepted records, in the order of the file -------------------------------------------------

  /** The records that no sync of their family follows. */
  function Kept(h: seq<Event>): seq<Event> {
    if h == [] then []
    else (if h[0].Appended? && Synced(h[0].family) !in h[1..] then [h[0]] else []) + Kept(h[1..])
  }

  /** Family by family, the kept records are the survivors, in their order. */
  lemma {:induction false} KeptByFamily(h: seq<Event>, f: nat)
    ensures Survivors(Kept(h), f) == Survivors(h, f)
  {
    if h != [] {
      KeptByFamily(h[1..], f);
      KeptAreRecords(h[1..]);
      if h[0].Appended? && Synced(h[0].family) !in h[1..] {
        assert ([h[0]] + Kept(h[1..]))[1..] == Kept(h[1..]);
      } else {
        assert Kept(h) == Kept(h[1..]);
      }
    }
  }

  lemma {:induction false} KeptAreRecords(h: seq<Event>)
    ensures forall e :: e in Kept(h) ==> e.Appended? && e in h
  {
    if h != [] { KeptAreRecords(h[1..]); }
  }
}
