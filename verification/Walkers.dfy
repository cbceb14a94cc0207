/**
 fanotify.h: the loop that probes init flags one bit at a time, and the walk over the
 information records of an event.
 */
module Walkers {
  import opened Basics

  // ---------- probing flags ----------

  predicate Has(flags: bv32, b: bv32) {
    flags & b != 0
  }

  predicate IsBit(b: bv32) {
    b != 0 && b & (b - 1) == 0
  }

  /** `ret |= flg` and `flg <<= 1`. */
  function Or(ret: bv32, flg: bv32): bv32 {
    ret | flg
  }

  function Shift(flg: bv32): bv32 {
    flg << 1
  }

  /** The value of `flg` after k left shifts. */
  function Bit(k: nat): bv32 {
    if k == 0 then 1 else Shift(Bit(k - 1))
  }

  /** The first entry for a flag adds its dependencies; a zero entry ends the list. */
  function Arg(flg: bv32, deplist: seq<(bv32, bv32)>): bv32 {
    if deplist == [] || deplist[0].0 == 0 then flg
    else if deplist[0].0 == flg then Or(flg, deplist[0].1)
    else Arg(flg, deplist[1..])
  }

  /** Entry i is the first for the flag, and the list does not end before it. */
  ghost predicate FirstEntry(flg: bv32, deplist: seq<(bv32, bv32)>, i: int) {
    0 <= i < |deplist| && deplist[i].0 == flg != 0 && forall j | 0 <= j < i :: deplist[j].0 != 0 && deplist[j].0 != flg
  }

  lemma OrIs(a: bv32, b: bv32)
    ensures Or(a, b) == a | b
  {}

  lemma {:induction false} ArgFirst(flg: bv32, deplist: seq<(bv32, bv32)>, i: int)
    requires FirstEntry(flg, deplist, i)
    ensures Arg(flg, deplist) == Or(flg, deplist[i].1)
  {
    hide Or;
    if i == 0 {
    } else {
      ArgFirst(flg, deplist[1..], i - 1);
    }
  }

  /** The first entry for a flag adds all its dependencies. */
  lemma ArgIs(flg: bv32, deplist: seq<(bv32, bv32)>, i: int)
    requires FirstEntry(flg, deplist, i)
    ensures Arg(flg, deplist) == flg | deplist[i].1
  {
    hide Or, FirstEntry, Arg;
    ArgFirst(flg, deplist, i);
    EntryInside(flg, deplist, i);
    OrIs(flg, deplist[i].1);
  }

  lemma EntryInside(flg: bv32, deplist: seq<(bv32, bv32)>, i: int)
    requires FirstEntry(flg, deplist, i)
    ensures 0 <= i < |deplist|
  {}

  /** The flag alone, or with the dependencies of its first entry. */
  method ArgOf(flg: bv32, deplist: seq<(bv32, bv32)>) returns (arg: bv32)
    ensures forall i | FirstEntry(flg, deplist, i) :: arg == Or(flg, deplist[i].1)
    ensures (forall i :: !FirstEntry(flg, deplist, i)) ==> arg == flg
    ensures arg == Arg(flg, deplist)
  {
    hide Or;
    arg := flg;
    var i := 0;
    while i < |deplist| && deplist[i].0 != 0
      invariant 0 <= i <= |deplist| && arg == flg
      invariant forall j | 0 <= j < i :: deplist[j].0 != 0 && deplist[j].0 != flg
      invariant Arg(flg, deplist[i..]) == Arg(flg, deplist)
    {
      if deplist[i].0 == flg {
        arg := Or(arg, deplist[i].1);
        assert FirstEntry(flg, deplist, i);
        break;
      }
      i := i + 1;
    }
  }

  lemma Bit32()
    ensures Bit(31) == 0x8000_0000 && Bit(32) == 0
  {
    assert Bit(2) == 4;
    assert Bit(4) == 0x10;
    assert Bit(6) == 0x40;
    assert Bit(8) == 0x100;
    assert Bit(10) == 0x400;
    assert Bit(12) == 0x1000;
    assert Bit(14) == 0x4000;
    assert Bit(16) == 0x1_0000;
    assert Bit(18) == 0x4_0000;
    assert Bit(20) == 0x10_0000;
    assert Bit(22) == 0x40_0000;
    assert Bit(24) == 0x100_0000;
    assert Bit(26) == 0x400_0000;
    assert Bit(28) == 0x1000_0000;
    assert Bit(30) == 0x4000_0000;
  }

  /** The bits below `flg`, which the loop has already looked at; all of them once flg is 0. */
  function Below(flg: bv32): bv32 {
    flg - 1
  }

  lemma BelowGrows(flg: bv32, b: bv32)
    requires IsBit(flg) && IsBit(b)
    ensures Has(Below(Shift(flg)), b) <==> Has(Below(flg), b) || b == flg
  {}

  lemma ShiftBit(flg: bv32)
    requires IsBit(flg)
    ensures Shift(flg) == 0 || IsBit(Shift(flg))
  {}

  lemma BelowAll(b: bv32)
    requires IsBit(b)
    ensures Has(Below(0), b) && !Has(Below(1), b)
  {}

  lemma AddBit(ret: bv32, flg: bv32, b: bv32)
    requires IsBit(flg) && IsBit(b)
    ensures Has(Or(ret, flg), b) <==> Has(ret, b) || b == flg
  {
    if b == flg {
      OrSelf(ret, b);
    } else {
      OrOther(ret, flg, b);
    }
  }

  lemma OrSelf(ret: bv32, b: bv32)
    ensures (ret | b) & b == b
  {}

  lemma OrOther(ret: bv32, flg: bv32, b: bv32)
    requires IsBit(flg) && IsBit(b) && b != flg
    ensures (ret | flg) & b == ret & b
  {}

  lemma NotBelowItself(flg: bv32)
    requires IsBit(flg)
    ensures !Has(Below(flg), flg)
  {}

  /** Whether the probe of one flag, with what it depends on, succeeds. */
  predicate Supported(b: bv32, deplist: seq<(bv32, bv32)>, probe: bv32 -> bool) {
    probe(Arg(b, deplist))
  }

  /** Of the bits in a range, `found` has those given and supported, and it has no others. */
  ghost predicate Sifted(found: bv32, range: bv32, flags: bv32, deplist: seq<(bv32, bv32)>, probe: bv32 -> bool) {
    forall b | IsBit(b) :: Has(found, b) <==> Has(range, b) && Has(flags, b) && Supported(b, deplist, probe)
  }

  lemma SiftStart(flags: bv32, deplist: seq<(bv32, bv32)>, probe: bv32 -> bool)
    ensures IsBit(1) && Sifted(0, Below(1), flags, deplist, probe)
  {
    hide Below;
    forall b | IsBit(b) ensures !Has(0, b) && !Has(Below(1), b) {
      BelowAll(b);
    }
  }

  lemma SiftStep(found: bv32, flg: bv32, flags: bv32, deplist: seq<(bv32, bv32)>, probe: bv32 -> bool)
    requires IsBit(flg) && Sifted(found, Below(flg), flags, deplist, probe)
    ensures var found' := if Has(flags, flg) && Supported(flg, deplist, probe) then Or(found, flg) else found;
            Sifted(found', Below(Shift(flg)), flags, deplist, probe)
  {
    hide IsBit, Has, Below, Or, Shift, Supported;
    forall b | IsBit(b)
      ensures Has(Or(found, flg), b) <==> Has(found, b) || b == flg
      ensures Has(Below(Shift(flg)), b) <==> Has(Below(flg), b) || b == flg
    {
      AddBit(found, flg, b);
      BelowGrows(flg, b);
    }
    NotBelowItself(flg);
  }

  lemma SiftEnd(found: bv32, flags: bv32, deplist: seq<(bv32, bv32)>, probe: bv32 -> bool)
    requires Sifted(found, Below(0), flags, deplist, probe)
    ensures forall b | IsBit(b) :: Has(found, b) <==> Has(flags, b) && Supported(b, deplist, probe)
  {
    hide IsBit, Has, Below, Supported;
    forall b | IsBit(b) ensures Has(Below(0), b) {
      BelowAll(b);
    }
  }

  /**
   fanotify_get_supported_init_flags: refuses flags it does not know, and else returns, after
   exactly 32 shifts, those of the given flags whose probe succeeds and no others.
   */
  method GetSupportedInitFlags(flags: bv32, known: bv32, deplist: seq<(bv32, bv32)>, probe: bv32 -> bool)
    returns (ret: Option<bv32>, shifts: nat)
    ensures ret.None? <==> Has(flags, !known)
    ensures ret.Some? ==> shifts == 32
    ensures ret.Some? ==> forall b | IsBit(b) :: Has(ret.value, b) <==> Has(flags, b) && Supported(b, deplist, probe)
  {
    hide IsBit, Has, Below, Or, Shift, Sifted;
    shifts := 0;
    if Has(flags, !known) {
      return None, 0;
    }
    var flg: bv32, found: bv32 := 1, 0;
    Bit32();
    SiftStart(flags, deplist, probe);
    while flg != 0
      invariant shifts <= 32 && flg == Bit(shifts) && (flg == 0 || IsBit(flg))
      invariant Sifted(found, Below(flg), flags, deplist, probe)
      decreases 32 - shifts
    {
      SiftStep(found, flg, flags, deplist, probe);
      ShiftBit(flg);
      if Has(flags, flg) {
        var arg := ArgOf(flg, deplist);
        if probe(arg) {
          found := Or(found, flg);
        }
      }
      flg := Shift(flg);
      shifts := shifts + 1;
    }
    NotEarlier(shifts);
    SiftEnd(found, flags, deplist, probe);
    ret := Some(found);
  }

  /** The flag does not vanish before the 32nd shift. */
  lemma {:induction false} NotEarlier(k: nat)
    requires k <= 32 && Bit(k) == 0
    ensures k == 32
  {
    if k < 32 {
      StaysZero(k, 31);
      Bit32();
    }
  }

  lemma {:induction false} StaysZero(k: nat, n: nat)
    requires k <= n && Bit(k) == 0
    ensures Bit(n) == 0
    decreases n
  {
    if k >= n {
    } else {
      StaysZero(k, n - 1);
    }
  }

  // ---------- the records of an event ----------

  const HEADER: nat := 4

  datatype Record = Record(infoType: int, len: nat)

  /** The records lie end to end from `off` to `end`; each is at least a header long. */
  ghost predicate Tiled(at: nat -> Record, off: nat, end: nat, recs: seq<Record>)
    decreases |recs|
  {
    if recs == [] then off == end
    else at(off) == recs[0] && recs[0].len >= HEADER && Tiled(at, off + recs[0].len, end, recs[1..])
  }

  /** The offset of the first record of a type, when there is one. */
  function FirstOf(recs: seq<Record>, off: nat, infoType: int): Option<nat>
    decreases |recs|
  {
    if recs == [] then None
    else if recs[0].infoType == infoType then Some(off)
    else FirstOf(recs[1..], off + recs[0].len, infoType)
  }

  /** The bytes the records take up. */
  function Extent(recs: seq<Record>): nat {
    if recs == [] then 0 else recs[0].len + Extent(recs[1..])
  }

  /** The first record of a type lies behind all the records before it, none of that type. */
  lemma {:induction false} FirstOfIs(recs: seq<Record>, off: nat, infoType: int)
    ensures FirstOf(recs, off, infoType).None? ==> forall k | 0 <= k < |recs| :: recs[k].infoType != infoType
    ensures FirstOf(recs, off, infoType).Some? ==>
              exists k | 0 <= k < |recs| ::
                && recs[k].infoType == infoType && FirstOf(recs, off, infoType).value == off + Extent(recs[..k])
                && forall j | 0 <= j < k :: recs[j].infoType != infoType
    decreases |recs|
  {
    if recs == [] {
    } else if recs[0].infoType == infoType {
      assert recs[..0] == [];
      assert recs[0].infoType == infoType && off == off + Extent(recs[..0]);
    } else {
      var rest := recs[1..];
      FirstOfIs(rest, off + recs[0].len, infoType);
      assert forall k | 0 <= k < |rest| :: rest[k] == recs[k + 1];
      if FirstOf(recs, off, infoType).None? {
        forall k | 0 <= k < |recs| ensures recs[k].infoType != infoType {
          if k > 0 { assert rest[k - 1] == recs[k]; }
        }
      } else {
        var k :| 0 <= k < |rest| && rest[k].infoType == infoType
                 && FirstOf(rest, off + recs[0].len, infoType).value == off + recs[0].len + Extent(rest[..k])
                 && forall j | 0 <= j < k :: rest[j].infoType != infoType;
        assert recs[..k + 1][1..] == rest[..k] && recs[..k + 1][0] == recs[0];
        forall j | 0 <= j < k + 1 ensures recs[j].infoType != infoType {
          if j > 0 { assert rest[j - 1] == recs[j]; }
        }
        assert recs[k + 1].infoType == infoType;
      }
    }
  }

  /** The walk stops short of a last record that is nothing but a header. */
  function Seen(recs: seq<Record>): seq<Record> {
    if recs != [] && recs[|recs| - 1].len == HEADER then recs[..|recs| - 1] else recs
  }

  lemma {:induction false} TiledEnd(at: nat -> Record, off: nat, end: nat, recs: seq<Record>)
    requires Tiled(at, off, end, recs)
    ensures off + HEADER * |recs| <= end
    decreases |recs|
  {
    if recs == [] {
    } else {
      TiledEnd(at, off + recs[0].len, end, recs[1..]);
    }
  }

  /**
   get_event_info on an event whose records tile it: the first record of the wanted type among
   all of them, except that a last record of exactly a header's length is not looked at.
   */
  method GetEventInfo(at: nat -> Record, metadataLen: nat, eventLen: nat, infoType: int, ghost recs: seq<Record>)
    returns (hdr: Option<nat>)
    requires Tiled(at, metadataLen, eventLen, recs)
    ensures hdr == FirstOf(Seen(recs), metadataLen, infoType)
    ensures hdr.Some? ==>
              exists k | 0 <= k < |recs| ::
                && recs[k].infoType == infoType && hdr.value == metadataLen + Extent(recs[..k])
                && (forall j | 0 <= j < k :: recs[j].infoType != infoType) && (k == |recs| - 1 ==> recs[k].len != 4)
    ensures hdr.None? ==>
              forall k | 0 <= k < |recs| && recs[k].infoType == infoType :: k == |recs| - 1 && recs[k].len == 4
  {
    FoundIs(recs, metadataLen, infoType);
    hide Extent;
    var off := metadataLen;
    ghost var rest := recs;
    TiledEnd(at, off, eventLen, rest);
    while off + HEADER < eventLen
      invariant Tiled(at, off, eventLen, rest) && off <= eventLen
      invariant FirstOf(Seen(rest), off, infoType) == FirstOf(Seen(recs), metadataLen, infoType)
      decreases eventLen - off
    {
      TiledEnd(at, off, eventLen, rest);
      SeenStep(at, off, eventLen, rest, infoType);
      var h := at(off);
      if h.infoType == infoType {
        return Some(off);
      }
      off := off + h.len;
      rest := rest[1..];
      TiledEnd(at, off, eventLen, rest);
    }
    TiledEnd(at, off, eventLen, rest);
    if |rest| == 1 {
      assert rest[1..] == [];
    }
    hdr := None;
  }

  lemma FoundIs(recs: seq<Record>, off: nat, infoType: int)
    ensures var hdr := FirstOf(Seen(recs), off, infoType);
            && (hdr.Some? ==>
                  exists k | 0 <= k < |recs| ::
                    && recs[k].infoType == infoType && hdr.value == off + Extent(recs[..k])
                    && (forall j | 0 <= j < k :: recs[j].infoType != infoType)
                    && (k == |recs| - 1 ==> recs[k].len != 4))
            && (hdr.None? ==>
                  forall k | 0 <= k < |recs| && recs[k].infoType == infoType :: k == |recs| - 1 && recs[k].len == 4)
  {
    hide FirstOf, Extent;
    var seen := Seen(recs);
    FirstOfIs(seen, off, infoType);
    var hdr := FirstOf(seen, off, infoType);
    assert forall k | 0 <= k < |seen| :: seen[k] == recs[k] && seen[..k] == recs[..k];
    if hdr.Some? {
      var k :| 0 <= k < |seen| && seen[k].infoType == infoType && hdr.value == off + Extent(seen[..k])
               && forall j | 0 <= j < k :: seen[j].infoType != infoType;
      assert recs[k].infoType == infoType && hdr.value == off + Extent(recs[..k]);
    }
  }

  lemma SeenStep(at: nat -> Record, off: nat, end: nat, recs: seq<Record>, infoType: int)
    requires Tiled(at, off, end, recs) && off + HEADER < end
    ensures recs != [] && Seen(recs) != [] && Seen(recs)[0] == recs[0] && Seen(recs)[1..] == Seen(recs[1..])
  {
    if |recs| == 1 {
      assert recs[1..] == [];
    }
  }

  /** So a wanted record is missed exactly when the only one of its type is such a last one. */
  lemma {:induction false} MissedIff(recs: seq<Record>, off: nat, infoType: int)
    ensures FirstOf(recs, off, infoType) != FirstOf(Seen(recs), off, infoType) <==>
            && recs != [] && recs[|recs| - 1] == Record(infoType, HEADER)
            && forall k | 0 <= k < |recs| - 1 :: recs[k].infoType != infoType
    decreases |recs|
  {
    if |recs| <= 1 {
    } else {
      MissedIff(recs[1..], off + recs[0].len, infoType);
      var tail := recs[1..];
      assert recs[|recs| - 1] == tail[|tail| - 1];
      assert recs[..|recs| - 1][1..] == tail[..|tail| - 1];
      assert Seen(recs)[1..] == Seen(tail) && Seen(recs)[0] == recs[0];
      assert forall k | 0 <= k < |tail| :: tail[k] == recs[k + 1];
      if recs[0].infoType != infoType && (forall k | 0 <= k < |tail| - 1 :: tail[k].infoType != infoType) {
        forall k | 0 <= k < |recs| - 1 ensures recs[k].infoType != infoType {
          if k > 0 { assert recs[k] == tail[k - 1]; }
        }
      }
    }
  }

  /** For instance when it is the only record there is. */
  lemma HeaderOnlyMissed(infoType: int, off: nat)
    ensures var recs := [Record(infoType, HEADER)];
            FirstOf(recs, off, infoType) == Some(off) && FirstOf(Seen(recs), off, infoType) == None
  {}
}
