/**
 The event checkers of fanotify01.c and fanotify02.c: one loop matches the masks of merged
 events, bit by bit, against the sequence of single events the test generated.
 */
module Fanotify {
  const EVENT_MAX: nat := 1024
  const FAN_NOFD: int := -1
  const CHECKED: int := -2

  /** What reading from an event's descriptor gives, compared with the file. */
  datatype Content = Same | Short | Differs

  datatype Event = Event(mask: bv64, pid: int, fd: int, eventLen: nat, content: Content)

  datatype Verdict = Unnecessary | WrongMask | WrongPid | CannotRead | WrongData | Good

  /** File01 reads through the event's descriptor; Dir02 does not. */
  datatype Checker = File01(pid: int, reportFid: bool) | Dir02(pid: int)

  datatype Trace = Trace(verdicts: seq<Verdict>, closed: seq<int>, testNum: nat, finished: bool)

  /** The bits still expected: EVENT_MAX entries, zero from `total` on. */
  ghost predicate EventSet(es: seq<bv64>, total: nat) {
    && |es| == EVENT_MAX && total <= EVENT_MAX
    && (forall t | 0 <= t < total :: IsBit(es[t]))
    && (forall t | total <= t < EVENT_MAX :: es[t] == 0)
  }

  /** The kernel's event bits that the tests use. */
  datatype Bits = Bits(onOpen: bv64, onAccess: bv64, onModify: bv64, onCloseWrite: bv64, onCloseNowrite: bv64)

  /** fanotify01.c: the single events in the order the test provokes them. */
  function Generated01(b: Bits): seq<bv64> {
    [b.onOpen, b.onAccess, b.onCloseNowrite, b.onOpen, b.onModify, b.onCloseWrite,
     b.onOpen, b.onModify, b.onAccess, b.onCloseWrite, b.onModify, b.onCloseWrite]
  }

  /** fanotify02.c likewise. */
  function Generated02(b: Bits): seq<bv64> {
    [b.onOpen, b.onModify, b.onCloseWrite, b.onOpen, b.onAccess, b.onCloseNowrite, b.onOpen, b.onCloseNowrite]
  }

  predicate IsBit(b: bv64) {
    b != 0 && b & (b - 1) == 0
  }

  /** `m & b`, `m & ~b` and `b | u` of the source, named so that proofs above the bits need
      only the lemmas about them. */
  predicate Has(m: bv64, b: bv64) {
    m & b != 0
  }

  function Clear(m: bv64, b: bv64): bv64 {
    m & !b
  }

  function Or(b: bv64, u: bv64): bv64 {
    b | u
  }

  predicate Readable(c: Checker, e: Event) {
    c.Dir02? || e.fd == CHECKED || (e.fd == FAN_NOFD && c.reportFid) || (e.fd >= 0 && e.content == Same)
  }

  function Judge(c: Checker, e: Event, bit: bv64, extra: bool): Verdict {
    if extra then Unnecessary
    else if !Has(e.mask, bit) then WrongMask
    else if e.pid != c.pid then WrongPid
    else if Readable(c, e) then Good
    else if e.fd < 0 || e.content == Short then CannotRead
    else WrongData
  }

  function Cleared(c: Checker, e: Event, bit: bv64): Event {
    e.(mask := Clear(e.mask, bit), fd := if c.File01? then CHECKED else e.fd)
  }

  function Closes(c: Checker, e: Event, bit: bv64): seq<int> {
    if c.File01? then (if e.fd >= 0 then [e.fd] else [])
    else if Clear(e.mask, bit) == 0 && e.fd != FAN_NOFD then [e.fd] else []
  }

  function Rest(c: Checker, evs: seq<Event>, bit: bv64): seq<Event>
    requires evs != []
  {
    var e := Cleared(c, evs[0], bit);
    if e.mask == 0 then evs[1..] else [e] + evs[1..]
  }

  /** The whole loop from iteration `t`; unfinished when it reads behind the event set. */
  function Walk(c: Checker, evs: seq<Event>, es: seq<bv64>, total: nat, t: nat): Trace
    decreases |es| - t
  {
    if evs == [] then Trace([], [], t, true)
    else if t >= |es| then Trace([], [], t, false)
    else
      var r := Walk(c, Rest(c, evs, es[t]), es, total, t + 1);
      r.(verdicts := [Judge(c, evs[0], es[t], t >= total)] + r.verdicts,
         closed := Closes(c, evs[0], es[t]) + r.closed)
  }

  // ---------- the reference: consecutive segments ----------

  function Union(bits: seq<bv64>): bv64 {
    if bits == [] then 0 else Or(bits[0], Union(bits[1..]))
  }

  /** The bits are pairwise distinct and together make up the mask. */
  ghost predicate Covers(bits: seq<bv64>, mask: bv64) {
    && Union(bits) == mask
    && forall i, j | 0 <= i < j < |bits| :: bits[i] != bits[j]
  }

  /** The bits split into consecutive non-empty segments, one covering each mask. */
  ghost predicate Splits(bits: seq<bv64>, masks: seq<bv64>)
    decreases |masks|
  {
    if masks == [] then bits == []
    else exists n | 1 <= n <= |bits| :: Covers(bits[..n], masks[0]) && Splits(bits[n..], masks[1..])
  }

  function Masks(evs: seq<Event>): (ms: seq<bv64>)
    ensures |ms| == |evs|
  {
    seq(|evs|, i requires 0 <= i < |evs| => evs[i].mask)
  }

  ghost predicate NoMaskFailure(r: Trace, total: nat) {
    r.finished && r.testNum >= total && Unnecessary !in r.verdicts && WrongMask !in r.verdicts
  }

  ghost predicate AllGood(r: Trace, total: nat) {
    r.finished && r.testNum >= total && forall v | v in r.verdicts :: v == Good
  }

  // ---------- single bits ----------

  lemma BitsDisjoint(b: bv64, c: bv64)
    requires IsBit(b) && IsBit(c) && b != c
    ensures !Has(b, c)
  {}

  /** A bit inside a mask can be taken out and put back. */
  lemma BitInside(b: bv64, m: bv64)
    requires IsBit(b) && Has(m, b)
    ensures Or(b, Clear(m, b)) == m && !Has(Clear(m, b), b)
  {}

  lemma OrMisses(x: bv64, u: bv64, b: bv64)
    requires x & b == 0 && u & b == 0
    ensures (x | u) & b == 0
  {}

  lemma OrHits(x: bv64, u: bv64, b: bv64)
    requires (x | u) & b == 0
    ensures x & b == 0
  {}

  lemma OrHitsRight(x: bv64, u: bv64, b: bv64)
    requires (x | u) & b == 0
    ensures u & b == 0
  {}

  lemma OrHas(x: bv64, u: bv64, b: bv64)
    ensures Has(Or(x, u), b) <==> Has(x, b) || Has(u, b)
  {
    if !Has(x, b) && !Has(u, b) {
      OrMisses(x, u, b);
    } else if !Has(Or(x, u), b) {
      OrHits(x, u, b);
      OrHitsRight(x, u, b);
    }
  }

  lemma ClearOr(b: bv64, u: bv64)
    requires !Has(u, b)
    ensures Clear(Or(b, u), b) == u
  {}

  /** A bit outside a mask can be put in and taken out. */
  lemma BitOutside(b: bv64, u: bv64)
    requires IsBit(b) && !Has(u, b)
    ensures Clear(Or(b, u), b) == u && Has(Or(b, u), b)
  {
    hide Has, Or, Clear, IsBit;
    ClearOr(b, u);
    HasSelf(b);
    OrHas(b, u, b);
  }

  lemma HasSelf(b: bv64)
    requires IsBit(b)
    ensures Has(b, b) && !Has(0, b)
  {}

  ghost predicate AreBits(bits: seq<bv64>) {
    forall k | 0 <= k < |bits| :: IsBit(bits[k])
  }

  /** A bit is in the union of single bits exactly when it is one of them. */
  lemma {:induction false} UnionHas(bits: seq<bv64>, b: bv64)
    requires AreBits(bits) && IsBit(b)
    ensures Has(Union(bits), b) <==> b in bits
  {
    hide Has, Or, IsBit;
    HasSelf(b);
    if bits == [] {
    } else {
      UnionHas(bits[1..], b);
      OrHas(bits[0], Union(bits[1..]), b);
      if bits[0] != b {
        BitsDisjoint(bits[0], b);
      }
    }
  }

  /** A segment covers a mask exactly when its first bit is in the mask and the others cover
      what is left after clearing it. */
  lemma CoversStep(bits: seq<bv64>, m: bv64)
    requires bits != [] && AreBits(bits)
    ensures Covers(bits, m) <==> Has(m, bits[0]) && Covers(bits[1..], Clear(m, bits[0]))
  {
    hide Has, Or, Clear, IsBit;
    var b, rest := bits[0], bits[1..];
    UnionHas(rest, b);
    if Covers(bits, m) {
      BitOutside(b, Union(rest));
    }
    if Has(m, b) && Covers(rest, Clear(m, b)) {
      BitInside(b, m);
    }
  }

  lemma CoversZero(bits: seq<bv64>)
    requires AreBits(bits)
    ensures Covers(bits, 0) <==> bits == []
  {
    hide Has, Or, Clear, IsBit;
    if bits != [] {
      HasSelf(bits[0]);
      UnionHas(bits, bits[0]);
    }
  }

  ghost predicate SplitsAt(bits: seq<bv64>, m: bv64, masks: seq<bv64>, n: int) {
    1 <= n <= |bits| && Covers(bits[..n], m) && Splits(bits[n..], masks)
  }

  lemma SplitsCons(bits: seq<bv64>, m: bv64, masks: seq<bv64>)
    ensures Splits(bits, [m] + masks) <==> exists n :: SplitsAt(bits, m, masks, n)
  {
    hide Covers;
    var all := [m] + masks;
    assert all[0] == m && all[1..] == masks;
    if Splits(bits, all) {
      var n :| 1 <= n <= |bits| && Covers(bits[..n], all[0]) && Splits(bits[n..], all[1..]);
      assert SplitsAt(bits, m, masks, n);
    }
    if n :| SplitsAt(bits, m, masks, n) {
      assert Covers(bits[..n], all[0]) && Splits(bits[n..], all[1..]);
    }
  }

  /** Taking the next expected bit out of the first mask shortens the first segment by one. */
  lemma SplitsAtStep(bits: seq<bv64>, m: bv64, masks: seq<bv64>, n: int)
    requires bits != [] && AreBits(bits)
    ensures var m' := Clear(m, bits[0]);
            SplitsAt(bits, m, masks, n) <==>
            && Has(m, bits[0])
            && if m' == 0 then n == 1 && Splits(bits[1..], masks) else SplitsAt(bits[1..], m', masks, n - 1)
  {
    hide Has, Or, Clear, IsBit, Covers, Splits;
    if 1 <= n <= |bits| {
      var seg := bits[..n];
      CoversStep(seg, m);
      CoversZero(seg[1..]);
      CoversZero([]);
      assert seg[1..] == bits[1..][..n - 1] && bits[n..] == bits[1..][n - 1..];
      if n == 1 {
        assert seg[1..] == [];
        assert Union([]) == 0;
        CoversEmpty(Clear(m, bits[0]));
      }
    }
  }

  lemma CoversEmpty(m: bv64)
    ensures Covers([], m) <==> m == 0
  {}

  /** Clearing the next expected bit from the first mask keeps splittability both ways. */
  lemma SplitsStep(bits: seq<bv64>, m: bv64, masks: seq<bv64>)
    requires bits != [] && AreBits(bits)
    ensures var m' := Clear(m, bits[0]);
            Splits(bits, [m] + masks) <==>
            Has(m, bits[0]) && Splits(bits[1..], if m' == 0 then masks else [m'] + masks)
  {
    hide Has, Or, Clear, IsBit, SplitsAt, Splits;
    var m' := Clear(m, bits[0]);
    SplitsCons(bits, m, masks);
    SplitsCons(bits[1..], m', masks);
    if n :| SplitsAt(bits, m, masks, n) {
      SplitsAtStep(bits, m, masks, n);
    }
    if Has(m, bits[0]) && m' == 0 && Splits(bits[1..], masks) {
      SplitsAtStep(bits, m, masks, 1);
    }
    if n :| Has(m, bits[0]) && m' != 0 && SplitsAt(bits[1..], m', masks, n) {
      SplitsAtStep(bits, m, masks, n + 1);
    }
  }

  // ---------- the checker against the reference ----------

  lemma WalkStep(c: Checker, evs: seq<Event>, es: seq<bv64>, total: nat, t: nat)
    requires evs != [] && t < |es|
    ensures var r, r' := Walk(c, evs, es, total, t), Walk(c, Rest(c, evs, es[t]), es, total, t + 1);
            var v := Judge(c, evs[0], es[t], t >= total);
            && r.testNum == r'.testNum && r.finished == r'.finished && |r.verdicts| == 1 + |r'.verdicts|
            && r.closed == Closes(c, evs[0], es[t]) + r'.closed
            && (NoMaskFailure(r, total) <==> v != Unnecessary && v != WrongMask && NoMaskFailure(r', total))
            && (AllGood(r, total) <==> v == Good && AllGood(r', total))
  {
    hide Has, Or, Clear, IsBit, Judge, Closes, Rest;
    var r, r' := Walk(c, evs, es, total, t), Walk(c, Rest(c, evs, es[t]), es, total, t + 1);
    var v := Judge(c, evs[0], es[t], t >= total);
    assert r == r'.(verdicts := [v] + r'.verdicts, closed := Closes(c, evs[0], es[t]) + r'.closed);
    forall w ensures w in [v] + r'.verdicts <==> w == v || w in r'.verdicts {}
    assert v in r.verdicts && forall w | w in r'.verdicts :: w in r.verdicts;
  }

  lemma MasksRest(c: Checker, evs: seq<Event>, bit: bv64)
    requires evs != []
    ensures Masks(evs) == [evs[0].mask] + Masks(evs[1..])
    ensures var m' := Clear(evs[0].mask, bit);
            Masks(Rest(c, evs, bit)) == if m' == 0 then Masks(evs[1..]) else [m'] + Masks(evs[1..])
  {
    hide Clear;
  }

  /**
   The checker reports no mask failure exactly when the expected bits split into consecutive
   segments, one per event and each making up that event's mask; and then it has taken one
   iteration per expected bit.
   */
  lemma {:induction false} CheckerMatchesSplits(c: Checker, evs: seq<Event>, es: seq<bv64>, total: nat, t: nat)
    requires EventSet(es, total) && t <= total
    ensures var r := Walk(c, evs, es, total, t);
            && (NoMaskFailure(r, total) <==> Splits(es[t..total], Masks(evs)))
            && (NoMaskFailure(r, total) ==> r.testNum == total && |r.verdicts| == total - t)
    decreases total - t
  {
    hide Has, Or, Clear, IsBit, Covers, Closes, Rest, Walk, EventSet;
    EventSetSize(es, total);
    var bits := es[t..total];
    if evs == [] || t == |es| {
      WalkBase(c, evs, es, total, t);
    } else {
      WalkStep(c, evs, es, total, t);
      if t < total {
        EventBits(es, total, t);
        MasksRest(c, evs, es[t]);
        SplitsStep(bits, evs[0].mask, Masks(evs[1..]));
        CheckerMatchesSplits(c, Rest(c, evs, es[t]), es, total, t + 1);
      }
    }
  }

  lemma WalkBase(c: Checker, evs: seq<Event>, es: seq<bv64>, total: nat, t: nat)
    requires evs == [] || t >= |es|
    ensures Walk(c, evs, es, total, t) == Trace([], [], t, evs == [])
  {}

  /** The event names the test's process; under fanotify01 its descriptor has been dealt with (-2),
      is missing where that is allowed (-1), or reads as the file. */
  ghost predicate Sound(c: Checker, e: Event) {
    && e.pid == c.pid
    && (c.File01? ==> e.fd == -2 || (e.fd == -1 && c.reportFid) || (e.fd >= 0 && e.content == Same))
  }

  lemma JudgeGood(c: Checker, e: Event, bit: bv64, extra: bool)
    ensures Judge(c, e, bit, extra) == Good <==> !extra && Has(e.mask, bit) && Sound(c, e)
  {
    hide Has;
  }


  ghost predicate AllSound(c: Checker, evs: seq<Event>) {
    forall k | 0 <= k < |evs| :: Sound(c, evs[k])
  }

  /** Every verdict is a pass exactly when, besides, each event names the test's process and
      its descriptor reads as expected. */
  lemma {:induction false} CheckerPasses(c: Checker, evs: seq<Event>, es: seq<bv64>, total: nat, t: nat)
    requires EventSet(es, total) && t <= total
    ensures AllGood(Walk(c, evs, es, total, t), total) <==> Splits(es[t..total], Masks(evs)) && AllSound(c, evs)
    decreases total - t
  {
    hide Has, Or, Clear, IsBit, Covers, Closes, Judge, Rest, Sound, Walk, AllSound, EventSet;
    EventSetSize(es, total);
    var bits := es[t..total];
    if evs == [] || t == |es| {
      WalkBase(c, evs, es, total, t);
      SoundNone(c);
    } else {
      WalkStep(c, evs, es, total, t);
      JudgeGood(c, evs[0], es[t], t >= total);
      if t < total {
        EventBits(es, total, t);
        MasksRest(c, evs, es[t]);
        SplitsStep(bits, evs[0].mask, Masks(evs[1..]));
        CheckerPasses(c, Rest(c, evs, es[t]), es, total, t + 1);
        RestSound(c, evs, es[t]);
      }
    }
  }

  lemma EventSetSize(es: seq<bv64>, total: nat)
    requires EventSet(es, total)
    ensures total <= |es| == EVENT_MAX
  {}

  lemma EventBits(es: seq<bv64>, total: nat, t: nat)
    requires EventSet(es, total) && t < total
    ensures var bits := es[t..total]; AreBits(bits) && bits[0] == es[t] && bits[1..] == es[t + 1..total]
  {
    hide IsBit;
  }

  lemma SoundNone(c: Checker)
    ensures AllSound(c, [])
  {}

  lemma RestSound(c: Checker, evs: seq<Event>, bit: bv64)
    requires evs != []
    ensures AllSound(c, evs) <==> Sound(c, evs[0]) && AllSound(c, Rest(c, evs, bit))
  {
    hide Clear;
    var rest := Rest(c, evs, bit);
    if AllSound(c, evs) {
      assert Sound(c, evs[0]);
      assert forall k | 1 <= k < |evs| :: Sound(c, evs[k]);
    }
    if Sound(c, evs[0]) && AllSound(c, rest) {
      forall k | 0 <= k < |evs| ensures Sound(c, evs[k]) {
        if k > 0 { assert evs[k] == rest[|rest| - |evs| + k]; }
      }
    }
  }

  /** A descriptor that reads short, or reads something else, keeps the checker of fanotify01 from
      passing, wherever its event stands. */
  lemma WrongContentFails(c: Checker, evs: seq<Event>, es: seq<bv64>, total: nat, k: nat)
    requires EventSet(es, total) && c.File01? && k < |evs| && evs[k].fd >= 0 && evs[k].content != Same
    ensures !AllGood(Walk(c, evs, es, total, 0), total)
  {
    hide Walk, Splits, EventSet;
    CheckerPasses(c, evs, es, total, 0);
    assert !Sound(c, evs[k]);
  }

  /** What is said about the event the loop is at: an expected bit, the right process, and then
      what reading from the descriptor gives. */
  lemma VerdictSays(c: Checker, evs: seq<Event>, es: seq<bv64>, total: nat, t: nat)
    requires evs != [] && t < |es|
    ensures var vs, e := Walk(c, evs, es, total, t).verdicts, evs[0];
            && |vs| > 0
            && (vs[0] == Unnecessary <==> t >= total)
            && (vs[0] == WrongMask <==> t < total && !Has(e.mask, es[t]))
            && (vs[0] == WrongPid <==> t < total && Has(e.mask, es[t]) && e.pid != c.pid)
            && (vs[0] == CannotRead ==> c.File01? && (e.fd < 0 || e.content == Short))
            && (vs[0] == WrongData ==> c.File01? && e.fd >= 0 && e.content == Differs)
            && (vs[0] == Good ==> Sound(c, e))
  {
    hide Has, Rest, Clear, Judge, Closes, Sound;
    var v := Judge(c, evs[0], es[t], t >= total);
    assert Walk(c, evs, es, total, t).verdicts[0] == v;
    JudgeSays(c, evs[0], es[t], t >= total);
  }

  lemma JudgeSays(c: Checker, e: Event, bit: bv64, extra: bool)
    ensures var v := Judge(c, e, bit, extra);
            && (v == Unnecessary <==> extra)
            && (v == WrongMask <==> !extra && !Has(e.mask, bit))
            && (v == WrongPid <==> !extra && Has(e.mask, bit) && e.pid != c.pid)
            && (v == CannotRead ==> c.File01? && (e.fd < 0 || e.content == Short))
            && (v == WrongData ==> c.File01? && e.fd >= 0 && e.content == Differs)
            && (v == Good ==> Sound(c, e))
  {
    hide Has;
  }

  /** The descriptors an event list brings in, in order. */
  function Descriptors(c: Checker, evs: seq<Event>): seq<int> {
    if evs == [] then []
    else (if (c.File01? && evs[0].fd >= 0) || (c.Dir02? && evs[0].fd != FAN_NOFD) then [evs[0].fd] else [])
         + Descriptors(c, evs[1..])
  }

  /** Whatever the verdicts, a checker that gets through its buffer closes each descriptor
      once, in the order of the events. */
  lemma {:induction false} ClosesEachOnce(c: Checker, evs: seq<Event>, es: seq<bv64>, total: nat, t: nat)
    requires Walk(c, evs, es, total, t).finished
    ensures Walk(c, evs, es, total, t).closed == Descriptors(c, evs)
    decreases |es| - t
  {
    hide Has, Or, Clear, IsBit, Judge, Closes, Rest, Walk, Descriptors;
    if evs == [] || t >= |es| {
      WalkBase(c, evs, es, total, t);
      DescriptorsNone(c);
    } else {
      WalkStep(c, evs, es, total, t);
      ClosesEachOnce(c, Rest(c, evs, es[t]), es, total, t + 1);
      DescriptorsRest(c, evs, es[t]);
    }
  }

  lemma DescriptorsNone(c: Checker)
    ensures Descriptors(c, []) == []
  {}

  lemma DescriptorsRest(c: Checker, evs: seq<Event>, bit: bv64)
    requires evs != []
    ensures Descriptors(c, evs) == Closes(c, evs[0], bit) + Descriptors(c, Rest(c, evs, bit))
  {
    hide Clear, Descriptors;
    var d := Cleared(c, evs[0], bit);
    DescriptorsCons(c, evs[0], evs[1..]);
    DescriptorsCons(c, d, evs[1..]);
    assert [evs[0]] + evs[1..] == evs;
  }

  lemma DescriptorsCons(c: Checker, e: Event, evs: seq<Event>)
    ensures Descriptors(c, [e] + evs) ==
            (if (c.File01? && e.fd >= 0) || (c.Dir02? && e.fd != FAN_NOFD) then [e.fd] else []) + Descriptors(c, evs)
  {
    assert ([e] + evs)[1..] == evs;
  }

  /** Behind the expected bits the checker clears nothing more. */
  lemma {:induction false} BehindTheSet(c: Checker, evs: seq<Event>, es: seq<bv64>, total: nat, t: nat)
    requires EventSet(es, total) && total <= t <= EVENT_MAX
    ensures Walk(c, evs, es, total, t).finished <==>
            (forall e | e in evs :: e.mask == 0) && |evs| <= EVENT_MAX - t
    decreases EVENT_MAX - t
  {
    if evs == [] || t == EVENT_MAX {
    } else {
      assert evs[0].mask & !es[t] == evs[0].mask;
      BehindTheSet(c, Rest(c, evs, es[t]), es, total, t + 1);
      assert evs == [evs[0]] + evs[1..];
    }
  }

  /** The entries from some point on can be cut into consecutive non-empty segments, one per
      event, each with every bit of that event's mask among its entries; some may be left over. */
  ghost predicate Contained(bits: seq<bv64>, masks: seq<bv64>)
    decreases |masks|
  {
    masks == []
    || exists n | 1 <= n <= |bits| :: Clear(masks[0], Union(bits[..n])) == 0 && Contained(bits[n..], masks[1..])
  }

  ghost predicate ContainedAt(bits: seq<bv64>, m: bv64, masks: seq<bv64>, n: int) {
    1 <= n <= |bits| && Clear(m, Union(bits[..n])) == 0 && Contained(bits[n..], masks)
  }

  lemma ContainedCons(bits: seq<bv64>, m: bv64, masks: seq<bv64>)
    ensures Contained(bits, [m] + masks) <==> exists n :: ContainedAt(bits, m, masks, n)
  {
    hide Clear, Union;
    var all := [m] + masks;
    assert all[0] == m && all[1..] == masks;
    if Contained(bits, all) {
      var n :| 1 <= n <= |bits| && Clear(all[0], Union(bits[..n])) == 0 && Contained(bits[n..], all[1..]);
      assert ContainedAt(bits, m, masks, n);
    }
    if n :| ContainedAt(bits, m, masks, n) {
      assert Clear(all[0], Union(bits[..n])) == 0 && Contained(bits[n..], all[1..]);
    }
  }

  lemma ClearTwice(m: bv64, b: bv64, u: bv64)
    ensures Clear(m, Or(b, u)) == Clear(Clear(m, b), u)
  {}

  lemma ClearNothing(m: bv64)
    ensures Clear(m, 0) == m
  {}

  lemma ClearedStays(m: bv64, b: bv64, u: bv64)
    requires Clear(m, u) == 0
    ensures Clear(m, Or(b, u)) == 0
  {}

  lemma UnionFront(bits: seq<bv64>, n: nat)
    requires 1 <= n <= |bits|
    ensures Union(bits[..n]) == Or(bits[0], Union(bits[1..][..n - 1]))
  {
    hide Or;
    assert bits[..n][1..] == bits[1..][..n - 1];
  }

  /** One more entry in front does no harm. */
  lemma ContainedEarlier(bits: seq<bv64>, masks: seq<bv64>)
    requires bits != [] && Contained(bits[1..], masks)
    ensures Contained(bits, masks)
  {
    hide Clear, Or, Union;
    if masks != [] {
      var rest := bits[1..];
      var n :| 1 <= n <= |rest| && Clear(masks[0], Union(rest[..n])) == 0 && Contained(rest[n..], masks[1..]);
      UnionFront(bits, n + 1);
      ClearedStays(masks[0], bits[0], Union(rest[..n]));
      assert rest[n..] == bits[n + 1..];
    }
  }

  lemma {:induction false} ContainedMuchEarlier(bits: seq<bv64>, n: nat, masks: seq<bv64>)
    requires n <= |bits| && Contained(bits[n..], masks)
    ensures Contained(bits, masks)
  {
    hide Contained;
    if n == 0 {
      assert bits[0..] == bits;
    } else {
      assert bits[n - 1..][1..] == bits[n..];
      ContainedEarlier(bits[n - 1..], masks);
      ContainedMuchEarlier(bits, n - 1, masks);
    }
  }

  /** Clearing the next entry from the first mask keeps containment both ways. */
  lemma ContainedStep(bits: seq<bv64>, m: bv64, masks: seq<bv64>)
    requires bits != []
    ensures var m' := Clear(m, bits[0]);
            Contained(bits, [m] + masks) <==> Contained(bits[1..], if m' == 0 then masks else [m'] + masks)
  {
    hide Clear, Or, Union, Contained;
    var m', rest := Clear(m, bits[0]), bits[1..];
    ContainedCons(bits, m, masks);
    ContainedCons(rest, m', masks);
    assert Union([]) == 0 by { UnionNone(); }
    ClearNothing(m');
    forall n | 1 <= n <= |bits|
      ensures Clear(m, Union(bits[..n])) == Clear(m', Union(rest[..n - 1])) && bits[n..] == rest[n - 1..]
    {
      UnionFront(bits, n);
      ClearTwice(m, bits[0], Union(rest[..n - 1]));
    }
    assert rest[..0] == [];
    if m' == 0 {
      if n :| ContainedAt(bits, m, masks, n) {
        ContainedMuchEarlier(rest, n - 1, masks);
      }
      assert bits[1..] == rest;
      assert Contained(rest, masks) ==> ContainedAt(bits, m, masks, 1);
    } else {
      if n :| ContainedAt(bits, m, masks, n) {
        assert ContainedAt(rest, m', masks, n - 1);
      }
      if n :| ContainedAt(rest, m', masks, n) {
        assert Clear(m, Union(bits[..n + 1])) == 0;
        assert ContainedAt(bits, m, masks, n + 1);
      }
    }
  }

  lemma UnionNone()
    ensures Union([]) == 0
  {}

  /**
   For any entries at all: the loop ends inside the event set exactly when the entries still
   ahead can be cut into segments, one per event, that contain the events' masks; otherwise it
   runs up to the end of the set and on behind it.
   */
  lemma {:induction false} StaysInside(c: Checker, evs: seq<Event>, es: seq<bv64>, total: nat, t: nat)
    requires t <= |es|
    ensures var r := Walk(c, evs, es, total, t);
            (r.finished <==> Contained(es[t..], Masks(evs))) && (!r.finished ==> r.testNum == |es|)
    decreases |es| - t
  {
    hide Has, Or, Clear, Union, Judge, Closes, Rest, Walk, Contained;
    if evs == [] || t == |es| {
      WalkBase(c, evs, es, total, t);
      ContainedNone(es[t..], Masks(evs));
    } else {
      WalkStep(c, evs, es, total, t);
      MasksRest(c, evs, es[t]);
      assert es[t..][1..] == es[t + 1..];
      ContainedStep(es[t..], evs[0].mask, Masks(evs[1..]));
      StaysInside(c, Rest(c, evs, es[t]), es, total, t + 1);
    }
  }

  lemma ContainedNone(bits: seq<bv64>, masks: seq<bv64>)
    requires bits == [] || masks == []
    ensures Contained(bits, masks) <==> masks == []
  {}

  lemma {:induction false} UnionSome(bits: seq<bv64>, b: bv64)
    requires Has(Union(bits), b)
    ensures exists k | 0 <= k < |bits| :: Has(bits[k], b)
  {
    hide Has, Or;
    if bits == [] {
      HasNot(b);
    } else {
      OrHas(bits[0], Union(bits[1..]), b);
      if !Has(bits[0], b) {
        UnionSome(bits[1..], b);
        var k :| 0 <= k < |bits[1..]| && Has(bits[1..][k], b);
        assert Has(bits[k + 1], b);
      }
    }
  }

  lemma HasNot(b: bv64)
    ensures !Has(0, b)
  {}

  lemma ClearedAway(m: bv64, u: bv64, b: bv64)
    requires Has(m, b) && IsBit(b) && Clear(m, u) == 0
    ensures Has(u, b)
  {}

  /** What is contained is made of bits that occur. */
  lemma {:induction false} ContainedOccurs(bits: seq<bv64>, masks: seq<bv64>, k: nat, b: bv64)
    requires Contained(bits, masks) && k < |masks| && IsBit(b) && Has(masks[k], b)
    ensures exists j | 0 <= j < |bits| :: Has(bits[j], b)
    decreases |masks|
  {
    hide Has, Or, Clear, Union, IsBit;
    var n :| 1 <= n <= |bits| && Clear(masks[0], Union(bits[..n])) == 0 && Contained(bits[n..], masks[1..]);
    if k == 0 {
      ClearedAway(masks[0], Union(bits[..n]), b);
      UnionSome(bits[..n], b);
      var j :| 0 <= j < n && Has(bits[..n][j], b);
      assert Has(bits[j], b);
    } else {
      ContainedOccurs(bits[n..], masks[1..], k - 1, b);
      var j :| 0 <= j < |bits| - n && Has(bits[n..][j], b);
      assert Has(bits[n + j], b);
    }
  }

  /** An event with a bit that is not expected at all sends the loop behind the event set. */
  lemma UnexpectedBit(c: Checker, evs: seq<Event>, es: seq<bv64>, total: nat, t: nat, k: nat, b: bv64)
    requires t <= |es| && k < |evs|
    requires IsBit(b) && Has(evs[k].mask, b) && forall j | 0 <= j < |es| :: !Has(es[j], b)
    ensures !Walk(c, evs, es, total, t).finished && Walk(c, evs, es, total, t).testNum == |es|
  {
    hide Has, Or, Clear, IsBit, Walk, Contained;
    StaysInside(c, evs, es, total, t);
    assert forall j | 0 <= j < |es[t..]| :: es[t..][j] == es[t + j];
    if Contained(es[t..], Masks(evs)) {
      ContainedOccurs(es[t..], Masks(evs), k, b);
    }
  }

  /** For instance one event that also carries FAN_ATTRIB (4), which fanotify01 never expects. */
  lemma AttribReadsBehind(c: Checker, pid: int, fd: int)
    ensures var bits := Bits(0x20, 0x1, 0x2, 0x8, 0x10);
            var r := Walk(c, [Event(0x24, pid, fd, 24, Same)], EventSetOf(Generated01(bits)), 12, 0);
            SingleBits(bits) && !r.finished && r.testNum == 1024
  {
    var bits, e := Bits(0x20, 0x1, 0x2, 0x8, 0x10), Event(0x24, pid, fd, 24, Same);
    var es := EventSetOf(Generated01(bits));
    forall j | 0 <= j < |es| ensures !Has(es[j], 0x4) {
      assert es[j] == if j < 12 then Generated01(bits)[j] else 0;
    }
    hide Walk;
    UnexpectedBit(c, [e], es, 12, 0, 0, 0x4);
  }

  // ---------- how far the kernel may merge ----------

  /** Pairs of positions, one behind the other from `lo` on, that hold the same bit. */
  ghost predicate RepeatsFrom(bits: seq<bv64>, pairs: seq<(nat, nat)>, lo: nat)
    decreases |pairs|
  {
    pairs == []
    || (lo <= pairs[0].0 < pairs[0].1 < |bits| && bits[pairs[0].0] == bits[pairs[0].1]
        && RepeatsFrom(bits, pairs[1..], pairs[0].1))
  }

  lemma RepeatsEarlier(bits: seq<bv64>, pairs: seq<(nat, nat)>, lo: nat, lo': nat)
    requires RepeatsFrom(bits, pairs, lo) && lo' <= lo
    ensures RepeatsFrom(bits, pairs, lo')
  {}

  /** A bit that comes again needs another event, so a sequence with k successive repeats
      splits into more than k segments, and into no more than it has bits. */
  lemma {:induction false} RepeatsNeedEvents(bits: seq<bv64>, masks: seq<bv64>, pairs: seq<(nat, nat)>, lo: nat)
    requires lo < |bits| && Splits(bits[lo..], masks) && RepeatsFrom(bits, pairs, lo)
    ensures |pairs| < |masks| <= |bits| - lo
    decreases |masks|
  {
    hide Covers, Union;
    var rest := bits[lo..];
    var n :| 1 <= n <= |rest| && Covers(rest[..n], masks[0]) && Splits(rest[n..], masks[1..]);
    assert rest[n..] == bits[lo + n..];
    if pairs != [] {
      SegmentDistinct(bits, lo, n, masks[0], pairs[0].0, pairs[0].1);
      RepeatsEarlier(bits, pairs[1..], pairs[0].1, lo + n);
    }
    if lo + n < |bits| {
      RepeatsNeedEvents(bits, masks[1..], if pairs == [] then [] else pairs[1..], lo + n);
    }
  }

  lemma SegmentDistinct(bits: seq<bv64>, lo: nat, n: nat, mask: bv64, i: nat, j: nat)
    requires lo + n <= |bits| && Covers(bits[lo..][..n], mask)
    requires lo <= i < j < |bits| && bits[i] == bits[j]
    ensures j >= lo + n
  {
    hide Union;
    var seg := bits[lo..][..n];
    assert forall k | lo <= k < lo + n :: bits[k] == seg[k - lo];
  }

  ghost predicate SingleBits(b: Bits) {
    IsBit(b.onOpen) && IsBit(b.onAccess) && IsBit(b.onModify) && IsBit(b.onCloseWrite) && IsBit(b.onCloseNowrite)
  }

  function EventSetOf(bits: seq<bv64>): (es: seq<bv64>)
    requires |bits| <= EVENT_MAX
    ensures |es| == EVENT_MAX
  {
    bits + seq(EVENT_MAX - |bits|, _ => 0)
  }

  /** When fanotify01 reports no mask failure, at least four and at most twelve events came:
      the file was opened three times and modified twice after that. */
  lemma Fanotify01Events(b: Bits, c: Checker, evs: seq<Event>)
    requires SingleBits(b)
    requires NoMaskFailure(Walk(c, evs, EventSetOf(Generated01(b)), 12, 0), 12)
    ensures 4 <= |evs| <= 12
  {
    hide IsBit, Walk, Splits, Covers;
    var bits := Generated01(b);
    CheckerMatchesSplits(c, evs, EventSetOf(bits), 12, 0);
    assert EventSetOf(bits)[0..12] == bits == bits[0..];
    assert RepeatsFrom(bits, [(7, 10)], 6);
    assert [(3, 6), (7, 10)][1..] == [(7, 10)] && [(0, 3), (3, 6), (7, 10)][1..] == [(3, 6), (7, 10)];
    assert RepeatsFrom(bits, [(3, 6), (7, 10)], 3);
    RepeatsNeedEvents(bits, Masks(evs), [(0, 3), (3, 6), (7, 10)], 0);
  }

  /** When fanotify02 reports no mask failure, at least three and at most eight events came. */
  lemma Fanotify02Events(b: Bits, c: Checker, evs: seq<Event>)
    requires SingleBits(b)
    requires NoMaskFailure(Walk(c, evs, EventSetOf(Generated02(b)), 8, 0), 8)
    ensures 3 <= |evs| <= 8
  {
    hide IsBit, Walk, Splits, Covers;
    var bits := Generated02(b);
    CheckerMatchesSplits(c, evs, EventSetOf(bits), 8, 0);
    assert EventSetOf(bits)[0..8] == bits == bits[0..];
    assert [(0, 3), (3, 6)][1..] == [(3, 6)];
    assert RepeatsFrom(bits, [(3, 6)], 3);
    RepeatsNeedEvents(bits, Masks(evs), [(0, 3), (3, 6)], 0);
  }

  // ---------- the loops ----------

  /** Byte length of events laid end to end. */
  function Extent(evs: seq<Event>): nat {
    if evs == [] then 0 else evs[0].eventLen + Extent(evs[1..])
  }

  /** The trace of a loop that has made some iterations and has `r` ahead of it. */
  function Resume(verdicts: seq<Verdict>, closed: seq<int>, r: Trace): Trace {
    r.(verdicts := verdicts + r.verdicts, closed := closed + r.closed)
  }

  lemma ResumeStep(verdicts: seq<Verdict>, closed: seq<int>,
                   c: Checker, evs: seq<Event>, es: seq<bv64>, total: nat, t: nat)
    requires evs != [] && t < |es|
    ensures Resume(verdicts, closed, Walk(c, evs, es, total, t))
         == Resume(verdicts + [Judge(c, evs[0], es[t], t >= total)], closed + Closes(c, evs[0], es[t]),
                   Walk(c, Rest(c, evs, es[t]), es, total, t + 1))
  {
    hide Judge, Closes, Rest;
    var r := Walk(c, Rest(c, evs, es[t]), es, total, t + 1);
    var v, cl := Judge(c, evs[0], es[t], t >= total), Closes(c, evs[0], es[t]);
    assert verdicts + ([v] + r.verdicts) == verdicts + [v] + r.verdicts;
    assert closed + (cl + r.closed) == closed + cl + r.closed;
  }

  /**
   The check loop over the event buffer, on `len` bytes of events; fanotify01.c and
   fanotify02.c differ in what they do with the descriptor.  Ends with `finished` false where
   the source would read behind event_set.
   */
  method CheckEvents(c: Checker, buf: array<Event>, len: nat, eventSet: seq<bv64>, total: nat)
    returns (verdicts: seq<Verdict>, closed: seq<int>, testNum: nat, finished: bool)
    requires forall k | 0 <= k < buf.Length :: buf[k].eventLen > 0
    requires len == Extent(buf[..])
    modifies buf
    ensures Trace(verdicts, closed, testNum, finished) == old(Walk(c, buf[..], eventSet, total, 0))
    ensures finished ==> forall k | 0 <= k < buf.Length :: buf[k].mask == 0
  {
    hide Has, Or, Clear, IsBit, Judge, Closes, Walk, Resume;
    ghost var was := buf[..];
    var i, k := 0, 0;
    verdicts, closed, testNum := [], [], 0;
    assert buf[0..] == was;
    ghost var all := Walk(c, was, eventSet, total, 0);
    ResumeNothing(all);
    while i < len
      invariant 0 <= k <= buf.Length
      invariant i + Extent(buf[k..]) == len
      invariant forall j | 0 <= j < buf.Length :: buf[j].eventLen > 0
      invariant forall j | 0 <= j < k :: buf[j].mask == 0
      invariant all == Resume(verdicts, closed, Walk(c, buf[k..], eventSet, total, testNum))
      decreases |eventSet| - testNum
    {
      if testNum >= |eventSet| {
        WalkEnds(c, buf[k..], eventSet, total, testNum, verdicts, closed);
        return verdicts, closed, testNum, false;
      }
      var bit := eventSet[testNum];
      var event := buf[k];
      ghost var evs := buf[k..];
      assert evs[0] == event && evs[1..] == buf[k + 1..];
      ResumeStep(verdicts, closed, c, evs, eventSet, total, testNum);
      verdicts := verdicts + [Judge(c, event, bit, testNum >= total)];
      closed := closed + Closes(c, event, bit);
      buf[k] := Cleared(c, event, bit);
      assert buf[k + 1..] == evs[1..];
      assert buf[k..] == [buf[k]] + evs[1..];
      if buf[k].mask == 0 {
        i := i + event.eventLen;
        k := k + 1;
      }
      assert buf[k..] == Rest(c, evs, bit);
      testNum := testNum + 1;
    }
    assert k == buf.Length;
    WalkEnds(c, [], eventSet, total, testNum, verdicts, closed);
    assert buf[k..] == [];
    finished := true;
  }

  lemma ResumeNothing(r: Trace)
    ensures Resume([], [], r) == r
  {}

  lemma WalkEnds(c: Checker, evs: seq<Event>, es: seq<bv64>, total: nat, t: nat,
                 verdicts: seq<Verdict>, closed: seq<int>)
    requires evs == [] || t >= |es|
    ensures Resume(verdicts, closed, Walk(c, evs, es, total, t)) == Trace(verdicts, closed, t, evs == [])
  {}

  /** The loop behind it, which reports each expected bit that never came. */
  method ReportMissing(testNum: nat, total: nat) returns (missing: nat)
    ensures missing == if testNum < total then total - testNum else 0
  {
    missing := 0;
    var n := testNum;
    while n < total
      invariant missing == n - testNum && (n <= total || n == testNum)
    {
      missing := missing + 1;
      n := n + 1;
    }
  }

  /** The check as a whole passes exactly on the buffers the reference describes. */
  method VerifyEvents(c: Checker, buf: array<Event>, len: nat, eventSet: seq<bv64>, total: nat)
    returns (passed: bool, closed: seq<int>)
    requires forall k | 0 <= k < buf.Length :: buf[k].eventLen > 0
    requires len == Extent(buf[..]) && EventSet(eventSet, total)
    modifies buf
    ensures passed <==> old(Splits(eventSet[..total], Masks(buf[..])) && AllSound(c, buf[..]))
    ensures passed && c.File01? ==>
              old(forall k | 0 <= k < buf.Length ::
                    buf[k].fd == -2 || (buf[k].fd == -1 && c.reportFid) || (buf[k].fd >= 0 && buf[k].content == Same))
    ensures passed ==> old(forall k | 0 <= k < buf.Length :: buf[k].pid == c.pid)
    ensures passed ==> closed == old(Descriptors(c, buf[..]))
  {
    hide Walk, Splits;
    CheckerPasses(c, buf[..], eventSet, total, 0);
    assert eventSet[0..total] == eventSet[..total];
    ghost var evs := buf[..];
    var verdicts, testNum, finished;
    verdicts, closed, testNum, finished := CheckEvents(c, buf, len, eventSet, total);
    var missing := ReportMissing(testNum, total);
    passed := finished && missing == 0 && forall v | v in verdicts :: v == Good;
    if finished {
      ClosesEachOnce(c, evs, eventSet, total, 0);
    }
  }
}
