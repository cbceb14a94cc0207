/**
 fallocate04.c: punching, zeroing, collapsing and inserting ranges of a file, on a model of a
 file with bytes and per-block allocation.
 */
module Fallocate {
  import opened Basics

  const NUM_OF_BLOCKS: nat := 3
  const LETTER_A: nat := 97

  datatype Errno = EINVAL

  datatype Result<+T> = Ok(value: T) | Err(errno: Errno)

  /** Contents, and which blocks occupy storage. */
  datatype File = File(bytes: seq<byte>, alloc: seq<bool>)

  // ---------- block arithmetic ----------

  function Block(k: nat, b: nat): nat
    requires b >= 1
  {
    k / b
  }

  predicate Aligned(k: nat, b: nat)
    requires b >= 1
  {
    k % b == 0
  }

  /** The number of blocks a file of this size extends over. */
  function Blocks(size: nat, b: nat): nat
    requires b >= 1
  {
    Block(size + b - 1, b)
  }

  lemma BlockBounds(k: nat, b: nat)
    requires b >= 1
    ensures Block(k, b) * b <= k < (Block(k, b) + 1) * b
  {}

  lemma BlockUnique(k: nat, b: nat, q: nat)
    requires b >= 1 && q * b <= k < (q + 1) * b
    ensures Block(k, b) == q
  {
    BlockBounds(k, b);
    var p := Block(k, b);
    if p < q {
      Monotone(p + 1, q, b);
    } else if p > q {
      Monotone(q + 1, p, b);
    }
  }

  lemma Monotone(p: nat, q: nat, b: nat)
    requires p <= q
    ensures p * b <= q * b
  {
    assert (q - p) * b >= 0;
  }

  /** Moving by whole blocks moves the block number by as many. */
  lemma BlockShift(k: nat, d: nat, b: nat)
    requires b >= 1 && Aligned(d, b)
    ensures Block(k + d, b) == Block(k, b) + Block(d, b)
    ensures d == Block(d, b) * b
  {
    var p, q := Block(k, b), Block(d, b);
    assert d == q * b + d % b;
    BlockBounds(k, b);
    assert (p + q) * b == p * b + q * b;
    assert (p + q + 1) * b == (p + 1) * b + q * b;
    BlockUnique(k + d, b, p + q);
  }

  lemma BlockOfMultiple(q: nat, b: nat)
    requires b >= 1
    ensures Block(q * b, b) == q && Aligned(q * b, b)
  {
    assert (q + 1) * b == q * b + b;
    BlockUnique(q * b, b, q);
    assert q * b == Block(q * b, b) * b + (q * b) % b;
  }

  // ---------- what the kernel does to a file ----------

  predicate Touches(q: nat, off: nat, end: nat, b: nat) {
    q * b < end && off < (q + 1) * b
  }

  predicate Covers(q: nat, off: nat, end: nat, b: nat) {
    off <= q * b && (q + 1) * b <= end
  }

  function ZeroIn(bytes: seq<byte>, off: nat, end: nat): (r: seq<byte>)
    ensures |r| == |bytes|
  {
    seq(|bytes|, k requires 0 <= k < |bytes| => if off <= k < end then 0 else bytes[k])
  }

  function Padded(bytes: seq<byte>, size: nat): (r: seq<byte>)
    ensures |r| == Max(|bytes|, size)
  {
    if size <= |bytes| then bytes else bytes + seq(size - |bytes|, _ => 0)
  }

  /** The allocation after storage has been found for every block in a range. */
  function AllocIn(alloc: seq<bool>, count: nat, off: nat, end: nat, b: nat): seq<bool> {
    seq(count, q requires q >= 0 => (q < |alloc| && alloc[q]) || Touches(q, off, end, b))
  }

  /** fallocate with mode 0. */
  function Allocate(f: File, off: nat, len: nat, b: nat): Result<File>
    requires b >= 1
  {
    if len == 0 then Err(EINVAL)
    else
      var bytes := Padded(f.bytes, off + len);
      Ok(File(bytes, AllocIn(f.alloc, Blocks(|bytes|, b), off, off + len, b)))
  }

  function Write(f: File, off: nat, data: seq<byte>, b: nat): File
    requires b >= 1
  {
    var bytes := Padded(f.bytes, off + |data|);
    File(bytes[..off] + data + bytes[off + |data|..], AllocIn(f.alloc, Blocks(|bytes|, b), off, off + |data|, b))
  }

  /** FALLOC_FL_PUNCH_HOLE | FALLOC_FL_KEEP_SIZE. */
  function PunchHole(f: File, off: nat, len: nat, b: nat): Result<File> {
    if len == 0 then Err(EINVAL)
    else Ok(File(ZeroIn(f.bytes, off, off + len),
                 seq(|f.alloc|, q requires 0 <= q < |f.alloc| => f.alloc[q] && !Covers(q, off, off + len, b))))
  }

  /** FALLOC_FL_ZERO_RANGE. */
  function ZeroRange(f: File, off: nat, len: nat, b: nat): Result<File>
    requires b >= 1
  {
    if len == 0 then Err(EINVAL)
    else
      var bytes := ZeroIn(Padded(f.bytes, off + len), off, off + len);
      Ok(File(bytes, AllocIn(f.alloc, Blocks(|bytes|, b), off, off + len, b)))
  }

  /** FALLOC_FL_COLLAPSE_RANGE: whole blocks, and not up to the end of the file. */
  function CollapseRange(f: File, off: nat, len: nat, b: nat): Result<File>
    requires b >= 1
  {
    if len == 0 || !Aligned(off, b) || !Aligned(len, b) || off + len >= |f.bytes|
       || Block(off + len, b) > |f.alloc| || Block(off, b) > |f.alloc| then Err(EINVAL)
    else Ok(File(f.bytes[..off] + f.bytes[off + len..],
                 f.alloc[..Block(off, b)] + f.alloc[Block(off + len, b)..]))
  }

  /** FALLOC_FL_INSERT_RANGE: whole blocks, inside the file. */
  function InsertRange(f: File, off: nat, len: nat, b: nat): Result<File>
    requires b >= 1
  {
    if len == 0 || !Aligned(off, b) || !Aligned(len, b) || off >= |f.bytes|
       || Block(off, b) > |f.alloc| then Err(EINVAL)
    else Ok(File(f.bytes[..off] + seq(len, _ => 0) + f.bytes[off..],
                 f.alloc[..Block(off, b)] + seq(Block(len, b), _ => false) + f.alloc[Block(off, b)..]))
  }

  function FirstHole(alloc: seq<bool>): (q: nat)
    ensures q <= |alloc| && (forall k | 0 <= k < q :: alloc[k]) && (q < |alloc| ==> !alloc[q])
  {
    if alloc == [] || !alloc[0] then 0 else 1 + FirstHole(alloc[1..])
  }

  function Count(alloc: seq<bool>): nat {
    if alloc == [] then 0 else (if alloc[0] then 1 else 0) + Count(alloc[1..])
  }

  // ---------- holes read as zeros, whatever is done ----------

  predicate Stored(f: File, k: nat, b: nat)
    requires b >= 1
  {
    Block(k, b) < |f.alloc| && f.alloc[Block(k, b)]
  }

  /** The allocation covers the file block by block, and bytes outside it are zero. */
  ghost predicate Valid(f: File, b: nat)
    requires b >= 1
  {
    && |f.alloc| == Blocks(|f.bytes|, b)
    && forall k: nat | k < |f.bytes| && f.bytes[k] != 0 :: Stored(f, k, b)
  }

  /** A byte of the file lies in one of its blocks. */
  lemma InsideBlocks(k: nat, size: nat, b: nat)
    requires b >= 1 && k < size
    ensures Block(k, b) < Blocks(size, b)
  {
    var p, q := Block(k, b), Blocks(size, b);
    BlockBounds(k, b);
    BlockBounds(size + b - 1, b);
    if p >= q {
      Monotone(q + 1, p + 1, b);
    }
  }

  lemma TouchedBlock(k: nat, off: nat, end: nat, b: nat)
    requires b >= 1 && off <= k < end
    ensures Touches(Block(k, b), off, end, b)
  {
    BlockBounds(k, b);
  }

  lemma CoveredBlock(k: nat, off: nat, end: nat, b: nat)
    requires b >= 1 && Covers(Block(k, b), off, end, b)
    ensures off <= k < end
  {
    BlockBounds(k, b);
  }

  /** Storage found for a range holds every byte of it, and keeps what was held before. */
  lemma AllocInStores(f: File, g: File, off: nat, end: nat, b: nat, k: nat)
    requires b >= 1 && g.alloc == AllocIn(f.alloc, Blocks(|g.bytes|, b), off, end, b) && k < |g.bytes|
    requires off <= k < end || Stored(f, k, b)
    ensures Stored(g, k, b)
  {
    hide Block, Touches;
    InsideBlocks(k, |g.bytes|, b);
    if off <= k < end {
      TouchedBlock(k, off, end, b);
    }
  }

  lemma AllocateValid(f: File, off: nat, len: nat, b: nat)
    requires b >= 1 && Valid(f, b) && len > 0
    ensures Valid(Allocate(f, off, len, b).value, b)
  {
    hide Block, Touches, AllocIn;
    var g := Allocate(f, off, len, b).value;
    AllocInSize(f.alloc, Blocks(|g.bytes|, b), off, off + len, b);
    forall k: nat | k < |g.bytes| && g.bytes[k] != 0 ensures Stored(g, k, b) {
      AllocInStores(f, g, off, off + len, b, k);
    }
  }

  lemma AllocInSize(alloc: seq<bool>, count: nat, off: nat, end: nat, b: nat)
    ensures |AllocIn(alloc, count, off, end, b)| == count
  {}

  lemma WriteValid(f: File, off: nat, data: seq<byte>, b: nat)
    requires b >= 1 && Valid(f, b)
    ensures Valid(Write(f, off, data, b), b)
  {
    hide Block, Touches, AllocIn;
    var g := Write(f, off, data, b);
    AllocInSize(f.alloc, Blocks(|g.bytes|, b), off, off + |data|, b);
    forall k: nat | k < |g.bytes| && g.bytes[k] != 0 ensures Stored(g, k, b) {
      if off <= k < off + |data| || Stored(f, k, b) {
        AllocInStores(f, g, off, off + |data|, b, k);
      }
    }
  }

  lemma ZeroRangeValid(f: File, off: nat, len: nat, b: nat)
    requires b >= 1 && Valid(f, b) && len > 0
    ensures Valid(ZeroRange(f, off, len, b).value, b)
  {
    hide Block, Touches, AllocIn;
    var g := ZeroRange(f, off, len, b).value;
    AllocInSize(f.alloc, Blocks(|g.bytes|, b), off, off + len, b);
    forall k: nat | k < |g.bytes| && g.bytes[k] != 0 ensures Stored(g, k, b) {
      AllocInStores(f, g, off, off + len, b, k);
    }
  }

  lemma PunchHoleValid(f: File, off: nat, len: nat, b: nat)
    requires b >= 1 && Valid(f, b) && len > 0
    ensures Valid(PunchHole(f, off, len, b).value, b)
  {
    hide Block, Covers;
    var g := PunchHole(f, off, len, b).value;
    forall k: nat | k < |g.bytes| && g.bytes[k] != 0 ensures Stored(g, k, b) {
      assert Stored(f, k, b);
      if Covers(Block(k, b), off, off + len, b) {
        CoveredBlock(k, off, off + len, b);
      }
    }
  }

  lemma BlockSub(k: nat, d: nat, b: nat)
    requires b >= 1 && Aligned(d, b) && d <= k
    ensures Block(k, b) == Block(k - d, b) + Block(d, b)
  {
    BlockShift(k - d, d, b);
  }

  /** Before an aligned offset the block numbers are smaller, from it on they are not. */
  lemma BlockSide(k: nat, off: nat, b: nat)
    requires b >= 1 && Aligned(off, b)
    ensures k < off <==> Block(k, b) < Block(off, b)
  {
    BlockShift(0, off, b);
    BlockBounds(k, b);
    if k < off {
      if Block(k, b) >= Block(off, b) {
        Monotone(Block(off, b), Block(k, b), b);
      }
    } else if Block(k, b) < Block(off, b) {
      Monotone(Block(k, b) + 1, Block(off, b), b);
    }
  }

  lemma CollapseRangeValid(f: File, off: nat, len: nat, b: nat)
    requires b >= 1 && Valid(f, b) && CollapseRange(f, off, len, b).Ok?
    ensures Valid(CollapseRange(f, off, len, b).value, b)
  {
    hide Block, Aligned;
    var g := CollapseRange(f, off, len, b).value;
    BlockShift(off, len, b);
    BlockSub(|f.bytes| + b - 1, len, b);
    forall k: nat | k < |g.bytes| && g.bytes[k] != 0 ensures Stored(g, k, b) {
      BlockSide(k, off, b);
      if k < off {
        assert Stored(f, k, b);
      } else {
        assert Stored(f, k + len, b);
        BlockShift(k, len, b);
      }
    }
  }

  lemma InsertRangeValid(f: File, off: nat, len: nat, b: nat)
    requires b >= 1 && Valid(f, b) && InsertRange(f, off, len, b).Ok?
    ensures Valid(InsertRange(f, off, len, b).value, b)
  {
    hide Block, Aligned;
    var g := InsertRange(f, off, len, b).value;
    BlockShift(off, len, b);
    BlockShift(|f.bytes| + b - 1, len, b);
    forall k: nat | k < |g.bytes| && g.bytes[k] != 0 ensures Stored(g, k, b) {
      BlockSide(k, off, b);
      if k < off {
        assert Stored(f, k, b);
      } else {
        assert Stored(f, k - len, b);
        BlockSub(k, len, b);
        BlockSide(k - len, off, b);
      }
    }
  }

  /** Collapsing the range just inserted gives back the file, bytes and allocation alike. */
  lemma InsertThenCollapse(f: File, off: nat, len: nat, b: nat)
    requires b >= 1 && InsertRange(f, off, len, b).Ok?
    ensures CollapseRange(InsertRange(f, off, len, b).value, off, len, b) == Ok(f)
  {
    hide Block;
    var g := InsertRange(f, off, len, b).value;
    BlockShift(off, len, b);
    assert g.bytes[..off] == f.bytes[..off] && g.bytes[off + len..] == f.bytes[off..];
    assert f.bytes[..off] + f.bytes[off..] == f.bytes;
    var p, q := Block(off, b), Block(off + len, b);
    assert g.alloc[..p] == f.alloc[..p] && g.alloc[q..] == f.alloc[p..];
    assert f.alloc[..p] + f.alloc[p..] == f.alloc;
  }

  /**
   The other way round the contents of the range are lost: inserting where a range has just been
   collapsed gives back the file exactly when no block of the range was allocated.  That this
   says enough about the bytes is what `Valid` is for.
   */
  lemma CollapseThenInsert(f: File, off: nat, len: nat, b: nat)
    requires b >= 1 && Valid(f, b) && CollapseRange(f, off, len, b).Ok?
    ensures var r := InsertRange(CollapseRange(f, off, len, b).value, off, len, b);
            r.Ok? && (r.value == f <==> forall q | Block(off, b) <= q < Block(off + len, b) :: !f.alloc[q])
  {
    hide Block, Aligned;
    BlockShift(off, len, b);
    var p, q := Block(off, b), Block(off + len, b);
    var g := CollapseRange(f, off, len, b).value;
    var h := InsertRange(g, off, len, b).value;
    assert h.bytes == f.bytes[..off] + seq(len, _ => 0) + f.bytes[off + len..];
    assert h.alloc == f.alloc[..p] + seq(q - p, _ => false) + f.alloc[q..];
    if forall k | p <= k < q :: !f.alloc[k] {
      AlignedSum(off, len, b);
      forall k: nat | off <= k < off + len ensures f.bytes[k] == 0 {
        BlockSide(k, off, b);
        BlockSide(k, off + len, b);
        assert !Stored(f, k, b);
      }
      assert h.bytes == f.bytes;
      assert h.alloc == f.alloc;
    }
    if h == f {
      forall k | p <= k < q ensures !f.alloc[k] {
        assert !h.alloc[k];
      }
    }
  }

  lemma AlignedSum(off: nat, len: nat, b: nat)
    requires b >= 1 && Aligned(off, b) && Aligned(len, b)
    ensures Aligned(off + len, b)
  {
    hide Aligned;
    BlockShift(0, off, b);
    BlockShift(0, len, b);
    var p, q := Block(off, b), Block(len, b);
    assert (p + q) * b == p * b + q * b == off + len;
    BlockOfMultiple(p + q, b);
  }

  /** So a hole can be cut out of the file and put back. */
  lemma PunchedComesBack(f: File, off: nat, len: nat, b: nat)
    requires b >= 1 && Valid(f, b) && CollapseRange(f, off, len, b).Ok?
    ensures var g := PunchHole(f, off, len, b);
            g.Ok? && CollapseRange(g.value, off, len, b).Ok?
            && InsertRange(CollapseRange(g.value, off, len, b).value, off, len, b) == g
  {
    hide Block, Aligned, InsertRange;
    PunchHoleValid(f, off, len, b);
    var g := PunchHole(f, off, len, b).value;
    BlockShift(0, off, b);
    BlockShift(off, len, b);
    BlockShift(0, len, b);
    var p, q := Block(off, b), Block(off + len, b);
    assert q * b == p * b + Block(len, b) * b;
    forall k | p <= k < q ensures !g.alloc[k] {
      Monotone(p, k, b);
      Monotone(k + 1, q, b);
      assert Covers(k, off, off + len, b);
    }
    CollapseThenInsert(g, off, len, b);
  }

  function NonZero(bytes: seq<byte>): nat {
    if bytes == [] then 0 else (if bytes[0] != 0 then 1 else 0) + NonZero(bytes[1..])
  }

  lemma {:induction false} NonZeroAppend(x: seq<byte>, y: seq<byte>)
    ensures NonZero(x + y) == NonZero(x) + NonZero(y)
  {
    if x == [] {
      assert x + y == y;
    } else {
      NonZeroAppend(x[1..], y);
      assert (x + y)[1..] == x[1..] + y;
    }
  }

  lemma {:induction false} NonZeroBound(bytes: seq<byte>)
    ensures NonZero(bytes) <= |bytes|
    ensures (forall k | 0 <= k < |bytes| :: bytes[k] == 0) ==> NonZero(bytes) == 0
  {
    if bytes == [] {
    } else {
      NonZeroBound(bytes[1..]);
    }
  }

  /** The positions below n that hold data. */
  ghost function Data(bytes: seq<byte>, n: nat): set<nat>
    requires n <= |bytes|
  {
    set k: nat | k < n && bytes[k] != 0
  }

  lemma {:induction false} NonZeroIsData(bytes: seq<byte>, n: nat)
    requires n <= |bytes|
    ensures NonZero(bytes[..n]) == |Data(bytes, n)|
  {
    if n == 0 {
      assert Data(bytes, 0) == {};
    } else {
      var k := n - 1;
      NonZeroIsData(bytes, k);
      assert bytes[..n] == bytes[..k] + [bytes[k]];
      NonZeroAppend(bytes[..k], [bytes[k]]);
      assert [bytes[k]][1..] == [];
      var here: set<nat> := if bytes[k] != 0 then {k} else {};
      assert Data(bytes, n) == Data(bytes, k) + here && k !in Data(bytes, k);
    }
  }

  /** The file without its first block. */
  lemma FirstBlockOff(f: File, b: nat)
    requires b >= 1 && Valid(f, b) && |f.bytes| > b
    ensures f.alloc != [] && Valid(File(f.bytes[b..], f.alloc[1..]), b)
    ensures !f.alloc[0] ==> forall k | 0 <= k < b :: f.bytes[k] == 0
  {
    hide Block;
    InsideBlocks(0, |f.bytes|, b);
    var g := File(f.bytes[b..], f.alloc[1..]);
    BlockOfMultiple(1, b);
    BlockSub(|f.bytes| + b - 1, b, b);
    BlockBounds(|f.bytes| - 1, b);
    assert |f.alloc| == 1 + Blocks(|g.bytes|, b);
    forall k: nat | k < |g.bytes| && g.bytes[k] != 0 ensures Stored(g, k, b) {
      assert Stored(f, k + b, b);
      BlockShift(k, b, b);
    }
    if !f.alloc[0] {
      forall k: nat | k < b ensures f.bytes[k] == 0 {
        BlockUnique(k, b, 0);
        assert !Stored(f, k, b);
      }
    }
  }

  lemma LastBlock(f: File, b: nat)
    requires b >= 1 && Valid(f, b) && 0 < |f.bytes| <= b
    ensures |f.alloc| == 1 && (!f.alloc[0] ==> forall k | 0 <= k < |f.bytes| :: f.bytes[k] == 0)
  {
    hide Block;
    BlockUnique(|f.bytes| + b - 1, b, 1);
    forall k: nat | k < |f.bytes| ensures f.bytes[k] != 0 ==> f.alloc[0] {
      BlockUnique(k, b, 0);
      assert f.bytes[k] != 0 ==> Stored(f, k, b);
    }
  }

  lemma OneMoreBlock(alloc: seq<bool>, b: nat)
    requires alloc != []
    ensures Count(alloc) * b == Count(alloc[1..]) * b + if alloc[0] then b else 0
  {
    var n := Count(alloc[1..]);
    assert Count(alloc) == n + if alloc[0] then 1 else 0;
    hide Count;
    Successor(n, b);
  }

  lemma Successor(n: nat, b: nat)
    ensures (n + 1) * b == n * b + b
  {}

  /** The storage a file occupies holds all its non-zero bytes. */
  lemma {:induction false} DataIsHeld(f: File, b: nat)
    requires b >= 1 && Valid(f, b)
    ensures NonZero(f.bytes) <= Count(f.alloc) * b
    decreases |f.bytes|
  {
    hide Valid, Block;
    if f.bytes == [] {
    } else if |f.bytes| <= b {
      LastBlock(f, b);
      NonZeroBound(f.bytes);
      assert f.alloc[1..] == [];
      assert Count(f.alloc) == if f.alloc[0] then 1 else 0;
    } else {
      FirstBlockOff(f, b);
      var g := File(f.bytes[b..], f.alloc[1..]);
      DataIsHeld(g, b);
      hide NonZero;
      NonZeroAppend(f.bytes[..b], f.bytes[b..]);
      assert f.bytes[..b] + f.bytes[b..] == f.bytes;
      NonZeroBound(f.bytes[..b]);
      OneMoreBlock(f.alloc, b);
    }
  }

  lemma {:induction false} CountBound(alloc: seq<bool>)
    ensures Count(alloc) <= |alloc|
  {
    if alloc == [] {
    } else {
      CountBound(alloc[1..]);
    }
  }

  datatype Op =
    | Allocating(off: nat, len: nat)
    | Writing(off: nat, data: seq<byte>)
    | Punching(off: nat, len: nat)
    | Zeroing(off: nat, len: nat)
    | Collapsing(off: nat, len: nat)
    | Inserting(off: nat, len: nat)

  function Applied(f: File, op: Op, b: nat): File
    requires b >= 1
  {
    match op
    case Allocating(off, len) => Unless(f, Allocate(f, off, len, b))
    case Writing(off, data) => Write(f, off, data, b)
    case Punching(off, len) => Unless(f, PunchHole(f, off, len, b))
    case Zeroing(off, len) => Unless(f, ZeroRange(f, off, len, b))
    case Collapsing(off, len) => Unless(f, CollapseRange(f, off, len, b))
    case Inserting(off, len) => Unless(f, InsertRange(f, off, len, b))
  }

  /** A refused operation leaves the file as it was. */
  function Unless(f: File, r: Result<File>): File {
    if r.Ok? then r.value else f
  }

  function Reached(ops: seq<Op>, b: nat): File
    requires b >= 1
  {
    if ops == [] then File([], []) else Applied(Reached(ops[..|ops| - 1], b), ops[|ops| - 1], b)
  }

  lemma AppliedValid(f: File, op: Op, b: nat)
    requires b >= 1 && Valid(f, b)
    ensures Valid(Applied(f, op, b), b)
  {
    hide Valid, Write;
    match op
    case Allocating(off, len) => if len > 0 { AllocateValid(f, off, len, b); }
    case Writing(off, data) => WriteValid(f, off, data, b);
    case Punching(off, len) => if len > 0 { PunchHoleValid(f, off, len, b); }
    case Zeroing(off, len) => if len > 0 { ZeroRangeValid(f, off, len, b); }
    case Collapsing(off, len) => if CollapseRange(f, off, len, b).Ok? { CollapseRangeValid(f, off, len, b); }
    case Inserting(off, len) => if InsertRange(f, off, len, b).Ok? { InsertRangeValid(f, off, len, b); }
  }

  lemma EmptyValid(b: nat)
    requires b >= 1
    ensures Valid(File([], []), b)
  {
    BlockUnique(b - 1, b, 0);
  }

  /**
   Whatever sequence of these calls has been made on an empty file, what is not allocated reads
   as zeros, and the allocated size lies between the data there is and the size of the file
   rounded up to a block.
   */
  lemma {:induction false} AnyOperations(ops: seq<Op>, b: nat)
    requires b >= 1
    ensures var f := Reached(ops, b);
            Valid(f, b) && |Data(f.bytes, |f.bytes|)| <= Count(f.alloc) * b < |f.bytes| + b
  {
    hide Valid, Applied, Block, NonZero, Count, Data;
    if ops == [] {
      EmptyValid(b);
    } else {
      AnyOperations(ops[..|ops| - 1], b);
      AppliedValid(Reached(ops[..|ops| - 1], b), ops[|ops| - 1], b);
    }
    var f := Reached(ops, b);
    DataIsHeld(f, b);
    NonZeroIsData(f.bytes, |f.bytes|);
    assert f.bytes[..|f.bytes|] == f.bytes;
    CountBound(f.alloc);
    AllocSize(f, b);
    Monotone(Count(f.alloc), Blocks(|f.bytes|, b), b);
    BlockBounds(|f.bytes| + b - 1, b);
  }

  lemma AllocSize(f: File, b: nat)
    requires b >= 1 && Valid(f, b)
    ensures |f.alloc| == Blocks(|f.bytes|, b)
  {}

  // ---------- the five test cases ----------

  /** The letters a, b, c, ..., one to a block, as far as block i. */
  function Letters(i: nat, b: nat): seq<byte>
    requires i <= NUM_OF_BLOCKS
  {
    if i == 0 then [] else Letters(i - 1, b) + seq(b, _ => LETTER_A + i - 1)
  }

  lemma {:induction false} LettersLength(i: nat, b: nat)
    requires i <= NUM_OF_BLOCKS
    ensures |Letters(i, b)| == i * b
  {
    if i == 0 {
    } else {
      LettersLength(i - 1, b);
    }
  }

  /** What each test case leaves, `b` being the block size. */
  function After(test: nat, b: nat): File
    requires b >= 1 && 1 <= test <= 5
  {
    LettersLength(3, b);
    var full := Letters(3, b);
    var zeroed := ZeroIn(full, b - 1, 2 * b + 1);
    match test
    case 1 => File(full, [true, true, true])
    case 2 => File(ZeroIn(full, b, 2 * b), [true, false, true])
    case 3 => File(zeroed, [true, true, true])
    case 4 => File(zeroed[..b] + zeroed[2 * b..], [true, true])
    case _ => File(zeroed, [true, true, true])
  }

  lemma ThreeBlocks(b: nat)
    requires b >= 1
    ensures Blocks(3 * b, b) == 3 && Block(0, b) == 0 && Block(b, b) == 1 && Block(2 * b, b) == 2
    ensures Aligned(b, b) && Aligned(0, b)
  {
    BlockUnique(3 * b + b - 1, b, 3);
    BlockUnique(0, b, 0);
    BlockUnique(b, b, 1);
    BlockUnique(2 * b, b, 2);
    BlockOfMultiple(1, b);
    BlockOfMultiple(0, b);
  }

  lemma Case1(b: nat)
    requires b >= 1
    ensures var f := Allocate(File([], []), 0, 3 * b, b);
            f.Ok? && Write(f.value, 0, Letters(3, b), b) == After(1, b)
  {
    hide Block, Letters;
    ThreeBlocks(b);
    LettersLength(3, b);
    var f := Allocate(File([], []), 0, 3 * b, b).value;
    var g := Write(f, 0, Letters(3, b), b);
    assert |f.bytes| == 3 * b;
    assert g.bytes == Letters(3, b);
    assert g.alloc == [true, true, true];
  }

  lemma Case2(b: nat)
    requires b >= 1
    ensures PunchHole(After(1, b), b, b, b) == Ok(After(2, b))
    ensures FirstHole(After(2, b).alloc) == 1
  {
    hide Letters;
    LettersLength(3, b);
    var g := PunchHole(After(1, b), b, b, b).value;
    assert Covers(1, b, b + b, b) && !Covers(0, b, b + b, b) && !Covers(2, b, b + b, b);
    assert g.alloc == [true, false, true];
    assert g.bytes == After(2, b).bytes;
  }

  lemma Case3(b: nat)
    requires b >= 1
    ensures ZeroRange(After(2, b), b - 1, b + 2, b) == Ok(After(3, b))
  {
    hide Letters, Block;
    ThreeBlocks(b);
    LettersLength(3, b);
    var g := ZeroRange(After(2, b), b - 1, b + 2, b).value;
    assert g.bytes == After(3, b).bytes;
    assert g.alloc == [true, true, true];
  }

  lemma Case4(b: nat)
    requires b >= 1
    ensures CollapseRange(After(3, b), b, b, b) == Ok(After(4, b))
  {
    hide Letters, Block, Aligned;
    ThreeBlocks(b);
    LettersLength(3, b);
    assert After(3, b).alloc[..1] + After(3, b).alloc[2..] == [true, true];
  }

  lemma Case5(b: nat)
    requires b >= 1
    ensures var f := InsertRange(After(4, b), b, b, b);
            f.Ok? && ZeroRange(f.value, b, b, b) == Ok(After(5, b))
  {
    hide Letters, Block, Aligned;
    ThreeBlocks(b);
    LettersLength(3, b);
    var f := InsertRange(After(4, b), b, b, b).value;
    var g := ZeroRange(f, b, b, b).value;
    assert |f.bytes| == 3 * b;
    assert g.bytes == After(5, b).bytes;
    assert f.alloc == [true, false, true];
    assert g.alloc == [true, true, true];
  }

  /** What test01 makes of any file at any position. */
  function Filled(f: File, pos: nat, b: nat): File
    requires b >= 1
  {
    Write(Unless(f, Allocate(f, 0, 3 * b, b)), pos, Letters(3, b), b)
  }

  lemma FilledValid(f: File, pos: nat, b: nat)
    requires b >= 1 && Valid(f, b)
    ensures Valid(Filled(f, pos, b), b)
  {
    hide Valid, Write, Allocate, Letters;
    AllocateOk(f, 0, 3 * b, b);
    AllocateValid(f, 0, 3 * b, b);
    WriteValid(Allocate(f, 0, 3 * b, b).value, pos, Letters(3, b), b);
  }

  lemma AllocateOk(f: File, off: nat, len: nat, b: nat)
    requires b >= 1 && len > 0
    ensures Allocate(f, off, len, b).Ok?
  {}

  /** Exactly when test02 passes on a file: the first and the third block hold their letters, and
      the second is there to be given back. */
  ghost predicate Punchable(f: File, b: nat) {
    && |f.bytes| >= 3 * b
    && (forall k | 0 <= k < b :: f.bytes[k] == LETTER_A)
    && (forall k | 2 * b <= k < 3 * b :: f.bytes[k] == LETTER_A + 2)
    && |f.alloc| > 1 && f.alloc[1]
  }

  /** The first two blocks are allocated. */
  predicate TwoHeld(f: File) {
    |f.alloc| > 1 && f.alloc[0] && f.alloc[1]
  }

  lemma LettersAt(b: nat)
    ensures var full := Letters(3, b);
            && |full| == 3 * b
            && forall k | 0 <= k < 3 * b ::
                 full[k] == if k < b then LETTER_A else if k < 2 * b then LETTER_A + 1 else LETTER_A + 2
  {
    assert Letters(1, b) == seq(b, _ => LETTER_A);
    assert Letters(2, b) == Letters(1, b) + seq(b, _ => LETTER_A + 1);
    assert Letters(3, b) == Letters(2, b) + seq(b, _ => LETTER_A + 2);
  }

  lemma PunchedSecond(f: File, b: nat)
    requires b >= 1
    ensures var g := PunchHole(f, b, b, b);
            && g.Ok? && g.value.bytes == ZeroIn(f.bytes, b, 2 * b)
            && g.value.alloc == if |f.alloc| > 1 then f.alloc[1 := false] else f.alloc
  {
    forall q: nat | q < |f.alloc| ensures Covers(q, b, 2 * b, b) <==> q == 1 {
      if q >= 2 { Monotone(2, q, b); }
    }
  }

  lemma CountSecond(alloc: seq<bool>)
    requires |alloc| > 1
    ensures Count(alloc) == Count(alloc[1 := false]) + if alloc[1] then 1 else 0
    ensures FirstHole(alloc[1 := false]) == if alloc[0] then 1 else 0
  {
    var cut := alloc[1 := false];
    assert cut[1..][1..] == alloc[1..][1..];
  }

  /** The offset lseek reports for SEEK_HOLE: the first hole, or the end of the file. */
  function HoleAt(f: File, b: nat): int {
    Min(FirstHole(f.alloc) * b, |f.bytes|)
  }

  lemma BothStored(f: File, b: nat)
    requires b >= 1 && Valid(f, b) && |f.bytes| >= 3 * b
    ensures |f.alloc| >= 3 && (f.bytes[0] != 0 ==> f.alloc[0])
  {
    hide Block;
    BlockUnique(0, b, 0);
    BlockUnique(3 * b - 1, b, 2);
    InsideBlocks(3 * b - 1, |f.bytes|, b);
    assert f.bytes[0] != 0 ==> Stored(f, 0, b);
  }

  lemma Case2Data(bytes: seq<byte>, b: nat)
    requires b >= 1 && |bytes| >= 3 * b
    ensures |Letters(3, b)| == 3 * b
    ensures ZeroIn(bytes, b, 2 * b)[..3 * b] == ZeroIn(Letters(3, b), b, 2 * b) <==>
            && (forall k | 0 <= k < b :: bytes[k] == LETTER_A)
            && (forall k | 2 * b <= k < 3 * b :: bytes[k] == LETTER_A + 2)
  {
    hide Letters;
    LettersAt(b);
    var want, got := ZeroIn(Letters(3, b), b, 2 * b), ZeroIn(bytes, b, 2 * b);
    if got[..3 * b] == want {
      forall k | 0 <= k < 3 * b && !(b <= k < 2 * b) ensures bytes[k] == Letters(3, b)[k] {
        assert got[..3 * b][k] == want[k];
      }
    }
  }

  lemma Case2Sizes(f: File, g: File, b: nat)
    requires b >= 1 && |f.alloc| > 2 && |f.bytes| == |g.bytes| > b && g.alloc == f.alloc[1 := false]
    ensures HoleAt(g, b) == b && Count(f.alloc) * b - b == Count(g.alloc) * b <==> f.alloc[0] && f.alloc[1]
  {
    hide Count, FirstHole;
    CountSecond(f.alloc);
    var n := Count(g.alloc);
    assert n * b + b == (n + 1) * b;
    assert FirstHole(g.alloc) * b == if f.alloc[0] then b else 0;
    if f.alloc[1] {
      assert Count(f.alloc) == n + 1;
    } else {
      assert Count(f.alloc) == n;
    }
  }

  lemma Case2Iff(f: File, b: nat)
    requires b >= 1 && Valid(f, b)
    ensures PunchHole(f, b, b, b).Ok?
    ensures var g := PunchHole(f, b, b, b).value;
            var data := 3 * b <= |g.bytes| && g.bytes[..3 * b] == ZeroIn(Letters(3, b), b, 2 * b);
            var sizes := HoleAt(g, b) == b && Count(f.alloc) * b - b == Count(g.alloc) * b;
            && (sizes && data <==> Punchable(f, b))
            && (|f.bytes| >= 3 * b && TwoHeld(f) ==> sizes)
  {
    hide Block, Letters, Count, FirstHole, PunchHole, Valid, HoleAt;
    PunchedSecond(f, b);
    if |f.bytes| >= 3 * b {
      BothStored(f, b);
      Case2Data(f.bytes, b);
      Case2Sizes(f, PunchHole(f, b, b, b).value, b);
      if Punchable(f, b) {
        assert f.bytes[0] == LETTER_A;
      }
    }
  }

  lemma PunchableLetters(b: nat)
    requires b >= 1
    ensures Punchable(After(1, b), b)
  {
    hide Letters;
    LettersAt(b);
  }

  // ---------- exactly when the later cases pass ----------

  /** The block is allocated. */
  predicate Held(f: File, q: nat) {
    q < |f.alloc| && f.alloc[q]
  }

  /** Exactly when test03 passes: the letters on either side of the range are there, and one of the
      three blocks the range touches has to be found storage for. */
  ghost predicate Zeroable(f: File, b: nat) {
    && Max(|f.bytes|, 2 * b + 1) >= 3 * b
    && (forall k | 0 <= k < b - 1 && k < |f.bytes| :: f.bytes[k] == LETTER_A)
    && (forall k | 2 * b + 1 <= k < 3 * b && k < |f.bytes| :: f.bytes[k] == LETTER_A + 2)
    && (if Held(f, 0) then 0 else 1) + (if Held(f, 1) then 0 else 1) + (if Held(f, 2) then 0 else 1) == 1
  }

  /** A block of the letter a whose last byte is zero. */
  ghost predicate CutFirst(bytes: seq<byte>, b: nat) {
    |bytes| >= b >= 1 && (forall k | 0 <= k < b - 1 :: bytes[k] == LETTER_A) && bytes[b - 1] == 0
  }

  /** From `at` on a block of the letter c whose first byte is zero. */
  ghost predicate CutThird(bytes: seq<byte>, at: nat, b: nat) {
    |bytes| >= at + b > at && bytes[at] == 0 && forall k | at < k < at + b :: bytes[k] == LETTER_A + 2
  }

  /** Exactly when test04 passes. */
  ghost predicate Collapsible(f: File, b: nat) {
    CutFirst(f.bytes, b) && CutThird(f.bytes, 2 * b, b) && Held(f, 1)
  }

  /** Exactly when test05 passes. */
  ghost predicate Insertable(f: File, b: nat) {
    CutFirst(f.bytes, b) && CutThird(f.bytes, b, b)
  }

  /** The letters with the range of test03 cleared. */
  lemma ZeroedAt(b: nat)
    requires b >= 1
    ensures |Letters(3, b)| == 3 * b
    ensures var z := ZeroIn(Letters(3, b), b - 1, 2 * b + 1);
            && |z| == 3 * b
            && forall k | 0 <= k < 3 * b ::
                 z[k] == if k < b - 1 then LETTER_A else if k <= 2 * b then 0 else LETTER_A + 2
  {
    hide Letters;
    LettersAt(b);
  }

  lemma CountFront(x: bool, rest: seq<bool>)
    ensures Count([x] + rest) == Count(rest) + if x then 1 else 0
  {
    assert ([x] + rest)[1..] == rest;
  }

  lemma CountScaled(m: nat, n: nat, b: nat)
    requires b >= 1
    ensures m * b + b == n * b <==> n == m + 1
  {
    if n > m + 1 {
      Monotone(m + 2, n, b);
    } else if n <= m {
      Monotone(n, m, b);
    }
    assert (m + 1) * b == m * b + b;
    assert (m + 2) * b == m * b + b + b;
  }

  lemma TouchesThree(b: nat, q: nat)
    requires b >= 1
    ensures Touches(q, b - 1, 2 * b + 1, b) <==> q < 3
  {
    if q >= 3 { Monotone(3, q, b); }
  }

  /** Storage for the range of test03 is storage for the first three blocks. */
  lemma AllocThree(alloc: seq<bool>, count: nat, b: nat)
    requires b >= 1 && 3 <= count && |alloc| <= count
    requires if |alloc| < 3 then count == 3 else count == |alloc|
    ensures var a := AllocIn(alloc, count, b - 1, 2 * b + 1, b);
            a == [true, true, true] + if |alloc| < 3 then [] else alloc[3..]
  {
    hide Touches;
    var off: nat, end: nat := b - 1, 2 * b + 1;
    forall q: nat | Touches(q, off, end, b) ensures q < 3 {
      TouchesThree(b, q);
    }
    TouchesThree(b, 0);
    TouchesThree(b, 1);
    TouchesThree(b, 2);
  }

  lemma ThreeHeld(alloc: seq<bool>)
    ensures var n := (if |alloc| > 0 && alloc[0] then 1 else 0) + (if |alloc| > 1 && alloc[1] then 1 else 0)
                     + (if |alloc| > 2 && alloc[2] then 1 else 0);
            Count(alloc) == n + Count(if |alloc| < 3 then [] else alloc[3..])
  {
    if |alloc| > 0 {
      assert alloc == [alloc[0]] + alloc[1..];
      CountFront(alloc[0], alloc[1..]);
      if |alloc| > 1 {
        assert alloc[1..] == [alloc[1]] + alloc[2..];
        CountFront(alloc[1], alloc[2..]);
        if |alloc| > 2 {
          assert alloc[2..] == [alloc[2]] + alloc[3..];
          CountFront(alloc[2], alloc[3..]);
        }
      }
    }
  }

  lemma Case3Sizes(f: File, g: File, b: nat)
    requires b >= 1 && Valid(f, b) && ZeroRange(f, b - 1, b + 2, b) == Ok(g) && |g.bytes| >= 3 * b
    ensures Count(f.alloc) * b + b == Count(g.alloc) * b <==>
            (if Held(f, 0) then 0 else 1) + (if Held(f, 1) then 0 else 1) + (if Held(f, 2) then 0 else 1) == 1
  {
    var count := Blocks(|g.bytes|, b);
    FileBlocks(f, b);
    BlocksThree(|f.bytes|, |g.bytes|, b);
    AllocThree(f.alloc, count, b);
    hide Count, AllocIn, Block, Touches;
    var rest := if |f.alloc| < 3 then [] else f.alloc[3..];
    ThreeHeld(f.alloc);
    ThreeHeld(g.alloc);
    assert g.alloc == [true, true, true] + rest;
    assert g.alloc[3..] == rest;
    CountScaled(Count(f.alloc), Count(g.alloc), b);
  }

  lemma FileBlocks(f: File, b: nat)
    requires b >= 1 && Valid(f, b)
    ensures |f.alloc| == Blocks(|f.bytes|, b)
  {}

  /** At least three blocks, and no more than there were unless there were fewer. */
  lemma BlocksThree(size: nat, size': nat, b: nat)
    requires b >= 1 && size' == Max(size, 2 * b + 1) && size' >= 3 * b
    ensures Blocks(size', b) >= 3 && (Blocks(size, b) >= 3 ==> Blocks(size', b) == Blocks(size, b))
    ensures Blocks(size, b) < 3 ==> Blocks(size', b) == 3
  {
    hide Block;
    InsideBlocks(3 * b - 1, size', b);
    BlockUnique(3 * b - 1, b, 2);
    if size < size' {
      assert b == 1 && size' == 3;
      BlockUnique(3, 1, 3);
      BlockUnique(size, 1, size);
    }
  }

  lemma Case3Data(f: File, g: File, b: nat)
    requires b >= 1 && ZeroRange(f, b - 1, b + 2, b) == Ok(g)
    ensures |g.bytes| == Max(|f.bytes|, 2 * b + 1) && |Letters(3, b)| == 3 * b
    ensures |g.bytes| >= 3 * b ==>
              (g.bytes[..3 * b] == ZeroIn(Letters(3, b), b - 1, 2 * b + 1) <==>
                && (forall k | 0 <= k < b - 1 && k < |f.bytes| :: f.bytes[k] == LETTER_A)
                && (forall k | 2 * b + 1 <= k < 3 * b && k < |f.bytes| :: f.bytes[k] == LETTER_A + 2))
  {
    hide Letters, Block, AllocIn;
    ZeroedAt(b);
    if |g.bytes| >= 3 * b {
      var z := ZeroIn(Letters(3, b), b - 1, 2 * b + 1);
      assert |f.bytes| < 3 * b ==> b == 1;
      if g.bytes[..3 * b] == z {
        forall k | (0 <= k < b - 1 || 2 * b + 1 <= k < 3 * b) && k < |f.bytes| ensures f.bytes[k] == z[k] {
          assert g.bytes[..3 * b][k] == g.bytes[k];
        }
      }
    }
  }

  lemma Case3Iff(f: File, b: nat)
    requires b >= 1 && Valid(f, b)
    ensures var r := ZeroRange(f, b - 1, b + 2, b);
            && r.Ok? && |Letters(3, b)| == 3 * b
            && var g := r.value;
               var data := |g.bytes| >= 3 * b && g.bytes[..3 * b] == ZeroIn(Letters(3, b), b - 1, 2 * b + 1);
               var size := Count(f.alloc) * b + b == Count(g.alloc) * b;
               (data && size <==> Zeroable(f, b))
  {
    hide Letters, Block, AllocIn, Count, Held;
    var g := ZeroRange(f, b - 1, b + 2, b).value;
    Case3Data(f, g, b);
    if |g.bytes| >= 3 * b {
      Case3Sizes(f, g, b);
    }
  }

  lemma Collapsed(f: File, b: nat)
    requires b >= 1 && Valid(f, b)
    ensures var r := CollapseRange(f, b, b, b);
            && (r.Ok? <==> |f.bytes| > 2 * b)
            && (r.Ok? ==> && |f.alloc| >= 3 && r.value.alloc == [f.alloc[0]] + f.alloc[2..]
                          && r.value.bytes == f.bytes[..b] + f.bytes[2 * b..])
  {
    hide Block, Aligned;
    ThreeBlocks(b);
    if |f.bytes| > 2 * b {
      InsideBlocks(2 * b, |f.bytes|, b);
      assert f.alloc[..1] == [f.alloc[0]];
    }
  }

  lemma CountWithout(alloc: seq<bool>)
    requires |alloc| >= 2
    ensures Count(alloc) == Count([alloc[0]] + alloc[2..]) + if alloc[1] then 1 else 0
  {
    hide Count;
    assert alloc == [alloc[0]] + ([alloc[1]] + alloc[2..]);
    CountFront(alloc[0], [alloc[1]] + alloc[2..]);
    CountFront(alloc[1], alloc[2..]);
    CountFront(alloc[0], alloc[2..]);
  }

  /** The expected contents of test04, byte by byte. */
  lemma CollapsedAt(b: nat)
    requires b >= 1
    ensures var want := After(4, b).bytes;
            && |want| == 2 * b
            && forall k | 0 <= k < 2 * b ::
                 want[k] == if k < b - 1 then LETTER_A else if k <= b then 0 else LETTER_A + 2
  {
    hide Letters;
    ZeroedAt(b);
  }

  lemma Case4Data(bytes: seq<byte>, b: nat)
    requires b >= 1 && |bytes| > 2 * b
    ensures |After(4, b).bytes| == 2 * b
    ensures var got := bytes[..b] + bytes[2 * b..];
            |got| >= 2 * b && got[..2 * b] == After(4, b).bytes <==> CutFirst(bytes, b) && CutThird(bytes, 2 * b, b)
  {
    hide After;
    CollapsedAt(b);
    var want, got := After(4, b).bytes, bytes[..b] + bytes[2 * b..];
    if |got| >= 2 * b {
      assert forall k | 0 <= k < 2 * b :: got[k] == if k < b then bytes[k] else bytes[k + b];
      if got[..2 * b] == want {
        forall k | 0 <= k < 2 * b ensures got[k] == want[k] {
          assert got[..2 * b][k] == got[k];
        }
        forall k | 2 * b <= k < 3 * b ensures bytes[k] == want[k - b] {
          assert got[k - b] == bytes[k];
        }
        forall k | 0 <= k < b ensures bytes[k] == want[k] {
          assert got[k] == bytes[k];
        }
      }
    }
  }

  lemma Case4Iff(f: File, b: nat)
    requires b >= 1 && Valid(f, b)
    ensures |After(4, b).bytes| == 2 * b
    ensures var r := CollapseRange(f, b, b, b);
            var data := r.Ok? && |r.value.bytes| >= 2 * b && r.value.bytes[..2 * b] == After(4, b).bytes;
            var size := r.Ok? && Count(r.value.alloc) * b + b == Count(f.alloc) * b;
            (data && size <==> Collapsible(f, b))
  {
    hide After, Count, CollapseRange, CutFirst, CutThird;
    Collapsed(f, b);
    CollapsedAt(b);
    CutThirdSize(f.bytes, 2 * b, b);
    if |f.bytes| > 2 * b {
      var g := CollapseRange(f, b, b, b).value;
      Case4Data(f.bytes, b);
      CountWithout(f.alloc);
      CountScaled(Count(g.alloc), Count(f.alloc), b);
    }
  }

  lemma CutThirdSize(bytes: seq<byte>, at: nat, b: nat)
    ensures CutThird(bytes, at, b) ==> |bytes| > at
  {}

  lemma InsertShape(f: File, b: nat)
    requires b >= 1 && Valid(f, b)
    ensures var r := InsertRange(f, b, b, b);
            && (r.Ok? <==> |f.bytes| > b)
            && (r.Ok? ==>
                  && |f.alloc| >= 2 && r.value.bytes == f.bytes[..b] + seq(b, _ => 0) + f.bytes[b..]
                  && r.value.alloc == [f.alloc[0], false] + f.alloc[1..])
  {
    hide Block, Aligned;
    ThreeBlocks(b);
    if |f.bytes| > b {
      InsideBlocks(b, |f.bytes|, b);
      assert f.alloc[..1] == [f.alloc[0]];
    }
  }

  lemma TouchesSecond(b: nat, q: nat)
    requires b >= 1
    ensures Touches(q, b, b + b, b) <==> q == 1
  {
    if q >= 2 { Monotone(2, q, b); }
  }

  lemma ZeroSecond(h: File, b: nat)
    requires b >= 1 && Valid(h, b) && |h.bytes| >= 2 * b && |h.alloc| >= 2
    requires forall k | b <= k < 2 * b :: h.bytes[k] == 0
    ensures ZeroRange(h, b, b, b) == Ok(File(h.bytes, h.alloc[1 := true]))
  {
    hide Block, Touches;
    var g := ZeroRange(h, b, b, b).value;
    assert g.bytes == h.bytes;
    FileBlocks(h, b);
    var end: nat := b + b;
    forall q: nat | Touches(q, b, end, b) ensures q == 1 {
      TouchesSecond(b, q);
    }
    TouchesSecond(b, 1);
    assert g.alloc == h.alloc[1 := true];
  }

  /** The file after the two calls of test05. */
  lemma Inserted(f: File, b: nat)
    requires b >= 1 && Valid(f, b)
    ensures var r := InsertRange(f, b, b, b);
            && (r.Ok? <==> |f.bytes| > b)
            && (r.Ok? ==>
                  && |f.alloc| >= 2 && ZeroRange(r.value, b, b, b).Ok?
                  && var g := ZeroRange(r.value, b, b, b).value;
                     && g.bytes == f.bytes[..b] + seq(b, _ => 0) + f.bytes[b..]
                     && g.alloc == [f.alloc[0], true] + f.alloc[1..])
  {
    hide InsertRange, ZeroRange, Valid;
    InsertShape(f, b);
    if |f.bytes| > b {
      var h := InsertRange(f, b, b, b).value;
      InsertRangeValid(f, b, b, b);
      ZeroSecond(h, b);
    }
  }

  lemma Case5Data(bytes: seq<byte>, b: nat)
    requires b >= 1 && |bytes| > b
    ensures |Letters(3, b)| == 3 * b
    ensures var got := bytes[..b] + seq(b, _ => 0) + bytes[b..];
            |got| >= 3 * b && got[..3 * b] == ZeroIn(Letters(3, b), b - 1, 2 * b + 1)
            <==> CutFirst(bytes, b) && CutThird(bytes, b, b)
  {
    hide Letters;
    ZeroedAt(b);
    var z, got := ZeroIn(Letters(3, b), b - 1, 2 * b + 1), bytes[..b] + seq(b, _ => 0) + bytes[b..];
    if |got| >= 3 * b {
      assert forall k | 0 <= k < 3 * b :: got[k] == if k < b then bytes[k] else if k < 2 * b then 0 else bytes[k - b];
      if got[..3 * b] == z {
        forall k | 0 <= k < 3 * b ensures got[k] == z[k] {
          assert got[..3 * b][k] == got[k];
        }
        forall k | 0 <= k < b ensures bytes[k] == z[k] {
          assert got[k] == bytes[k];
        }
        forall k | b <= k < 2 * b ensures bytes[k] == z[k + b] {
          assert got[k + b] == bytes[k];
        }
      }
    }
  }

  lemma Case5Iff(f: File, b: nat)
    requires b >= 1 && Valid(f, b)
    ensures |Letters(3, b)| == 3 * b
    ensures var r := InsertRange(f, b, b, b);
            && (r.Ok? ==> ZeroRange(r.value, b, b, b).Ok?)
            && var g := if r.Ok? then ZeroRange(r.value, b, b, b).value else f;
               var data := |g.bytes| >= 3 * b && g.bytes[..3 * b] == ZeroIn(Letters(3, b), b - 1, 2 * b + 1);
               var size := Count(f.alloc) * b + b == Count(g.alloc) * b;
               (r.Ok? && data && size <==> Insertable(f, b))
  {
    hide Letters, Count, InsertRange, ZeroRange, CutFirst, CutThird;
    Inserted(f, b);
    ZeroedAt(b);
    if |f.bytes| > b {
      Case5Data(f.bytes, b);
      var g := ZeroRange(InsertRange(f, b, b, b).value, b, b, b).value;
      CountWithout(g.alloc);
      assert [g.alloc[0]] + g.alloc[2..] == f.alloc;
      CountScaled(Count(f.alloc), Count(g.alloc), b);
    } else if Insertable(f, b) {
      CutThirdSize(f.bytes, b, b);
    }
  }

  lemma CasesFollow(b: nat)
    requires b >= 1
    ensures Zeroable(After(2, b), b) && Collapsible(After(3, b), b) && Insertable(After(4, b), b)
  {
    hide Letters;
    LettersAt(b);
  }

  /** A second round appends its letters behind the first round's zeros: the byte before the
      second block is still 0, so test02 does not find its contents. */
  lemma SecondRound(b: nat)
    requires b >= 1
    ensures var f := Filled(After(5, b), 3 * b, b);
            |f.bytes| >= 3 * b && TwoHeld(f) && !Punchable(f, b)
  {
    hide Block, Letters, ZeroIn;
    LettersLength(3, b);
    ThreeBlocks(b);
    ZeroBeforeSecond(b);
    var f5 := After(5, b);
    var f6 := Allocate(f5, 0, 3 * b, b).value;
    assert f6.bytes == f5.bytes;
    var f := Filled(f5, 3 * b, b);
    assert f.bytes[b - 1] == f5.bytes[b - 1] == 0;
    BlockUnique(6 * b + b - 1, b, 6);
  }

  lemma ZeroBeforeSecond(b: nat)
    requires b >= 1
    ensures |After(5, b).bytes| == 3 * b && After(5, b).bytes[b - 1] == 0 && After(5, b).alloc == [true, true, true]
  {
    hide Letters;
    LettersLength(3, b);
  }

  /** tmp[..b] followed by tmp[2b..], with the bytes either side of the seam cleared, is what
      collapsing the zeroed file leaves. */
  lemma ExpectedAfterCollapse(b: nat)
    requires b >= 1
    ensures |Letters(3, b)| == 3 * b && |After(4, b).bytes| == 2 * b
    ensures var full := Letters(3, b);
            (full[..b] + full[2 * b..])[b - 1 := 0][b := 0] == After(4, b).bytes
  {
    hide Letters;
    LettersLength(3, b);
  }

  // ---------- the test process ----------

  datatype Outcome = Passed | FallocateFailed | WrongHole | WrongAllocation | WrongData

  /** memset and memcpy into a part of a buffer. */
  method Memset(buf: array<byte>, from: nat, v: byte, n: nat)
    requires from + n <= buf.Length
    modifies buf
    ensures buf[..] == old(buf[..from]) + seq(n, _ => v) + old(buf[from + n..])
  {
    forall k | from <= k < from + n {
      buf[k] := v;
    }
  }

  method Memcpy(dst: array<byte>, to: nat, src: array<byte>, from: nat, n: nat)
    requires dst != src && to + n <= dst.Length && from + n <= src.Length
    modifies dst
    ensures dst[..] == old(dst[..to]) + src[from..from + n] + old(dst[to + n..])
  {
    forall k | 0 <= k < n {
      dst[to + k] := src[from + k];
    }
  }

  class Test {
    const blockSize: nat
    const bufSize: nat
    var file: File
    var pos: nat

    ghost predicate Ready()
      reads this
    {
      blockSize >= 1 && bufSize == NUM_OF_BLOCKS * blockSize && Valid(file, blockSize)
    }

    /** As setup leaves it, and as a round that passes leaves it. */
    predicate Fresh()
      reads this
    {
      file == File([], []) && pos == 0
    }

    predicate Used()
      requires blockSize >= 1
      reads this
    {
      file == After(5, blockSize) && pos == 3 * blockSize
    }

    /** setup: the file is opened empty, and the block size is the file system's. */
    constructor (blockSize: nat)
      requires blockSize >= 1
      ensures Ready() && this.blockSize == blockSize && Fresh()
    {
      EmptyValid(blockSize);
      this.blockSize, bufSize := blockSize, NUM_OF_BLOCKS * blockSize;
      file, pos := File([], []), 0;
    }

    method SetFile(r: Result<File>) returns (ok: bool)
      modifies this`file
      ensures ok == r.Ok? && file == if r.Ok? then r.value else old(file)
    {
      ok := r.Ok?;
      if ok {
        file := r.value;
      }
    }

    /** get_allocsize: never less than the data the file holds. */
    method GetAllocSize() returns (n: nat)
      requires Ready()
      ensures n == Count(file.alloc) * blockSize && n >= |Data(file.bytes, |file.bytes|)|
    {
      DataIsHeld(file, blockSize);
      NonZeroIsData(file.bytes, |file.bytes|);
      assert file.bytes[..|file.bytes|] == file.bytes;
      n := Count(file.alloc) * blockSize;
    }

    /** fill_tst_buf: a different letter in each block. */
    method FillTstBuf(buf: array<byte>)
      requires Ready() && buf.Length == bufSize
      modifies buf
      ensures buf[..] == Letters(NUM_OF_BLOCKS, blockSize)
      ensures forall k | 0 <= k < buf.Length ::
                buf[k] == if k < blockSize then 97 else if k < 2 * blockSize then 98 else 99
    {
      LettersAt(blockSize);
      var i := 0;
      LettersLength(0, blockSize);
      while i < NUM_OF_BLOCKS
        invariant 0 <= i <= NUM_OF_BLOCKS
        invariant i * blockSize <= bufSize && buf[..i * blockSize] == Letters(i, blockSize)
      {
        Monotone(i + 1, NUM_OF_BLOCKS, blockSize);
        assert (i + 1) * blockSize == i * blockSize + blockSize;
        Memset(buf, i * blockSize, LETTER_A + i, blockSize);
        i := i + 1;
      }
      assert buf[..] == Letters(NUM_OF_BLOCKS, blockSize);
      assert forall k | 0 <= k < buf.Length :: buf[k] == buf[..][k];
    }

    /** check_file_data: reads from the start of the file and compares. */
    method CheckFileData(expBuf: array<byte>) returns (same: bool)
      modifies this`pos
      ensures same <==> expBuf.Length <= |file.bytes| && expBuf[..] == file.bytes[..expBuf.Length]
      ensures pos == if expBuf.Length <= |file.bytes| then expBuf.Length else 0
    {
      pos := 0;
      if |file.bytes| < expBuf.Length {
        return false;
      }
      pos := expBuf.Length;
      same := expBuf[..] == file.bytes[..expBuf.Length];
    }

    /** The expected contents of cases 2, 3 and 5: the letters with one range cleared. */
    method ZeroedLetters(from: nat, n: nat) returns (expBuf: array<byte>)
      requires Ready() && from + n <= bufSize
      ensures fresh(expBuf) && expBuf[..] == ZeroIn(Letters(NUM_OF_BLOCKS, blockSize), from, from + n)
    {
      hide Letters;
      expBuf := new byte[bufSize];
      FillTstBuf(expBuf);
      Memset(expBuf, from, 0, n);
    }

    /** The expected contents of case 4, copied together from the letters. */
    method CollapsedLetters() returns (expBuf: array<byte>)
      requires Ready()
      ensures fresh(expBuf) && expBuf[..] == After(4, blockSize).bytes
    {
      hide Letters, After, Valid;
      ExpectedAfterCollapse(blockSize);
      var tmpBuf := new byte[bufSize];
      FillTstBuf(tmpBuf);
      expBuf := new byte[bufSize - blockSize];
      ghost var full := tmpBuf[..];
      Memcpy(expBuf, 0, tmpBuf, 0, blockSize);
      ghost var half := expBuf[..];
      assert half[..blockSize] == full[..blockSize];
      Memcpy(expBuf, blockSize, tmpBuf, 2 * blockSize, bufSize - blockSize * 2);
      assert expBuf[..] == full[..blockSize] + full[2 * blockSize..];
      expBuf[blockSize] := 0;
      expBuf[blockSize - 1] := expBuf[blockSize];
    }

    /** On any file, at any position: the letters are written there, into storage found for the
        first three blocks. */
    method Test01() returns (r: Outcome)
      requires Ready()
      modifies this
      ensures Ready() && r == Passed
      ensures file == Filled(old(file), old(pos), blockSize) && pos == old(pos) + bufSize
      ensures old(Fresh()) ==> file == After(1, blockSize)
    {
      hide Letters, Block, Write, Valid, Allocate;
      Case1(blockSize);
      AllocateOk(file, 0, bufSize, blockSize);
      AllocateValid(file, 0, bufSize, blockSize);
      FilledValid(file, pos, blockSize);
      var ok := SetFile(Allocate(file, 0, bufSize, blockSize));
      if !ok { return FallocateFailed; }
      var buf := new byte[bufSize];
      FillTstBuf(buf);
      file := Write(file, pos, buf[..], blockSize);
      pos := pos + bufSize;
      r := Passed;
    }

    /** On any file: passes exactly when the file is `Punchable`. */
    method Test02() returns (r: Outcome)
      requires Ready()
      modifies this
      ensures Ready() && (r == Passed <==> Punchable(old(file), blockSize))
      ensures |old(file).bytes| >= bufSize && TwoHeld(old(file)) ==> r in {Passed, WrongData}
      ensures old(file) == After(1, blockSize) ==> r == Passed && file == After(2, blockSize)
    {
      hide Letters, Block, After, PunchHole, Count, Valid, Punchable;
      PunchableLetters(blockSize);
      LettersLength(NUM_OF_BLOCKS, blockSize);
      Case2(blockSize);
      Case2Iff(file, blockSize);
      PunchHoleValid(file, blockSize, blockSize, blockSize);
      var allocSize0 := GetAllocSize();
      var ok := SetFile(PunchHole(file, blockSize, blockSize, blockSize));
      if !ok { return FallocateFailed; }
      var hole := HoleAt(file, blockSize);
      if hole != blockSize { return WrongHole; }
      var allocSize1 := GetAllocSize();
      if allocSize0 - blockSize != allocSize1 { return WrongAllocation; }
      var expBuf := ZeroedLetters(blockSize, blockSize);
      var same := CheckFileData(expBuf);
      r := if same then Passed else WrongData;
    }

    /** On any file: passes exactly when the file is `Zeroable`. */
    method Test03() returns (r: Outcome)
      requires Ready()
      modifies this
      ensures Ready() && (r == Passed <==> Zeroable(old(file), blockSize))
      ensures old(file) == After(2, blockSize) ==> r == Passed && file == After(3, blockSize)
    {
      hide Letters, Block, After, ZeroRange, Count, Valid, Zeroable;
      Case3(blockSize);
      Case3Iff(file, blockSize);
      CasesFollow(blockSize);
      ZeroRangeValid(file, blockSize - 1, blockSize + 2, blockSize);
      var allocSize0 := GetAllocSize();
      var ok := SetFile(ZeroRange(file, blockSize - 1, blockSize + 2, blockSize));
      if !ok { return FallocateFailed; }
      var allocSize1 := GetAllocSize();
      if allocSize0 + blockSize != allocSize1 { return WrongAllocation; }
      var expBuf := ZeroedLetters(blockSize - 1, blockSize + 2);
      var same := CheckFileData(expBuf);
      r := if same then Passed else WrongData;
    }

    /** On any file: passes exactly when the file is `Collapsible`. */
    method Test04() returns (r: Outcome)
      requires Ready()
      modifies this
      ensures Ready() && (r == Passed <==> Collapsible(old(file), blockSize))
      ensures old(file) == After(3, blockSize) ==> r == Passed && file == After(4, blockSize)
    {
      hide Letters, Block, After, CollapseRange, Count, Valid, Collapsible;
      Case4(blockSize);
      Case4Iff(file, blockSize);
      CasesFollow(blockSize);
      if CollapseRange(file, blockSize, blockSize, blockSize).Ok? {
        CollapseRangeValid(file, blockSize, blockSize, blockSize);
      }
      var allocSize0 := GetAllocSize();
      var ok := SetFile(CollapseRange(file, blockSize, blockSize, blockSize));
      if !ok { return FallocateFailed; }
      var allocSize1 := GetAllocSize();
      if allocSize0 - blockSize != allocSize1 { return WrongAllocation; }
      var expBuf := CollapsedLetters();
      var same := CheckFileData(expBuf);
      r := if same then Passed else WrongData;
    }

    /** On any file: passes exactly when the file is `Insertable`. */
    method Test05() returns (r: Outcome)
      requires Ready()
      modifies this
      ensures Ready() && (r == Passed <==> Insertable(old(file), blockSize))
      ensures old(file) == After(4, blockSize) ==> r == Passed && Used()
    {
      hide Letters, Block, After, InsertRange, ZeroRange, Count, Valid, Insertable;
      Case5(blockSize);
      Case5Iff(file, blockSize);
      CasesFollow(blockSize);
      if InsertRange(file, blockSize, blockSize, blockSize).Ok? {
        InsertRangeValid(file, blockSize, blockSize, blockSize);
        ZeroRangeValid(InsertRange(file, blockSize, blockSize, blockSize).value, blockSize, blockSize, blockSize);
      }
      var allocSize0 := GetAllocSize();
      var ok := SetFile(InsertRange(file, blockSize, blockSize, blockSize));
      if !ok { return FallocateFailed; }
      ok := SetFile(ZeroRange(file, blockSize, blockSize, blockSize));
      if !ok { return FallocateFailed; }
      var allocSize1 := GetAllocSize();
      if allocSize0 + blockSize != allocSize1 { return WrongAllocation; }
      var expBuf := ZeroedLetters(blockSize - 1, blockSize + 2);
      var same := CheckFileData(expBuf);
      r := if same then Passed else WrongData;
    }

    /** One round: the cases in order, up to the first that breaks off. */
    method RunAll() returns (rs: seq<Outcome>)
      requires Ready() && (Fresh() || Used())
      modifies this
      ensures Ready()
      ensures old(Fresh()) ==> rs == [Passed, Passed, Passed, Passed, Passed] && Used()
      ensures old(Used()) ==> rs == [Passed, WrongData]
    {
      hide After, Valid, Punchable, Filled;
      SecondRound(blockSize);
      FreshNotUsed();
      var r1 := Test01();
      var r2 := Test02();
      rs := [r1, r2];
      if r2 == Passed {
        var r3 := Test03();
        var r4 := Test04();
        var r5 := Test05();
        rs := [r1, r2, r3, r4, r5];
      }
    }

    lemma FreshNotUsed()
      requires blockSize >= 1
      ensures !(Fresh() && Used())
    {}

    /** The test repeated on the same file: for every block size the first round passes all five
        cases, and a second round breaks off in its second case, which ends the test. */
    method Repeat(rounds: nat) returns (rs: seq<Outcome>)
      requires Ready() && Fresh()
      modifies this
      ensures rs == if rounds == 0 then [] else
                    [Passed, Passed, Passed, Passed, Passed] + if rounds == 1 then [] else [Passed, WrongData]
    {
      hide After, Valid;
      rs := [];
      FreshNotUsed();
      var n, stop := 0, false;
      while n < rounds && !stop
        invariant 0 <= n <= rounds && Ready()
        invariant !stop ==> n <= 1 && if n == 0 then Fresh() && rs == []
                                      else Used() && rs == [Passed, Passed, Passed, Passed, Passed]
        invariant stop ==> n == 2 && rs == [Passed, Passed, Passed, Passed, Passed, Passed, WrongData]
      {
        var round := RunAll();
        rs := rs + round;
        stop := round[|round| - 1] != Passed;
        n := n + 1;
      }
    }
  }
}
