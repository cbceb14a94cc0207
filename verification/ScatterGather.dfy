/**
 process_vm_readv03.c: one child fills randomly sized chunks with a byte pattern, another
 gathers them into differently sized chunks of its own and checks the pattern.
 */
module ScatterGather {
  import opened Basics

  // ---------- random sizes ----------

  function Sum(s: seq<int>): int {
    if s == [] then 0 else s[0] + Sum(s[1..])
  }

  lemma {:induction false} SumAppend(s: seq<int>, x: int)
    ensures Sum(s + [x]) == Sum(s) + x
  {
    if s == [] {
      assert s + [x] == [x];
    } else {
      SumAppend(s[1..], x);
      assert (s + [x])[1..] == s[1..] + [x];
    }
  }

  /** One draw, reduced to at most half of what is left. */
  function Draw(draw: nat, left: nat): (n: nat)
    ensures 2 * n <= left
  {
    draw % (left / 2 + 1)
  }

  /** Sizes as the draws determine them: each but the last takes at most half of what is left. */
  function Sizes(count: nat, left: nat, draws: seq<nat>): (s: seq<int>)
    requires 1 <= count <= |draws| + 1
    ensures |s| == count
  {
    if count == 1 then [left]
    else
      var n := Draw(draws[0], left);
      [n] + Sizes(count - 1, left - n, draws[1..])
  }

  lemma SizesStep(count: nat, left: nat, draws: seq<nat>)
    requires 2 <= count <= |draws| + 1
    ensures var s, n := Sizes(count, left, draws), Draw(draws[0], left);
            s[0] == n && s[1..] == Sizes(count - 1, left - n, draws[1..])
  {
    hide Draw;
  }

  lemma SizesLast(left: nat, draws: seq<nat>)
    ensures Sizes(1, left, draws) == [left]
  {}

  /** Whatever is drawn, the sizes are non-negative, sum to the buffer size, and no size but
      the last exceeds half of what the earlier ones left. */
  lemma {:induction false} SizesPartition(count: nat, left: nat, draws: seq<nat>)
    requires 1 <= count <= |draws| + 1
    ensures var s := Sizes(count, left, draws);
            && Sum(s) == left
            && (forall i | 0 <= i < count :: s[i] >= 0)
            && (forall i | 0 <= i < count - 1 :: 2 * s[i] <= left - Sum(s[..i]))
  {
    hide Draw;
    var s := Sizes(count, left, draws);
    if count <= 1 {
    } else {
      var n := Draw(draws[0], left);
      SizesPartition(count - 1, left - n, draws[1..]);
      forall i | 0 <= i < count - 1 ensures 2 * s[i] <= left - Sum(s[..i]) {
        if i > 0 {
          assert s[..i] == [n] + s[1..][..i - 1];
          assert s[i] == s[1..][i - 1];
        }
      }
    }
  }

  lemma {:induction false} SizesAreDraws(count: nat, left: nat, draws: seq<nat>, i: nat)
    requires i + 1 < count <= |draws| + 1
    ensures var s := Sizes(count, left, draws);
            Sum(s[..i]) <= left && s[i] == Draw(draws[i], left - Sum(s[..i]))
    decreases count
  {
    hide Draw, Sizes;
    var s, n := Sizes(count, left, draws), Draw(draws[0], left);
    SizesStep(count, left, draws);
    if i == 0 {
      assert s[..0] == [];
    } else {
      SizesAreDraws(count - 1, left - n, draws[1..], i - 1);
      var t := s[1..];
      assert s[..i] == [n] + t[..i - 1];
      SumCons(n, t[..i - 1]);
      assert s[i] == t[i - 1] && draws[i] == draws[1..][i - 1];
    }
  }

  /** Each size but the last is its draw modulo one more than half of what the earlier ones left. */
  lemma SizesDrawn(count: nat, left: nat, draws: seq<nat>, i: nat)
    requires i + 1 < count <= |draws| + 1
    ensures var s := Sizes(count, left, draws);
            Sum(s[..i]) <= left && s[i] == draws[i] % ((left - Sum(s[..i])) / 2 + 1)
  {
    hide Sizes, Sum;
    SizesAreDraws(count, left, draws, i);
    DrawIs(draws[i], left - Sum(Sizes(count, left, draws)[..i]));
  }

  lemma DrawIs(draw: nat, left: nat)
    ensures Draw(draw, left) == draw % (left / 2 + 1)
  {}

  lemma SumCons(x: int, s: seq<int>)
    ensures Sum([x] + s) == x + Sum(s)
  {}

  /** create_data_size; `draws` are the values rand() returns. */
  method CreateDataSize(arr: array<int>, buffsize: nat, draws: seq<nat>)
    requires 1 <= arr.Length <= |draws| + 1
    modifies arr
    ensures arr[..] == Sizes(arr.Length, buffsize, draws)
  {
    hide Sizes, Draw;
    var left: nat := buffsize;
    var i := 0;
    ghost var want := Sizes(arr.Length, buffsize, draws);
    assert draws[0..] == draws;
    while i < arr.Length - 1
      invariant 0 <= i < arr.Length
      invariant Sizes(arr.Length - i, left, draws[i..]) == want[i..]
      invariant forall k | 0 <= k < i :: arr[k] == want[k]
    {
      SizesStep(arr.Length - i, left, draws[i..]);
      assert draws[i..][1..] == draws[i + 1..];
      arr[i] := Draw(draws[i], left);
      left := left - arr[i];
      i := i + 1;
    }
    SizesLast(left, draws[i..]);
    arr[arr.Length - 1] := left;
  }

  // ---------- chunks in memory ----------

  function Flatten(chunks: seq<seq<byte>>): seq<byte> {
    if chunks == [] then [] else chunks[0] + Flatten(chunks[1..])
  }

  lemma {:induction false} FlattenAppend(chunks: seq<seq<byte>>, c: seq<byte>)
    ensures Flatten(chunks + [c]) == Flatten(chunks) + c
  {
    if chunks == [] {
      assert chunks + [c] == [c];
      assert Flatten([c]) == c + Flatten([]);
    } else {
      FlattenAppend(chunks[1..], c);
      assert (chunks + [c])[1..] == chunks[1..] + [c];
    }
  }

  function Lengths(chunks: seq<seq<byte>>): seq<int> {
    seq(|chunks|, i requires 0 <= i < |chunks| => |chunks[i]|)
  }

  lemma {:induction false} FlattenLength(chunks: seq<seq<byte>>)
    ensures |Flatten(chunks)| == Sum(Lengths(chunks))
  {
    if chunks == [] {
    } else {
      FlattenLength(chunks[1..]);
      assert Lengths(chunks)[1..] == Lengths(chunks[1..]);
    }
  }

  /** The bytes count up from `start` modulo 256. */
  ghost predicate Counting(start: int, bytes: seq<byte>) {
    forall k | 0 <= k < |bytes| :: bytes[k] == Tick(start + k)
  }

  /** What storing a count in a byte leaves of it. */
  function Tick(count: int): byte {
    count % 256
  }

  lemma CountingAppend(start: int, a: seq<byte>, b: seq<byte>)
    requires Counting(start, a) && Counting(start + |a|, b)
    ensures Counting(start, a + b)
  {
    hide Tick;
    forall k | 0 <= k < |a + b| ensures (a + b)[k] == Tick(start + k) {
      if k >= |a| {
        assert (a + b)[k] == b[k - |a|] == Tick(start + |a| + (k - |a|));
      }
    }
  }

  lemma LengthsAppend(cs: seq<seq<byte>>, c: seq<byte>)
    ensures Lengths(cs + [c]) == Lengths(cs) + [|c|]
  {}

  ghost function Chunk(p: array?<byte>): seq<byte>
    reads p
  {
    if p == null then [] else p[..]
  }

  /** The chunks in memory hold these bytes. */
  ghost predicate Holds(ps: seq<array?<byte>>, cs: seq<seq<byte>>)
    reads ps
  {
    |ps| == |cs| && forall i | 0 <= i < |ps| :: Chunk(ps[i]) == cs[i]
  }

  ghost predicate Distinct(ps: seq<array?<byte>>) {
    forall i, j | 0 <= i < j < |ps| && ps[i] != null :: ps[i] != ps[j]
  }

  /** The inner loop of child_alloc. */
  method FillChunk(size: nat, base: nat) returns (p: array?<byte>, count: nat)
    ensures p == null <==> size == 0
    ensures p != null ==> fresh(p)
    ensures |Chunk(p)| == size && Counting(base, Chunk(p)) && count == base + size
    ensures forall k | 0 <= k < size :: Chunk(p)[k] == (base + k) % 256
  {
    p, count := null, base;
    if size != 0 {
      var a := new byte[size];
      var j := 0;
      while j < size
        invariant 0 <= j <= size && count == base + j
        invariant forall k | 0 <= k < j :: a[k] == Tick(base + k)
      {
        a[j] := Tick(count);
        count, j := count + 1, j + 1;
      }
      p := a;
    }
    CountingIs(base, Chunk(p));
  }

  /** In the terms of the source: byte k is the count k modulo 256. */
  lemma CountingIs(start: nat, bytes: seq<byte>)
    ensures Counting(start, bytes) <==> forall k | 0 <= k < |bytes| :: bytes[k] == (start + k) % 256
  {}

  lemma AllocStep(cs: seq<seq<byte>>, c: seq<byte>, sizes: seq<int>)
    requires |cs| < |sizes| && Lengths(cs) == sizes[..|cs|] && |c| == sizes[|cs|]
    requires Counting(0, Flatten(cs)) && Counting(|Flatten(cs)|, c)
    ensures Lengths(cs + [c]) == sizes[..|cs| + 1] && Counting(0, Flatten(cs + [c]))
    ensures |Flatten(cs + [c])| == |Flatten(cs)| + |c|
  {
    hide Counting, Lengths;
    FlattenAppend(cs, c);
    CountingAppend(0, Flatten(cs), c);
    LengthsAppend(cs, c);
    assert sizes[..|cs| + 1] == sizes[..|cs|] + [sizes[|cs|]];
  }

  /** Each size has its chunk: none for 0, else one of the method's own making. */
  twostate predicate Allocated(sizes: seq<int>, new ps: seq<array?<byte>>)
    requires |ps| <= |sizes|
  {
    && Distinct(ps)
    && forall k | 0 <= k < |ps| :: (ps[k] == null <==> sizes[k] == 0) && (ps[k] != null ==> fresh(ps[k]))
  }

  /** child_alloc: chunk i gets sizes[i] bytes (none at all for 0), filled with the running
      count modulo 256. */
  method ChildAlloc(sizes: seq<int>) returns (ps: seq<array?<byte>>, ghost cs: seq<seq<byte>>)
    requires forall i | 0 <= i < |sizes| :: sizes[i] >= 0
    ensures |ps| == |sizes| && Allocated(sizes, ps)
    ensures Holds(ps, cs) && Lengths(cs) == sizes && Counting(0, Flatten(cs))
    ensures forall k | 0 <= k < |Flatten(cs)| :: Flatten(cs)[k] == k % 256
  {
    hide Flatten, Lengths, Counting, Chunk;
    ps, cs := [], [];
    var count, i := 0, 0;
    FlattenNothing();
    while i < |sizes|
      invariant 0 <= i == |ps| <= |sizes| && Allocated(sizes, ps)
      invariant Holds(ps, cs) && Lengths(cs) == sizes[..i]
      invariant count == |Flatten(cs)| && Counting(0, Flatten(cs))
    {
      var p, c := FillChunk(sizes[i], count);
      AllocStep(cs, Chunk(p), sizes);
      ps, count, i := ps + [p], c, i + 1;
      cs := cs + [Chunk(p)];
    }
    assert sizes[..i] == sizes;
    CountingIs(0, Flatten(cs));
  }

  lemma FlattenNothing()
    ensures Flatten([]) == [] && Lengths([]) == [] && Counting(0, [])
  {}

  /** The first bytes of `flat` have replaced those of the chunks, as far as both reach. */
  ghost predicate Scattered(flat: seq<byte>, was: seq<seq<byte>>, now: seq<seq<byte>>, ret: nat) {
    && ret == Min(|Flatten(was)|, |flat|)
    && Flatten(now) == flat[..ret] + Flatten(was)[ret..]
    && Lengths(now) == Lengths(was)
  }

  lemma ScatterNothing(flat: seq<byte>)
    ensures Scattered(flat, [], [], 0)
  {}

  lemma ScatterStep(flat: seq<byte>, was: seq<seq<byte>>, now: seq<seq<byte>>, r0: nat, c: seq<byte>, r1: nat)
    requires Scattered(flat, was, now, r0) && r1 == Min(r0 + |c|, |flat|) && r0 <= r1
    ensures r1 - r0 <= |c| && r1 <= |flat|
    ensures Scattered(flat, was + [c], now + [flat[r0..r1] + c[r1 - r0..]], r1)
  {
    hide Lengths, Flatten;
    var d := flat[r0..r1] + c[r1 - r0..];
    FlattenAppend(was, c);
    FlattenAppend(now, d);
    LengthsAppend(was, c);
    LengthsAppend(now, d);
    var w := Flatten(was);
    if r0 == |w| {
      assert w[r0..] == [];
      assert (w + c)[r1..] == c[r1 - r0..];
    } else {
      assert r1 == r0 == |flat|;
      assert (w + c)[r1..] == w[r0..] + c;
    }
  }

  /** Overwrites a chunk from its start with what `flat` has from position `ret` on. */
  method FillFrom(p: array<byte>, flat: seq<byte>, ret: nat) returns (ret': nat)
    requires ret <= |flat|
    modifies p
    ensures ret' == Min(ret + p.Length, |flat|)
    ensures p[..] == flat[ret..ret'] + old(p[..])[ret' - ret..]
  {
    forall j | 0 <= j < p.Length && ret + j < |flat| {
      p[j] := flat[ret + j];
    }
    ret' := if ret + p.Length < |flat| then ret + p.Length else |flat|;
  }

  /** The first n bytes, or all there are. */
  function Take(bytes: seq<byte>, n: nat): seq<byte> {
    if n < |bytes| then bytes[..n] else bytes
  }

  /** The kernel's transfer: the remote chunks laid end to end fill the local ones in order, as
      far as both reach, and no further than the number of bytes the kernel is willing to move. */
  method ProcessVmReadv(local: seq<array?<byte>>, remote: seq<array?<byte>>, willing: nat,
                        ghost was: seq<seq<byte>>, ghost src: seq<seq<byte>>)
    returns (ret: nat, ghost now: seq<seq<byte>>)
    requires Distinct(local) && Holds(local, was) && Holds(remote, src)
    requires forall i, j | 0 <= i < |local| && 0 <= j < |remote| && local[i] != null :: local[i] != remote[j]
    modifies local
    ensures Holds(local, now) && Scattered(Take(Flatten(src), willing), was, now, ret)
  {
    hide Lengths, Flatten, Scattered;
    FlattenNothing();
    var flat := [];
    for i := 0 to |remote|
      modifies {}
      invariant flat == Flatten(src[..i])
    {
      assert src[..i + 1] == src[..i] + [src[i]];
      FlattenAppend(src[..i], src[i]);
      flat := flat + if remote[i] == null then [] else remote[i][..];
    }
    assert src[..|remote|] == src;
    flat := Take(flat, willing);
    hide Take;
    ret, now := 0, [];
    ScatterNothing(flat);
    for i := 0 to |local|
      invariant forall k | i <= k < |local| :: Chunk(local[k]) == was[k]
      invariant |now| == i && forall k | 0 <= k < i :: Chunk(local[k]) == now[k]
      invariant Scattered(flat, was[..i], now, ret) && ret <= |flat|
    {
      ghost var r0 := ret;
      var p := local[i];
      if p != null {
        assert forall k | 0 <= k < |local| && k != i :: local[k] != p;
        ret := FillFrom(p, flat, ret);
      }
      ScatterStep(flat, was[..i], now, r0, was[i], ret);
      assert Chunk(p) == flat[r0..ret] + was[i][ret - r0..];
      assert was[..i + 1] == was[..i] + [was[i]];
      now := now + [Chunk(p)];
    }
    assert was[..|local|] == was;
  }

  // ---------- checking ----------

  /** How many bytes differ from the count that runs past them. */
  function Errors(start: int, bytes: seq<byte>): nat
    decreases |bytes|
  {
    if bytes == [] then 0
    else (if bytes[0] == Tick(start) then 0 else 1) + Errors(start + 1, bytes[1..])
  }

  lemma {:induction false} ErrorsAppend(start: int, a: seq<byte>, b: seq<byte>)
    ensures Errors(start, a + b) == Errors(start, a) + Errors(start + |a|, b)
    decreases |a|
  {
    hide Tick;
    if a == [] {
      assert a + b == b;
    } else {
      ErrorsAppend(start + 1, a[1..], b);
      assert (a + b)[1..] == a[1..] + b;
    }
  }

  /** No error is counted exactly when the bytes count up from the start. */
  lemma {:induction false} NoErrors(start: nat, bytes: seq<byte>)
    ensures Errors(start, bytes) == 0 <==> forall k | 0 <= k < |bytes| :: bytes[k] == (start + k) % 256
    decreases |bytes|
  {
    if bytes == [] {
    } else {
      var rest := bytes[1..];
      NoErrors(start + 1, rest);
      assert forall k | 0 <= k < |rest| :: rest[k] == bytes[k + 1];
      if Errors(start, bytes) == 0 {
        forall k | 0 <= k < |bytes| ensures bytes[k] == (start + k) % 256 {
          if k > 0 { assert rest[k - 1] == (start + 1 + (k - 1)) % 256; }
        }
      }
      if forall k | 0 <= k < |bytes| :: bytes[k] == (start + k) % 256 {
        forall k | 0 <= k < |rest| ensures rest[k] == (start + 1 + k) % 256 {
          assert bytes[k + 1] == (start + (k + 1)) % 256;
        }
      }
    }
  }

  /** The positions below n at which a byte is not the count modulo 256. */
  ghost function Wrong(bytes: seq<byte>, n: nat): set<nat>
    requires n <= |bytes|
  {
    set k: nat | k < n && bytes[k] != k % 256
  }

  /** The errors counted are the positions whose byte is off. */
  lemma {:induction false} ErrorsAreWrong(bytes: seq<byte>, n: nat)
    requires n <= |bytes|
    ensures Errors(0, bytes[..n]) == |Wrong(bytes, n)|
  {
    if n == 0 {
      assert Wrong(bytes, 0) == {};
    } else {
      hide Errors;
      var k := n - 1;
      ErrorsAreWrong(bytes, k);
      assert bytes[..n] == bytes[..k] + [bytes[k]];
      ErrorsAppend(0, bytes[..k], [bytes[k]]);
      ErrorsOne(k, bytes[k]);
      var here: set<nat> := if bytes[k] != k % 256 then {k} else {};
      assert Wrong(bytes, n) == Wrong(bytes, k) + here && k !in Wrong(bytes, k);
    }
  }

  /** The check at the end of child_read counts exactly the bytes that are off. */
  method CountErrors(local: seq<array?<byte>>, ghost cs: seq<seq<byte>>) returns (nrError: nat)
    requires Holds(local, cs)
    ensures nrError == Errors(0, Flatten(cs)) == |Wrong(Flatten(cs), |Flatten(cs)|)|
  {
    hide Flatten, Errors;
    FlattenNothing();
    ErrorsNothing(0);
    var count := 0;
    nrError := 0;
    for i := 0 to |local|
      invariant count == |Flatten(cs[..i])| && nrError == Errors(0, Flatten(cs[..i]))
    {
      ghost var base, errs := count, nrError;
      assert cs[..i + 1] == cs[..i] + [cs[i]];
      FlattenAppend(cs[..i], cs[i]);
      var len := if local[i] == null then 0 else local[i].Length;
      ErrorsNothing(base);
      for j := 0 to len
        invariant count == base + j && len == |cs[i]|
        invariant nrError == errs + Errors(base, cs[i][..j])
      {
        ErrorsAppend(base, cs[i][..j], [cs[i][j]]);
        ErrorsOne(base + j, cs[i][j]);
        assert cs[i][..j + 1] == cs[i][..j] + [cs[i][j]];
        if Tick(count) != local[i][j] {
          nrError := nrError + 1;
        }
        count := count + 1;
      }
      assert cs[i][..len] == cs[i];
      ErrorsAppend(0, Flatten(cs[..i]), cs[i]);
    }
    assert cs[..|local|] == cs;
    ErrorsAreWrong(Flatten(cs), |Flatten(cs)|);
    assert Flatten(cs)[..|Flatten(cs)|] == Flatten(cs);
  }

  lemma ErrorsNothing(start: int)
    ensures Errors(start, []) == 0
  {}

  lemma ErrorsOne(start: int, b: byte)
    ensures Errors(start, [b]) == if b == start % 256 then 0 else 1
  {
    ErrorsNothing(start + 1);
  }

  datatype Report = ShortTransfer | Incorrect(errors: nat) | AllCorrect

  lemma NoErrorsUpTo(bytes: seq<byte>, n: nat)
    ensures n <= |bytes| ==> (Errors(0, bytes[..n]) == 0 <==> forall k | 0 <= k < n :: bytes[k] == k % 256)
  {
    hide Errors;
    if n <= |bytes| {
      NoErrors(0, bytes[..n]);
      assert forall k | 0 <= k < n :: bytes[..n][k] == bytes[k];
    }
  }

  /** child_read: allocates its own partition, asks for the transfer and checks every byte. */
  method ChildRead(localIovecs: nat, buffsize: nat, draws: seq<nat>, willing: nat, remote: seq<array?<byte>>,
                   ghost src: seq<seq<byte>>)
    returns (r: Report)
    requires 1 <= localIovecs <= |draws| + 1 && Holds(remote, src)
    ensures r == if buffsize > willing || buffsize > |Flatten(src)| then ShortTransfer
                 else if Errors(0, Flatten(src)[..buffsize]) != 0 then Incorrect(Errors(0, Flatten(src)[..buffsize]))
                 else AllCorrect
    ensures r == AllCorrect <==>
              && buffsize <= willing && buffsize <= |Flatten(src)|
              && forall k | 0 <= k < buffsize :: Flatten(src)[k] == k % 256
  {
    hide Tick, Flatten, Errors, Lengths, Counting;
    NoErrorsUpTo(Flatten(src), buffsize);
    var sizes := new int[localIovecs];
    CreateDataSize(sizes, buffsize, draws);
    SizesPartition(localIovecs, buffsize, draws);
    var local, was := ChildBuffers(sizes[..]);
    FlattenLength(was);
    var ret, now := ProcessVmReadv(local, remote, willing, was, src);
    FlattenLength(now);
    assert |Flatten(was)| == buffsize;
    if ret != buffsize {
      return ShortTransfer;
    }
    assert Flatten(was)[ret..] == [];
    assert Flatten(now) == Flatten(src)[..ret];
    var errors := CountErrors(local, now);
    r := if errors != 0 then Incorrect(errors) else AllCorrect;
  }

  /** malloc of each local chunk; what it contains is arbitrary. */
  method ChildBuffers(sizes: seq<int>) returns (ps: seq<array?<byte>>, ghost cs: seq<seq<byte>>)
    requires forall i | 0 <= i < |sizes| :: sizes[i] >= 0
    ensures |ps| == |sizes| && Distinct(ps) && forall k | 0 <= k < |ps| && ps[k] != null :: fresh(ps[k])
    ensures Holds(ps, cs) && Lengths(cs) == sizes
  {
    ps, cs := [], [];
    for i := 0 to |sizes|
      invariant |ps| == i && Distinct(ps) && forall k | 0 <= k < i && ps[k] != null :: fresh(ps[k])
      invariant Holds(ps, cs) && forall k | 0 <= k < i :: |cs[k]| == sizes[k]
    {
      var p := new byte[sizes[i]];
      ps, cs := ps + [p], cs + [p[..]];
    }
  }

  /** The whole test: for any buffer size, any two chunk counts and any draws, the reader finds
      every byte where the writer's count left it, unless the kernel cuts the transfer short. */
  method RunTest(bufsize: nat, remoteIovecs: nat, localIovecs: nat, draws: seq<nat>, draws': seq<nat>, willing: nat)
    returns (r: Report)
    requires 1 <= remoteIovecs <= |draws| + 1 && 1 <= localIovecs <= |draws'| + 1
    ensures r == if willing < bufsize then ShortTransfer else AllCorrect
  {
    var sizes := new int[remoteIovecs];
    CreateDataSize(sizes, bufsize, draws);
    SizesPartition(remoteIovecs, bufsize, draws);
    var remote, src := ChildAlloc(sizes[..]);
    FlattenLength(src);
    NoErrors(0, Flatten(src));
    assert Flatten(src)[..bufsize] == Flatten(src);
    r := ChildRead(localIovecs, bufsize, draws', willing, remote, src);
  }
}
