/**
 copy_file_range01.c: a loop copies a range between two files while the kernel is free to copy
 less than asked, and two checkers look at the contents and the offsets afterwards.
 */
module CopyRange {
  import opened Basics

  const CONTENT: string := "ABCDEFGHIJKLMNOPQRSTUVWXYZ12345\n"
  const LINE: nat := 32
  const EOF: int := -1

  // ---------- when the loop can end ----------

  /** What one call may report when `toCopy` bytes are wanted from position `from`. */
  predicate Legal(size: nat, from: nat, toCopy: nat, ret: nat) {
    if toCopy == 0 || from >= size then ret == 0 else 1 <= ret <= Min(toCopy, size - from)
  }

  /** The calls of a loop that starts with `toCopy` to go, one after the other. */
  predicate LegalRun(size: nat, from: nat, toCopy: nat, rets: seq<nat>)
    decreases |rets|
  {
    rets == [] || (Legal(size, from, toCopy, rets[0]) && rets[0] <= toCopy
                   && LegalRun(size, from + rets[0], toCopy - rets[0], rets[1..]))
  }

  function Total(rets: seq<nat>): nat {
    if rets == [] then 0 else rets[0] + Total(rets[1..])
  }

  /** No run copies more than was asked, nor more than the source has. */
  lemma {:induction false} RunBounds(size: nat, from: nat, toCopy: nat, rets: seq<nat>)
    requires LegalRun(size, from, toCopy, rets)
    ensures Total(rets) <= toCopy && (Total(rets) > 0 ==> from + Total(rets) <= size)
    decreases |rets|
  {
    if rets == [] {
    } else {
      RunBounds(size, from + rets[0], toCopy - rets[0], rets[1..]);
    }
  }

  /** The loop has a run that ends exactly when the range lies inside the source file... */
  lemma EndsIffInside(size: nat, from: nat, len: nat)
    requires len > 0
    ensures (exists rets :: LegalRun(size, from, len, rets) && Total(rets) == len) <==> from + len <= size
  {
    if rets :| LegalRun(size, from, len, rets) && Total(rets) == len {
      RunBounds(size, from, len, rets);
    }
    if from + len <= size {
      var once: seq<nat> := [len];
      assert once[1..] == [] && Total(once) == len + Total(once[1..]);
      assert LegalRun(size, from, len, once);
    }
  }

  /** ... and inside it every run ends: it makes no more calls than there are bytes. */
  lemma {:induction false} InsideAlwaysEnds(size: nat, from: nat, toCopy: nat, rets: seq<nat>)
    requires from + toCopy <= size && LegalRun(size, from, toCopy, rets) && |rets| >= toCopy
    ensures Total(rets) == toCopy
    decreases |rets|
  {
    RunBounds(size, from, toCopy, rets);
    if rets == [] || toCopy == 0 {
    } else {
      InsideAlwaysEnds(size, from + rets[0], toCopy - rets[0], rets[1..]);
    }
  }

  // ---------- files ----------

  function Zeros(n: nat): (z: seq<byte>)
    ensures |z| == n && forall k | 0 <= k < n :: z[k] == 0
  {
    seq(n, _ => 0)
  }

  /** The file after writing `data` at an offset, which may lie behind its end. */
  function WriteAt(f: seq<byte>, off: nat, data: seq<byte>): seq<byte> {
    var g := if |f| < off + |data| then f + Zeros(off + |data| - |f|) else f;
    g[..off] + data + g[off + |data|..]
  }

  /** Writing a range in two adjacent pieces is writing it at once. */
  lemma WriteTwice(f: seq<byte>, off: nat, a: seq<byte>, b: seq<byte>)
    ensures WriteAt(WriteAt(f, off, a), off + |a|, b) == WriteAt(f, off, a + b)
  {}

  lemma Adjacent(f: seq<byte>, from: nat, m: nat, n: nat)
    requires from + m + n <= |f|
    ensures f[from..from + m] + f[from + m..from + m + n] == f[from..from + (m + n)]
  {}

  /** A range written into an empty file reads back as it was. */
  lemma Pasted(f: seq<byte>, from: nat, to: nat, len: nat)
    requires len > 0 && from + len <= |f|
    ensures var g := WriteAt([], to, f[from..from + len]);
            g == Zeros(to) + f[from..from + len] && SameContent(f, g, from, to, len)
  {
    var g := WriteAt([], to, f[from..from + len]);
    assert g == Zeros(to) + f[from..from + len];
  }

  function GetC(f: seq<byte>, k: nat): int {
    if k < |f| then f[k] else EOF
  }

  function From(off: Option<nat>): nat {
    if off.Some? then off.value else 0
  }

  /** check_file_content looks at the first character even when nothing was to be copied. */
  ghost predicate SameContent(f: seq<byte>, g: seq<byte>, off1: nat, off2: nat, len: nat) {
    forall k | 0 <= k < Max(len, 1) :: Agree(f, g, off1, off2, k)
  }

  predicate Agree(f: seq<byte>, g: seq<byte>, off1: nat, off2: nat, k: nat) {
    GetC(f, off1 + k) == GetC(g, off2 + k)
  }

  method CheckFileContent(f: seq<byte>, g: seq<byte>, off1: Option<nat>, off2: Option<nat>, len: nat) returns (r: int)
    ensures r == if SameContent(f, g, From(off1), From(off2), len) then 0 else 1
  {
    var p1, p2, count := From(off1), From(off2), 0;
    var ch1, ch2 := GetC(f, p1), GetC(g, p2);
    count := count + 1;
    while count < len && ch1 == ch2
      invariant 1 <= count <= Max(len, 1)
      invariant ch1 == GetC(f, p1 + count - 1) && ch2 == GetC(g, p2 + count - 1)
      invariant forall k | 0 <= k < count - 1 :: Agree(f, g, p1, p2, k)
    {
      assert Agree(f, g, p1, p2, count - 1);
      ch1, ch2 := GetC(f, p1 + count), GetC(g, p2 + count);
      count := count + 1;
    }
    assert ch1 == ch2 <==> Agree(f, g, p1, p2, count - 1);
    r := if ch1 == ch2 then 0 else 1;
  }

  predicate GoodOffset(fdOff: nat, len: nat, before: Option<nat>, after: Option<nat>) {
    if before.Some? then fdOff == 0 && after == Some(before.value + len) else fdOff == len
  }

  method CheckFileOffset(fdOff: nat, len: nat, before: Option<nat>, after: Option<nat>) returns (r: int)
    requires before.Some? <==> after.Some?
    ensures r == if GoodOffset(fdOff, len, before, after) then 0 else 1
  {
    r := 0;
    if before.Some? {
      if fdOff != 0 {
        r := 1;
      } else if before.value + len != after.value {
        r := 1;
      }
    } else if fdOff != len {
      r := 1;
    }
  }

  /** Character k of the line as a byte. */
  function Char(k: int): byte {
    if 0 <= k < |CONTENT| then CONTENT[k] as int % 256 else 0
  }

  lemma CharIs()
    ensures |CONTENT| == LINE && forall k | 0 <= k < LINE :: Char(k) == CONTENT[k] as int
  {}

  lemma LineLength()
    ensures |CONTENT| == LINE
  {}

  lemma InLine(k: int, i: nat)
    requires i * 32 <= k < i * 32 + 32
    ensures k % 32 == k - i * 32
  {}

  // ---------- the test process ----------

  /** A job that has been run: what was asked for, whether it counted as an error, and what it
      left in the destination. */
  datatype Job = Job(len: nat, offIn: Option<nat>, offOut: Option<nat>, failed: bool, dst: seq<byte>)

  function Failures(jobs: seq<Job>): nat {
    if jobs == [] then 0 else Failures(jobs[..|jobs| - 1]) + if jobs[|jobs| - 1].failed then 1 else 0
  }

  lemma FailuresSnoc(jobs: seq<Job>, job: Job)
    ensures Failures(jobs + [job]) == Failures(jobs) + if job.failed then 1 else 0
  {
    assert (jobs + [job])[..|jobs|] == jobs;
  }

  /** The lengths and the offsets of the test, for a page size. */
  ghost predicate IsLength(len: nat, i: int, pageSize: nat) {
    || (i == 0 && len == 11) || (i == 1 && len == pageSize - 1)
    || (i == 2 && len == pageSize) || (i == 3 && len == pageSize + 1)
  }

  ghost predicate IsOffset(off: Option<nat>, j: int, pageSize: nat) {
    || (j == 0 && off == None) || (j == 1 && off == Some(0)) || (j == 2 && off == Some(17))
    || (j == 3 && pageSize > 0 && off == Some(pageSize - 1))
    || (j == 4 && off == Some(pageSize)) || (j == 5 && off == Some(pageSize + 1))
  }

  /** The combination job n of the triple loop tries. */
  ghost predicate At(len: nat, offIn: Option<nat>, offOut: Option<nat>, n: int, pageSize: nat) {
    IsLength(len, n / 36, pageSize) && IsOffset(offIn, n / 6 % 6, pageSize) && IsOffset(offOut, n % 6, pageSize)
  }

  /** The destination holds the range at its offset, behind zeros. */
  ghost predicate Delivered(job: Job, src: seq<byte>) {
    && From(job.offIn) + job.len <= |src|
    && job.dst == Zeros(From(job.offOut)) + src[From(job.offIn)..From(job.offIn) + job.len]
  }

  lemma LoopIndex(i: nat, j: nat, k: nat)
    requires j < 6 && k < 6
    ensures var n := 36 * i + 6 * j + k; n / 36 == i && n / 6 % 6 == j && n % 6 == k
  {
    var n := 36 * i + 6 * j + k;
    assert n / 6 == 6 * i + j;
  }

  class CopyTest {
    /** Whether the kernel keeps to what it promises; the checkers are there to find out. */
    const sound: bool
    var src: seq<byte>
    var dst: seq<byte>
    var posIn: nat
    var posOut: nat
    var errcount: nat
    var numcopies: nat
    /** How many calls the kernel has answered with -1. */
    var refused: nat
    ghost var log: seq<Job>

    constructor (sound: bool)
      ensures this.sound == sound && src == [] && log == [] && errcount == numcopies == refused == 0
    {
      this.sound, log := sound, [];
      src, dst, posIn, posOut := [], [], 0, 0;
      errcount, numcopies, refused := 0, 0, 0;
    }

    /** The loop in verify_cross_fs_copy_support that makes the source file: the line over and
        over again. */
    method BuildSource(pageSize: nat)
      requires src == []
      modifies this`src
      ensures |src| == pageSize * 4 * LINE
      ensures forall k | 0 <= k < |src| :: src[k] == Char(k % LINE)
      ensures forall k | 0 <= k < LINE :: Char(k) == CONTENT[k] as int
    {
      CharIs();
      hide Char;
      LineLength();
      var line: seq<byte> := seq(32, k requires 0 <= k < 32 => Char(k));
      var i := 0;
      while i < pageSize * 4
        invariant 0 <= i <= pageSize * 4 && |src| == i * 32
        invariant forall k | 0 <= k < |src| :: src[k] == Char(k % 32)
      {
        ghost var was := src;
        src := src + line;
        forall k | |was| <= k < |src| ensures src[k] == Char(k % 32) {
          InLine(k, i);
          assert src[k] == line[k - i * 32];
        }
        i := i + 1;
      }
    }

    /** open_files: both positions 0, the destination truncated. */
    method OpenFiles()
      modifies this`dst, this`posIn, this`posOut
      ensures Opened()
    {
      dst, posIn, posOut := [], 0, 0;
    }

    predicate Opened()
      reads this
    {
      dst == [] && posIn == 0 && posOut == 0
    }

    function Start(off: Option<nat>, pos: nat): nat {
      if off.Some? then off.value else pos
    }

    /** The kernel call: it may refuse, and else copies some of what it can, at least one byte
        unless there is nothing to copy, and moves either the given offset or the position.  A
        kernel that is not sound makes progress, and may leave anything behind. */
    method SysCopyFileRange(offIn: Option<nat>, offOut: Option<nat>, len: nat)
      returns (ret: int, offIn': Option<nat>, offOut': Option<nat>)
      modifies this`dst, this`posIn, this`posOut, this`refused
      ensures ret == -1 ==> offIn' == offIn && offOut' == offOut && refused == old(refused) + 1
                            && dst == old(dst) && posIn == old(posIn) && posOut == old(posOut)
      ensures ret != -1 ==>
                && 0 <= ret <= len && refused == old(refused)
                && (offIn'.Some? <==> offIn.Some?) && (offOut'.Some? <==> offOut.Some?)
      ensures ret != -1 && !sound && len > 0 ==> ret > 0
      ensures ret != -1 && sound ==>
                var from, to := old(Start(offIn, posIn)), old(Start(offOut, posOut));
                && Legal(|src|, from, len, ret)
                && (ret > 0 ==> from + ret <= |src| && dst == WriteAt(old(dst), to, src[from..from + ret]))
                && (ret == 0 ==> dst == old(dst))
                && offIn' == (if offIn.Some? then Some(offIn.value + ret) else None)
                && offOut' == (if offOut.Some? then Some(offOut.value + ret) else None)
                && posIn == (if offIn.Some? then old(posIn) else old(posIn) + ret)
                && posOut == (if offOut.Some? then old(posOut) else old(posOut) + ret)
    {
      hide WriteAt;
      var refuse := *;
      if refuse {
        refused := refused + 1;
        return -1, offIn, offOut;
      }
      if !sound {
        ret, offIn', offOut' := Misbehave(offIn, offOut, len);
        return;
      }
      var from, to := Start(offIn, posIn), Start(offOut, posOut);
      var n: nat := 0;
      if len > 0 && from < |src| {
        var most := Min(len, |src| - from);
        n :| 1 <= n <= most;
        dst := WriteAt(dst, to, src[from..from + n]);
      }
      ret := n;
      if offIn.Some? { offIn' := Some(offIn.value + n); } else { offIn' := None; posIn := posIn + n; }
      if offOut.Some? { offOut' := Some(offOut.value + n); } else { offOut' := None; posOut := posOut + n; }
    }

    method Misbehave(offIn: Option<nat>, offOut: Option<nat>, len: nat)
      returns (ret: int, offIn': Option<nat>, offOut': Option<nat>)
      modifies this`dst, this`posIn, this`posOut
      ensures 0 <= ret <= len && (len > 0 ==> ret > 0)
      ensures (offIn'.Some? <==> offIn.Some?) && (offOut'.Some? <==> offOut.Some?)
    {
      ret := len;
      dst, posIn, posOut := *, *, *;
      var anyIn: nat, anyOut: nat := *, *;
      offIn' := if offIn.Some? then Some(anyIn) else None;
      offOut' := if offOut.Some? then Some(anyOut) else None;
    }

    /** Where an offset argument or a position stands once `done` bytes have gone by. */
    static predicate Advanced(off: Option<nat>, off': Option<nat>, pos: nat, done: nat) {
      if off.Some? then pos == 0 && off' == Some(off.value + done) else pos == done && off' == None
    }

    /** What a sound kernel has done when `done` bytes of the range have been copied. */
    predicate Copied(offIn: Option<nat>, offOut: Option<nat>, nowIn: Option<nat>, nowOut: Option<nat>, done: nat)
      reads this
    {
      && From(offIn) + done <= |src|
      && Advanced(offIn, nowIn, posIn, done) && Advanced(offOut, nowOut, posOut, done)
      && dst == if done == 0 then [] else WriteAt([], From(offOut), src[From(offIn)..From(offIn) + done])
    }

    /** One call of the loop, with some of the range copied already. */
    method CopyMore(len: nat, done: nat, ghost offIn: Option<nat>, ghost offOut: Option<nat>,
                    nowIn: Option<nat>, nowOut: Option<nat>)
      returns (ret: int, newIn: Option<nat>, newOut: Option<nat>)
      requires done < len && From(offIn) + len <= |src| && (sound ==> Copied(offIn, offOut, nowIn, nowOut, done))
      modifies this`dst, this`posIn, this`posOut, this`refused
      ensures refused == old(refused) + if ret == -1 then 1 else 0
      ensures (newIn.Some? <==> nowIn.Some?) && (newOut.Some? <==> nowOut.Some?)
      ensures ret != -1 ==> 1 <= ret <= len - done && (sound ==> Copied(offIn, offOut, newIn, newOut, done + ret))
    {
      hide WriteAt, Zeros;
      ghost var from, to := From(offIn), From(offOut);
      ret, newIn, newOut := SysCopyFileRange(nowIn, nowOut, len - done);
      if ret != -1 && sound {
        Adjacent(src, from, done, ret);
        WriteTwice([], to, src[from..from + done], src[from + done..from + done + ret]);
      }
    }

    /** The do-while loop of test_one. */
    method CopyLoop(len: nat, offIn: Option<nat>, offOut: Option<nat>)
      returns (ok: bool, newIn: Option<nat>, newOut: Option<nat>)
      requires Opened() && len > 0 && From(offIn) + len <= |src|
      modifies this`dst, this`posIn, this`posOut, this`refused
      ensures refused == old(refused) + if ok then 0 else 1
      ensures (newIn.Some? <==> offIn.Some?) && (newOut.Some? <==> offOut.Some?)
      ensures ok && sound ==> Copied(offIn, offOut, newIn, newOut, len)
    {
      NotMoved(offIn, offOut);
      hide *;
      var toCopy := len;
      newIn, newOut := offIn, offOut;
      var again := true;
      while again
        invariant 0 <= toCopy <= len && refused == old(refused) && (again <==> toCopy > 0)
        invariant (newIn.Some? <==> offIn.Some?) && (newOut.Some? <==> offOut.Some?)
        invariant sound ==> Copied(offIn, offOut, newIn, newOut, len - toCopy)
        decreases toCopy
      {
        var ret;
        ret, newIn, newOut := CopyMore(len, len - toCopy, offIn, offOut, newIn, newOut);
        if ret == -1 {
          return false, newIn, newOut;
        }
        toCopy := toCopy - ret;
        again := toCopy > 0;
      }
      ok := true;
    }

    lemma NotMoved(offIn: Option<nat>, offOut: Option<nat>)
      requires Opened() && From(offIn) <= |src|
      ensures Copied(offIn, offOut, offIn, offOut, 0)
    {}

    /**
     test_one on freshly opened files, for a non-empty range inside the source: whatever the
     kernel does, the error count goes up exactly when a call was refused, the contents differ or
     an offset or position is not where it should be.  With a sound kernel only a refusal does
     that, and otherwise the destination holds the range at its offset, every given offset was
     passed over by len and its position left alone.
     */
    method TestOne(len: nat, offIn: Option<nat>, offOut: Option<nat>) returns (newIn: Option<nat>, newOut: Option<nat>)
      requires Opened() && len > 0 && From(offIn) + len <= |src|
      modifies this`dst, this`posIn, this`posOut, this`refused, this`errcount, this`log
      ensures errcount == old(errcount) || errcount == old(errcount) + 1
      ensures refused == old(refused) || refused == old(refused) + 1
      ensures errcount == old(errcount) <==>
                && refused == old(refused) && SameContent(src, dst, From(offIn), From(offOut), len)
                && GoodOffset(posIn, len, offIn, newIn) && GoodOffset(posOut, len, offOut, newOut)
      ensures log == old(log) + [Job(len, offIn, offOut, errcount > old(errcount), dst)]
      ensures sound ==> errcount - old(errcount) == refused - old(refused)
      ensures sound && refused == old(refused) ==>
                && Delivered(log[|old(log)|], src)
                && posIn == (if offIn.Some? then 0 else len)
                && posOut == (if offOut.Some? then 0 else len)
    {
      hide WriteAt;
      var ok;
      ok, newIn, newOut := CopyLoop(len, offIn, offOut);
      if !ok {
        errcount := errcount + 1;
        log := log + [Job(len, offIn, offOut, true, dst)];
        return;
      }
      Pasted(src, From(offIn), From(offOut), len);
      var r := CheckFileContent(src, dst, offIn, offOut, len);
      if r != 0 {
        errcount := errcount + 1;
        log := log + [Job(len, offIn, offOut, true, dst)];
        return;
      }
      r := CheckFileOffset(posIn, len, offIn, newIn);
      var r' := CheckFileOffset(posOut, len, offOut, newOut);
      if r != 0 || r' != 0 {
        errcount := errcount + 1;
      }
      log := log + [Job(len, offIn, offOut, r != 0 || r' != 0, dst)];
    }

    /** What the jobs run so far have made of the counters, the log and the destination. */
    ghost predicate Progress(jobs: seq<Job>, log0: seq<Job>, refused0: int, pageSize: nat)
      reads this
    {
      && log == log0 + jobs && numcopies == |jobs|
      && Ran(jobs, pageSize, errcount, sound, src)
      && (jobs != [] ==> dst == jobs[|jobs| - 1].dst)
      && (sound ==> errcount == refused - refused0)
    }

    /** The body of the inner loop: open_files and test_one, as one job more. */
    method OneJob(len: nat, offIn: Option<nat>, offOut: Option<nat>,
                  ghost pageSize: nat, ghost jobs: seq<Job>, ghost log0: seq<Job>, ghost refused0: int)
      returns (ghost jobs': seq<Job>)
      requires len > 0 && From(offIn) + len <= |src|
      requires Progress(jobs, log0, refused0, pageSize) && At(len, offIn, offOut, |jobs|, pageSize)
      modifies this
      ensures |jobs'| == |jobs| + 1 && src == old(src) && Progress(jobs', log0, refused0, pageSize)
    {
      hide Ran, At, Delivered, SameContent, GoodOffset, Zeros;
      OpenFiles();
      var newIn, newOut := TestOne(len, offIn, offOut);
      ghost var job := log[|log0 + jobs|];
      RanSnoc(jobs, job, pageSize, old(errcount), sound, src);
      jobs' := jobs + [job];
      assert log == log0 + jobs';
      numcopies := numcopies + 1;
    }

    lemma NoJobYet(pageSize: nat)
      requires errcount == 0 && numcopies == 0
      ensures Progress([], log, refused, pageSize)
    {
      assert log == log + [];
    }

    /** The triple loop. */
    method RunJobs(lenArr: seq<nat>, offArr: seq<Option<nat>>, ghost pageSize: nat) returns (ghost jobs: seq<Job>)
      requires AreArrays(lenArr, offArr, pageSize, |src|) && errcount == numcopies == 0
      modifies this
      ensures src == old(src) && |jobs| == 144 && Progress(jobs, old(log), old(refused), pageSize)
    {
      jobs := [];
      NoJobYet(pageSize);
      hide *;
      ArraySizes(lenArr, offArr, pageSize, |src|);
      var i := 0;
      while i < |lenArr|
        invariant 0 <= i <= 4 && |jobs| == 36 * i && src == old(src)
        invariant Progress(jobs, old(log), old(refused), pageSize)
      {
        var j := 0;
        while j < |offArr|
          invariant 0 <= j <= 6 && |jobs| == 36 * i + 6 * j && src == old(src)
          invariant Progress(jobs, old(log), old(refused), pageSize)
        {
          var k := 0;
          while k < |offArr|
            invariant 0 <= k <= 6 && |jobs| == 36 * i + 6 * j + k && src == old(src)
            invariant Progress(jobs, old(log), old(refused), pageSize)
          {
            Placed(lenArr, offArr, i, j, k, pageSize, |src|);
            jobs := OneJob(lenArr[i], offArr[j], offArr[k], pageSize, jobs, old(log), old(refused));
            k := k + 1;
          }
          j := j + 1;
        }
        i := i + 1;
      }
    }

    /**
     copy_file_range_verify: the jobs run are the four lengths by the six source offsets by the
     six destination offsets, 144 in all and in this order, each inside the source file; the
     errors counted are the jobs that failed.  With a sound kernel a job fails only when the
     kernel refused it, and every other one has delivered its range.
     */
    method Verify(pageSize: nat) returns (ghost jobs: seq<Job>)
      requires pageSize >= 2 && |src| == pageSize * 4 * LINE
      modifies this
      ensures src == old(src) && numcopies == |jobs| == 144 && log == old(log) + jobs
      ensures forall n | 0 <= n < 144 :: At(jobs[n].len, jobs[n].offIn, jobs[n].offOut, n, pageSize)
      ensures errcount == Failures(jobs) && dst == jobs[143].dst
      ensures sound ==> errcount == refused - old(refused)
      ensures sound ==> forall n | 0 <= n < 144 && !jobs[n].failed :: Delivered(jobs[n], src)
    {
      hide At, Delivered, Failures;
      errcount, numcopies := 0, 0;
      var lenArr := [11, pageSize - 1, pageSize, pageSize + 1];
      var offArr := [None, Some(0), Some(17), Some(pageSize - 1), Some(pageSize), Some(pageSize + 1)];
      Arrays(lenArr, offArr, pageSize);
      jobs := RunJobs(lenArr, offArr, pageSize);
    }
  }

  /** The jobs run so far, in order, and what they left when the kernel is sound. */
  ghost predicate Ran(jobs: seq<Job>, pageSize: nat, errcount: nat, sound: bool, src: seq<byte>) {
    && (forall n | 0 <= n < |jobs| :: At(jobs[n].len, jobs[n].offIn, jobs[n].offOut, n, pageSize))
    && errcount == Failures(jobs)
    && (sound ==> forall n | 0 <= n < |jobs| && !jobs[n].failed :: Delivered(jobs[n], src))
  }

  lemma RanSnoc(jobs: seq<Job>, job: Job, pageSize: nat, errcount: nat, sound: bool, src: seq<byte>)
    requires Ran(jobs, pageSize, errcount, sound, src)
    requires At(job.len, job.offIn, job.offOut, |jobs|, pageSize)
    requires sound && !job.failed ==> Delivered(job, src)
    ensures Ran(jobs + [job], pageSize, errcount + if job.failed then 1 else 0, sound, src)
  {
    hide At, Delivered;
    FailuresSnoc(jobs, job);
  }

  /** The two arrays of the test, every range of which lies inside a file of this size. */
  ghost predicate AreArrays(lens: seq<nat>, offs: seq<Option<nat>>, pageSize: nat, size: nat) {
    && |lens| == 4 && |offs| == 6
    && (forall i | 0 <= i < 4 :: IsLength(lens[i], i, pageSize))
    && (forall j | 0 <= j < 6 :: IsOffset(offs[j], j, pageSize))
    && (forall i, j | 0 <= i < 4 && 0 <= j < 6 :: Inside(lens[i], offs[j], size))
  }

  ghost predicate Inside(len: nat, off: Option<nat>, size: nat) {
    len > 0 && From(off) + len <= size
  }

  lemma Arrays(lens: seq<nat>, offs: seq<Option<nat>>, pageSize: nat)
    requires pageSize >= 2 && lens == [11, pageSize - 1, pageSize, pageSize + 1]
    requires offs == [None, Some(0), Some(17), Some(pageSize - 1), Some(pageSize), Some(pageSize + 1)]
    ensures AreArrays(lens, offs, pageSize, pageSize * 4 * LINE)
  {
    forall i, j | 0 <= i < 4 && 0 <= j < 6
      ensures Inside(lens[i], offs[j], pageSize * 4 * LINE)
    {
      InsideSource(pageSize, lens[i], From(offs[j]));
    }
  }

  lemma ArraySizes(lens: seq<nat>, offs: seq<Option<nat>>, pageSize: nat, size: nat)
    requires AreArrays(lens, offs, pageSize, size)
    ensures |lens| == 4 && |offs| == 6
  {}

  lemma Placed(lens: seq<nat>, offs: seq<Option<nat>>, i: nat, j: nat, k: nat, pageSize: nat, size: nat)
    requires AreArrays(lens, offs, pageSize, size) && |lens| == 4 && |offs| == 6 && i < 4 && j < 6 && k < 6
    ensures lens[i] > 0 && From(offs[j]) + lens[i] <= size
    ensures At(lens[i], offs[j], offs[k], 36 * i + 6 * j + k, pageSize)
  {
    assert Inside(lens[i], offs[j], size);
    LoopIndex(i, j, k);
  }

  /** The lengths and offsets tried fit the file of 4 * pageSize lines. */
  lemma InsideSource(pageSize: nat, len: nat, off: nat)
    requires pageSize >= 2 && len in {11, pageSize - 1, pageSize, pageSize + 1}
    requires off in {0, 17, pageSize - 1, pageSize, pageSize + 1}
    ensures 0 < len && off + len <= pageSize * 4 * LINE
  {}

  /** With one-byte pages one of the lengths is 0, and the content check then compares the first
      character of the source with the end of an empty file. */
  lemma EmptyRangeMismatch(src: seq<byte>, off1: nat)
    requires off1 < |src|
    ensures !SameContent(src, [], off1, 0, 0)
  {
    assert !Agree(src, [], off1, 0, 0);
  }
}
