/**
 dup06.c and dup205.c: filling a process's descriptor table with dup and dup2 until the kernel
 refuses, and emptying it again.
 */
module DupTables {
  // ---------- the table ----------

  function Free(open: set<nat>, limit: nat): set<nat> {
    set x: nat | x < limit && x !in open
  }

  ghost predicate IsLowestFree(open: set<nat>, fd: nat) {
    fd !in open && forall j: nat | j < fd :: j in open
  }

  /** Taking the lowest free descriptor leaves one fewer. */
  lemma TakeOne(open: set<nat>, limit: nat, fd: nat)
    requires fd < limit && fd !in open
    ensures Free(open, limit) == Free(open + {fd}, limit) + {fd}
    ensures |Free(open + {fd}, limit)| == |Free(open, limit)| - 1
  {
    assert Free(open, limit) == Free(open + {fd}, limit) + {fd};
    assert fd !in Free(open + {fd}, limit);
  }

  lemma FreeStep(open: set<nat>, limit: nat)
    ensures Free(open, limit + 1) == Free(open, limit) + if limit in open then {} else {limit}
    ensures |Free(open, limit + 1)| == |Free(open, limit)| + if limit in open then 0 else 1
  {
    assert Free(open, limit + 1) == Free(open, limit) + if limit in open then {} else {limit};
    assert limit !in Free(open, limit);
  }

  lemma {:induction false} FreeBound(open: set<nat>, limit: nat)
    ensures |Free(open, limit)| <= limit
  {
    if limit > 0 {
      FreeBound(open, limit - 1);
      FreeStep(open, limit - 1);
    } else {
      assert Free(open, 0) == {};
    }
  }

  datatype Errno = NoError | EBADF | EMFILE | EINVAL | EINTR | EBUSY

  class Kernel {
    const limit: nat
    var open: set<nat>

    constructor (limit: nat, open: set<nat>)
      ensures this.limit == limit && this.open == open
    {
      this.limit, this.open := limit, open;
    }

    /** creat, and dup of an open descriptor: the lowest free number, or -1. */
    method Allocate() returns (fd: int)
      modifies this`open
      ensures fd == -1 <==> |Free(old(open), limit)| == 0
      ensures fd == -1 ==> open == old(open)
      ensures fd != -1 ==> 0 <= fd < limit && IsLowestFree(old(open), fd) && open == old(open) + {fd}
    {
      fd := 0;
      while fd < limit && fd in open
        invariant 0 <= fd <= limit && forall j: nat | j < fd :: j in open
      {
        fd := fd + 1;
      }
      if fd == limit {
        assert Free(open, limit) == {};
        return -1;
      }
      assert fd in Free(open, limit);
      open := open + {fd};
    }

    method Dup(src: int) returns (fd: int)
      requires src >= 0 && src in open
      modifies this`open
      ensures fd == -1 <==> |Free(old(open), limit)| == 0
      ensures fd == -1 ==> open == old(open)
      ensures fd != -1 ==> 0 <= fd < limit && IsLowestFree(old(open), fd) && open == old(open) + {fd}
    {
      fd := Allocate();
    }

    /** dup2: takes over the wanted number, whatever it was before; EBADF from the limit on. */
    method Dup2(src: int, to: nat) returns (fd: int, err: Errno)
      modifies this`open
      ensures fd == if src >= 0 && src in old(open) && to < limit then to else -1
      ensures err == if fd == -1 then EBADF else NoError
      ensures open == if fd == -1 then old(open) else old(open) + {to}
    {
      if src < 0 || src !in open || to >= limit {
        return -1, EBADF;
      }
      open := open + {to};
      fd, err := to, NoError;
    }

    method Close(fd: nat)
      requires fd in open
      modifies this`open
      ensures open == old(open) - {fd}
    {
      open := open - {fd};
    }
  }

  // ---------- dup06 ----------

  /** cnt_free_fds. */
  method CntFreeFds(k: Kernel, maxfd: nat) returns (freefds: nat)
    ensures freefds == |Free(k.open, maxfd)|
  {
    freefds := 0;
    var fd := maxfd;
    assert Free(k.open, maxfd) - Free(k.open, maxfd) == {};
    while fd > 0
      invariant 0 <= fd <= maxfd
      invariant freefds + |Free(k.open, fd)| == |Free(k.open, maxfd)|
    {
      fd := fd - 1;
      FreeStep(k.open, fd);
      if fd !in k.open {
        freefds := freefds + 1;
      }
    }
    assert Free(k.open, 0) == {};
  }

  function Elems(c: seq<nat>): set<nat> {
    set x | x in c
  }

  /** Descriptors handed out one after the other, starting from `open0` and leading to `open`. */
  ghost predicate Chain(open0: set<nat>, limit: nat, c: seq<nat>, open: set<nat>) {
    && (forall j | 0 <= j < |c| :: c[j] in Free(open0, limit))
    && (forall i, j | 0 <= i < j < |c| :: c[i] < c[j])
    && open == open0 + Elems(c)
    && |Free(open, limit)| + |c| == |Free(open0, limit)|
    && (c != [] ==> forall j: nat | j <= c[|c| - 1] :: j in open)
  }

  lemma ChainStart(open: set<nat>, limit: nat)
    ensures Chain(open, limit, [], open)
  {}

  lemma ChainStep(open0: set<nat>, limit: nat, c: seq<nat>, open: set<nat>, fd: nat)
    requires Chain(open0, limit, c, open) && fd < limit && IsLowestFree(open, fd)
    ensures Chain(open0, limit, c + [fd], open + {fd})
  {
    hide Free, Elems;
    TakeOne(open, limit, fd);
    ElemsSnoc(c, fd);
    var d := c + [fd];
    forall j | 0 <= j < |c| ensures c[j] < fd {
      AboveChain(open0, limit, c, open, fd, j);
    }
    FreshFree(open0, limit, c, open, fd);
    assert forall j | 0 <= j < |c| :: d[j] == c[j];
    assert d[|c|] == fd;
    assert open0 + (Elems(c) + {fd}) == open0 + Elems(c) + {fd};
  }

  lemma ElemsSnoc(c: seq<nat>, x: nat)
    ensures Elems(c + [x]) == Elems(c) + {x}
  {}

  lemma AboveChain(open0: set<nat>, limit: nat, c: seq<nat>, open: set<nat>, fd: nat, j: nat)
    requires Chain(open0, limit, c, open) && IsLowestFree(open, fd) && j < |c|
    ensures c[j] < fd
  {
    assert c[j] <= c[|c| - 1];
  }

  lemma FreshFree(open0: set<nat>, limit: nat, c: seq<nat>, open: set<nat>, fd: nat)
    requires Chain(open0, limit, c, open) && fd < limit && fd !in open
    ensures fd in Free(open0, limit)
  {}

  /** A chain that leaves nothing free is the ascending list of what was free. */
  lemma ChainFull(open0: set<nat>, limit: nat, c: seq<nat>, open: set<nat>)
    requires Chain(open0, limit, c, open) && |Free(open, limit)| == 0
    ensures |c| == |Free(open0, limit)| && Elems(c) == Free(open0, limit)
  {
    assert Free(open, limit) == {};
    forall x | x in Free(open0, limit) ensures x in Elems(c) {
      assert x !in Free(open, limit);
    }
    assert Elems(c) <= Free(open0, limit);
  }

  class Dup06 {
    const kernel: Kernel
    const maxfd: nat
    const pfildes: array<int>
    var freefds: nat

    /** setup. */
    constructor (kernel: Kernel)
      ensures this.kernel == kernel && freefds == |Free(kernel.open, kernel.limit)|
      ensures Ready() && fresh(pfildes)
      ensures forall j | 0 <= j < maxfd :: pfildes[j] == -1
    {
      this.kernel := kernel;
      maxfd := kernel.limit + 5;
      pfildes := new int[kernel.limit + 5](_ => -1);
      new;
      freefds := CntFreeFds(kernel, kernel.limit);
    }

    predicate Ready()
      reads this
    {
      maxfd == kernel.limit + 5 && pfildes.Length == maxfd
    }

    /** Nothing of an earlier run is left behind the first `used` entries. */
    predicate Clean(used: int)
      requires Ready()
      reads this, pfildes
    {
      forall j | 0 <= j < maxfd && used < j :: pfildes[j] == -1
    }

    /** The filling half of run: the chain of dups, one free descriptor after the other, in
        ascending order, until the kernel has none left. */
    method Fill() returns (i: nat, ok: bool, ghost c: seq<nat>)
      requires Ready()
      modifies pfildes, kernel`open
      ensures ok <==> |Free(old(kernel.open), kernel.limit)| > 0
      ensures !ok ==> kernel.open == old(kernel.open) && pfildes[..] == old(pfildes[..])
      ensures ok ==>
                && i == |c| == |Free(old(kernel.open), kernel.limit)| < maxfd
                && Chain(old(kernel.open), kernel.limit, c, kernel.open)
                && Elems(c) == Free(old(kernel.open), kernel.limit)
                && (forall j | 0 <= j < i :: pfildes[j] == c[j]) && pfildes[i] == -1
                && forall j | i < j < maxfd :: pfildes[j] == old(pfildes[j])
    {
      hide Free;
      ghost var open0, limit := kernel.open, kernel.limit;
      FreeBound(open0, limit);
      ChainStart(open0, limit);
      c := [];
      i := 0;
      var fd := kernel.Allocate();
      if fd == -1 {
        return 0, false, c;
      }
      ChainStep(open0, limit, c, open0, fd);
      c := c + [fd];
      pfildes[0] := fd;
      i := 1;
      while i < maxfd
        invariant 1 <= i == |c| <= limit
        invariant Chain(open0, limit, c, kernel.open)
        invariant forall j | 0 <= j < i :: pfildes[j] == c[j]
        invariant forall j | i <= j < maxfd :: pfildes[j] == old(pfildes[j])
        decreases maxfd - i
      {
        ghost var open1 := kernel.open;
        assert pfildes[i - 1] == c[i - 1] && c[i - 1] in open1;
        fd := kernel.Dup(pfildes[i - 1]);
        pfildes[i] := fd;
        if fd == -1 {
          break;
        }
        ChainStep(open0, limit, c, open1, fd);
        c := c + [fd];
        i := i + 1;
      }
      ChainFull(open0, limit, c, kernel.open);
      ok := true;
    }

    /** The closing loop of run: everything filled in is closed again, except descriptor 0. */
    method CloseAll(ghost open0: set<nat>, ghost c: seq<nat>)
      requires Ready() && |c| < maxfd && Chain(open0, kernel.limit, c, kernel.open)
      requires (forall j | 0 <= j < |c| :: pfildes[j] == c[j])
      requires forall j | |c| <= j < maxfd :: pfildes[j] == -1
      modifies kernel`open
      ensures kernel.open == open0 + if 0 in c then {0} else {}
    {
      LeftEnd(c, maxfd);
      hide Free, Chain, Elems, Left;
      ChainSplit(open0, kernel.limit, c, kernel.open);
      ghost var zero := if 0 in c then {0} else {};
      var i := 0;
      while i < maxfd
        invariant 0 <= i <= maxfd
        invariant kernel.open == open0 + zero + Left(c, i)
      {
        if i < |c| {
          CloseStep(open0, zero, c, i);
        } else {
          LeftEnd(c, i);
          LeftEnd(c, i + 1);
        }
        if pfildes[i] != 0 && pfildes[i] != -1 {
          kernel.Close(pfildes[i]);
        }
        i := i + 1;
      }
    }

    /**
     run, possibly after earlier runs: it breaks off when nothing is free, and else passes
     exactly when as many descriptors are free as setup counted.  The table is left as it was,
     except that a free descriptor 0 is taken and never closed.
     */
    method Run() returns (passed: bool, broken: bool)
      requires Ready() && Clean(|Free(kernel.open, kernel.limit)|)
      modifies pfildes, kernel`open
      ensures Ready() && Clean(|Free(kernel.open, kernel.limit)|)
      ensures broken <==> |Free(old(kernel.open), kernel.limit)| == 0
      ensures passed <==> !broken && |Free(old(kernel.open), kernel.limit)| == freefds
      ensures kernel.open == old(kernel.open) + if 0 in Free(old(kernel.open), kernel.limit) then {0} else {}
    {
      hide Free;
      ghost var open0 := kernel.open;
      var i, ok;
      ghost var c;
      i, ok, c := Fill();
      if !ok {
        NothingFree(open0, kernel.limit);
        return false, true;
      }
      CloseAll(open0, c);
      assert 0 in c <==> 0 in Elems(c);
      if 0 in Free(open0, kernel.limit) {
        ZeroTaken(open0, kernel.limit);
      }
      passed, broken := i == freefds, false;
    }

    /**
     The test repeated: with descriptor 0 in use every run passes; with descriptor 0 free the
     first run passes and keeps it, and no later one does.
     */
    method Repeat(runs: nat) returns (passes: nat)
      requires Ready() && Clean(|Free(kernel.open, kernel.limit)|)
      requires freefds == |Free(kernel.open, kernel.limit)| > 0
      modifies pfildes, kernel`open
      ensures passes == if 0 in old(kernel.open) || runs == 0 then runs else 1
      ensures 0 in old(kernel.open) ==> kernel.open == old(kernel.open)
    {
      hide Free;
      ghost var open0 := kernel.open;
      var n, stop := 0, false;
      passes := 0;
      AnyFree(open0, kernel.limit);
      while n < runs && !stop
        invariant 0 <= n <= runs && Clean(|Free(kernel.open, kernel.limit)|)
        invariant 0 in open0 ==> kernel.open == open0 && passes == n && !stop
        invariant 0 !in open0 && n == 0 ==> kernel.open == open0 && passes == 0 && !stop
        invariant 0 !in open0 && n > 0 ==> kernel.open == open0 + {0} && passes == 1
        decreases runs - n
      {
        var passed, broken := Run();
        if passed {
          passes := passes + 1;
        }
        ZeroFree(open0, kernel.limit);
        stop := broken;
        n := n + 1;
      }
    }
  }

  /** For instance two runs on an empty table of two: only the first passes. */
  method EmptyTableTwice() returns (passes: nat)
    ensures passes == 1
  {
    var kernel := new Kernel(2, {});
    var test := new Dup06(kernel);
    assert 0 in Free({}, 2);
    passes := test.Repeat(2);
  }

  lemma ElemsCons(x: nat, c: seq<nat>)
    ensures Elems([x] + c) == Elems(c) + {x}
  {}

  /** The members of a chain from position i on. */
  function Left(c: seq<nat>, i: nat): set<nat> {
    if i < |c| then Elems(c[i..]) else {}
  }

  lemma LeftEnd(c: seq<nat>, i: nat)
    requires i >= |c|
    ensures Left(c, i) == {}
  {}

  lemma LeftStep(c: seq<nat>, i: nat)
    ensures Left(c, i) == Left(c, i + 1) + if i < |c| then {c[i]} else {}
  {
    if i < |c| {
      assert c[i..] == [c[i]] + c[i + 1..];
      ElemsCons(c[i], c[i + 1..]);
    }
  }

  /** Closing entry i, unless it is 0, leaves the members behind it. */
  lemma CloseStep(open0: set<nat>, zero: set<nat>, c: seq<nat>, i: nat)
    requires i < |c| && c[i] !in open0 && c[i] !in Left(c, i + 1) && zero <= {0} && (c[i] == 0 ==> 0 in zero)
    ensures c[i] in open0 + zero + Left(c, i)
    ensures open0 + zero + Left(c, i) - (if c[i] == 0 then {} else {c[i]}) == open0 + zero + Left(c, i + 1)
  {
    hide Left;
    LeftStep(c, i);
  }

  lemma ChainSplit(open0: set<nat>, limit: nat, c: seq<nat>, open: set<nat>)
    requires Chain(open0, limit, c, open)
    ensures open == open0 + Left(c, 0) && (0 in c ==> 0 in Left(c, 0))
    ensures forall j | 0 <= j < |c| :: c[j] !in open0 && c[j] !in Left(c, j + 1)
  {
    assert c[0..] == c;
  }

  lemma NothingFree(open: set<nat>, limit: nat)
    requires |Free(open, limit)| == 0
    ensures 0 !in Free(open, limit)
  {}

  lemma AnyFree(open: set<nat>, limit: nat)
    requires |Free(open, limit)| > 0
    ensures limit > 0
  {}

  lemma ZeroFree(open: set<nat>, limit: nat)
    requires limit > 0
    ensures 0 in Free(open, limit) <==> 0 !in open
    ensures 0 !in Free(open + {0}, limit)
    ensures 0 !in open ==> |Free(open + {0}, limit)| == |Free(open, limit)| - 1
  {
    if 0 !in open {
      TakeOne(open, limit, 0);
    }
  }

  lemma ZeroTaken(open: set<nat>, limit: nat)
    requires 0 in Free(open, limit)
    ensures |Free(open + {0}, limit)| == |Free(open, limit)| - 1
  {
    TakeOne(open, limit, 0);
  }

  // ---------- dup205 ----------

  /** All descriptors below n: what is free in an empty table. */
  function Below(n: nat): set<nat> {
    Free({}, n)
  }

  class Dup205 {
    const kernel: Kernel
    const min: nat
    const fildes: array<int>

    /** setup. */
    constructor (kernel: Kernel)
      ensures this.kernel == kernel && min == kernel.limit && fildes.Length == min + 10 && fresh(fildes) && Ready()
      ensures forall j | 0 <= j < min + 10 :: fildes[j] == -1
    {
      this.kernel := kernel;
      min := kernel.limit;
      fildes := new int[kernel.limit + 10](_ => -1);
    }

    predicate Ready()
      reads this, fildes
    {
      min == kernel.limit && fildes.Length == min + 10 && forall j | min < j < min + 10 :: fildes[j] == -1
    }

    /** The chain of dup2 calls: entry j holds descriptor j from the first one up to the limit,
        where the call is refused and says so. */
    method Fill() returns (first: int, ifile: nat, err: Errno)
      requires Ready()
      modifies fildes, kernel`open
      ensures Ready() && (first == -1 <==> |Free(old(kernel.open), min)| == 0)
      ensures first == -1 ==> kernel.open == old(kernel.open)
      ensures first != -1 ==>
                && 0 <= first < min && IsLowestFree(old(kernel.open), first)
                && ifile == min && fildes[ifile] == -1 && err == EBADF
                && (forall j | first <= j < ifile :: fildes[j] == j)
                && kernel.open == old(kernel.open) + Below(min)
    {
      ghost var open0 := kernel.open;
      ifile, err := 0, NoError;
      first := kernel.Allocate();
      if first == -1 {
        return;
      }
      fildes[0] := first;
      fildes[fildes[0]] := fildes[0];
      ifile := first + 1;
      while ifile < min + 10
        invariant first < ifile <= min && fildes[0] == first
        invariant forall j | first <= j < ifile :: fildes[j] == j
        invariant forall j | min < j < min + 10 :: fildes[j] == -1
        invariant kernel.open == open0 + Below(ifile)
        decreases min - ifile
      {
        var ret;
        ret, err := kernel.Dup2(fildes[ifile - 1], ifile);
        fildes[ifile] := ret;
        if fildes[ifile] == -1 {
          break;
        }
        assert Below(ifile + 1) == Below(ifile) + {ifile};
        ifile := ifile + 1;
      }
    }

    /** The closing loop, from the first descriptor on. */
    method CloseAll(first: nat)
      requires Ready() && first < min && fildes[min] == -1
      requires (forall j | first <= j < min :: fildes[j] == j) && forall j: nat | j < min :: j in kernel.open
      modifies kernel`open
      ensures kernel.open == old(kernel.open) - (Below(min) - Below(if first == 0 then 1 else first))
    {
      var i := first;
      ghost var keep := if first == 0 then 1 else first;
      while i < min + 10
        invariant first <= i <= min + 10
        invariant kernel.open == old(kernel.open) - (Below(if i < min then i else min) - Below(keep))
      {
        if fildes[i] > 0 {
          kernel.Close(fildes[i]);
        }
        i := i + 1;
      }
    }

    /**
     run: it breaks off when nothing is free; else it stops at the limit, with the error expected
     there, and passes.  Every
     descriptor above the first one, whoever had it open, is closed at the end; a first
     descriptor 0 stays open.
     */
    method Run() returns (passed: bool)
      requires Ready()
      modifies fildes, kernel`open
      ensures Ready()
      ensures passed <==> |Free(old(kernel.open), min)| > 0
      ensures !passed ==> kernel.open == old(kernel.open)
      ensures passed ==> exists f: nat :: f < min && IsLowestFree(old(kernel.open), f)
                           && kernel.open == old(kernel.open) - Below(min) + Below(if f == 0 then 1 else f)
    {
      var first, ifile, err := Fill();
      if first == -1 {
        return false;
      }
      passed := ifile == min && err in {EBADF, EMFILE, EINVAL};
      CloseAll(first);
      assert IsLowestFree(old(kernel.open), first);
      assert kernel.open == old(kernel.open) - Below(min) + Below(if first == 0 then 1 else first);
    }
  }
}
