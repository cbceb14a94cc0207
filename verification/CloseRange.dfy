/**
 close_range01.c: a parent and a child that share one descriptor table until one of them asks
 for a table of its own, and the close-on-exec flags each of them then sees.
 */
module CloseRange {
  type Fd = x: int | 0 <= x < 0x8000_0000

  /** An open descriptor: the file behind it, and FD_CLOEXEC. */
  datatype Entry = Entry(file: nat, cloexec: bool)

  type Table = map<Fd, Entry>

  const TARGET: Fd := 42
  const HIGH: Fd := 1000

  // ---------- tables ----------

  ghost predicate IsLowestFree(t: Table, f: int) {
    0 <= f && (0 <= f < 0x8000_0000 ==> f !in t) && forall j: Fd | j < f :: j in t
  }

  /** close_range(3, ~0U, ...): marks or closes everything above the standard descriptors. */
  function From3(t: Table, cloexec: bool): Table {
    if cloexec then map fd | fd in t :: if fd >= 3 then t[fd].(cloexec := true) else t[fd]
    else map fd | fd in t && fd < 3 :: t[fd]
  }

  /** What becomes of a table when its entries from 3 on are marked or closed, entry by entry. */
  ghost predicate Cut(t: Table, t': Table, cloexec: bool) {
    && (forall fd: Fd | fd < 3 :: (fd in t' <==> fd in t) && (fd in t ==> t'[fd] == t[fd]))
    && (forall fd: Fd | fd >= 3 ::
          (fd in t' <==> fd in t && cloexec) && (fd in t' ==> t'[fd] == Entry(t[fd].file, true)))
  }

  lemma From3Cuts(t: Table, cloexec: bool)
    ensures Cut(t, From3(t, cloexec), cloexec)
  {}

  /** dup2 onto another number: the same file, with the flag cleared. */
  function Copied(t: Table, from: Fd, to: Fd): Table
    requires from in t
  {
    if from == to then t else t[to := Entry(t[from].file, false)]
  }

  class FdTable {
    var fds: Table
    var users: nat

    constructor (fds: Table)
      ensures this.fds == fds && users == 1
    {
      this.fds, users := fds, 1;
    }
  }

  class Process {
    var files: FdTable

    /** A process with the given table; clone with CLONE_FILES hands over its parent's. */
    constructor (files: FdTable)
      ensures this.files == files
    {
      this.files := files;
    }

    /** open: the lowest free descriptor, or -1 when none is left below the limit. */
    method Open(file: nat, limit: Fd) returns (fd: int)
      modifies files
      ensures files.users == old(files.users)
      ensures fd == -1 ==> files.fds == old(files.fds) && forall j: Fd | j < limit :: j in files.fds
      ensures fd != -1 ==> 0 <= fd < limit && IsLowestFree(old(files.fds), fd)
                           && files.fds == old(files.fds)[fd := Entry(file, false)]
    {
      fd := 0;
      while fd < limit && fd in files.fds
        invariant 0 <= fd <= limit && forall j: Fd | j < fd :: j in files.fds
      {
        fd := fd + 1;
      }
      if fd == limit {
        return -1;
      }
      files.fds := files.fds[fd := Entry(file, false)];
    }

    method Dup2(from: Fd, to: Fd, limit: Fd) returns (ok: bool)
      modifies files
      ensures ok <==> from in old(files.fds) && to < limit
      ensures files.fds == if ok then Copied(old(files.fds), from, to) else old(files.fds)
      ensures files.users == old(files.users)
    {
      ok := from in files.fds && to < limit;
      if ok {
        files.fds := Copied(files.fds, from, to);
      }
    }

    /** close_range(3, ~0U, flags): with UNSHARE a shared table is copied first, and the copy
        is the one that changes. */
    method DoCloseRange(unshare: bool, cloexec: bool)
      modifies this, files
      ensures files.fds == From3(old(files.fds), cloexec) && Cut(old(files.fds), files.fds, cloexec)
      ensures unshare && old(files.users) > 1 ==>
                fresh(files) && files.users == 1
                && old(files).fds == old(files.fds) && old(files).users == old(files.users) - 1
      ensures !(unshare && old(files.users) > 1) ==> files == old(files) && files.users == old(files.users)
    {
      if unshare && files.users > 1 {
        files.users := files.users - 1;
        files := new FdTable(files.fds);
      }
      From3Cuts(files.fds, cloexec);
      files.fds := From3(files.fds, cloexec);
    }

    /** exit gives up the share in the table. */
    method Exit()
      requires files.users > 0
      modifies files`users
      ensures files.users == old(files.users) - 1
    {
      files.users := files.users - 1;
    }
  }

  // ---------- the checks ----------

  function Unshares(n: nat): bool {
    n == 1 || n == 3
  }

  function Marks(n: nat): bool {
    n == 2 || n == 3
  }

  /** The table the parent has once the child has exited. */
  function AfterChild(t: Table, n: nat): Table
    requires HIGH in t
  {
    if n == 0 then From3(Copied(t, HIGH, TARGET), false)
    else if n == 1 then Copied(t, HIGH, TARGET)
    else if n == 2 then Copied(From3(t, true), HIGH, TARGET)
    else t
  }

  /** Exactly when case n passes on an initial table, given the limit of descriptors. */
  ghost predicate Meets(t: Table, limit: Fd, n: nat) {
    && limit > HIGH
    && Standard(t)
    && (n == 2 ==> (exists j: Fd | j < limit :: j !in t) && !IsLowestFree(t, TARGET))
    && (n == 3 ==> TARGET !in t && !IsLowestFree(t, TARGET))
  }

  ghost predicate Standard(t: Table) {
    0 in t && 1 in t && 2 in t
  }

  /** The table case n starts from when every case before it has passed. */
  function Before(t: Table, n: nat): Table {
    if n == 0 then t else From3(t, false)
  }

  lemma BeforeFirst(t: Table)
    ensures Before(t, 0) == t && Before(t, 4) == From3(t, false)
  {}

  lemma BeforeNext(t: Table, n: nat)
    ensures From3(Before(t, n), false) == Before(t, n + 1)
  {}

  /** In the order of the test the cases on descriptor 42 start with it closed and others free
      below it, so nothing but the limit and the standard descriptors matters. */
  lemma CasesInOrder(t: Table, limit: Fd)
    ensures (forall n: nat | n < 4 :: Meets(Before(t, n), limit, n)) <==> limit > HIGH && Standard(t)
    ensures !Meets(Before(t, 0), limit, 0) ==> !(limit > HIGH && Standard(t))
  {
    var m := From3(t, false);
    var zero: Fd, one: Fd, two: Fd, three: Fd := 0, 1, 2, 3;
    assert three !in m && TARGET !in m && !IsLowestFree(m, TARGET);
    assert Before(t, 0) == t;
    if limit > HIGH && Standard(t) {
      assert zero in m && one in m && two in m;
      forall n: nat | n < 4 ensures Meets(Before(t, n), limit, n) {}
    }
  }

  /** A limit of 1000 passes setup and fails every case, whatever is open. */
  lemma LimitTooLow(n: nat)
    requires n < 4
    ensures var e := Entry(0, false);
            !Meets(map[0 := e, 1 := e, 2 := e], HIGH, n) && Meets(map[0 := e, 1 := e, 2 := e], HIGH + 1, n)
  {
    var e := Entry(0, false);
    var t: Table := map[0 := e, 1 := e, 2 := e];
    var three: Fd := 3;
    assert three !in t && !IsLowestFree(t, TARGET);
  }

  ghost predicate AllClosed(t: Table, fds: seq<Fd>, from: nat, to: nat)
    requires to <= |fds|
  {
    forall k | from <= k < to :: fds[k] !in t
  }

  lemma NoRoom(t: Table, limit: Fd, n: nat)
    requires n < 4 && (limit == HIGH || forall j: Fd | j < limit :: j in From3(t, Marks(n)))
    ensures !Meets(t, limit, n)
  {
    var m := From3(t, Marks(n));
    if limit > HIGH {
      assert forall j: Fd | j < limit :: j in m;
      var three: Fd := 3;
      assert three in m;
      assert TARGET in m;
      assert forall j: Fd | j in m :: j in t;
    }
  }

  /** How many of the three from `from` on are open. */
  ghost function Open(t: Table, fds: seq<Fd>, from: nat): nat
    requires |fds| == 3 && from <= 3
    decreases 3 - from
  {
    if from == 3 then 0 else Open(t, fds, from + 1) + if fds[from] in t then 1 else 0
  }

  ghost predicate Flagged(t: Table, fd: Fd, expected: bool) {
    fd in t && t[fd].cloexec == expected
  }

  /** What the parent wants to find after the child has exited. */
  ghost predicate ParentSees(t: Table, fds: seq<Fd>, n: nat)
    requires |fds| == 3
  {
    if n == 0 then AllClosed(t, fds, 0, 3)
    else if n == 1 then Flagged(t, fds[0], false) && Flagged(t, fds[1], false) && Flagged(t, fds[2], false)
    else if n == 2 then Flagged(t, fds[0], true) && Flagged(t, fds[1], true) && Flagged(t, fds[2], false)
    else Flagged(t, fds[0], false) && Flagged(t, fds[1], false) && AllClosed(t, fds, 2, 3)
  }

  lemma StandardOpen(t: Table, cloexec: bool, f: Fd)
    requires IsLowestFree(From3(t, cloexec), f)
    ensures f >= 3 <==> 0 in t && 1 in t && 2 in t
    ensures !cloexec && f >= 3 ==> f == 3
    ensures cloexec ==> IsLowestFree(t, f)
  {
    var m := From3(t, cloexec);
    var three: Fd := 3;
    assert three < f ==> three in m;
    forall j: Fd | j < f ensures j in m && j in t {}
    var zero: Fd, one: Fd, two: Fd := 0, 1, 2;
    assert zero in t <==> zero in m;
    assert one in t <==> one in m;
    assert two in t <==> two in m;
  }

  /** All checks of case n together, on the table the parent ends up with. */
  lemma PassesIff(t0: Table, limit: Fd, n: nat, f: Fd)
    requires n < 4 && limit > HIGH && f < limit && IsLowestFree(From3(t0, Marks(n)), f)
    ensures var t2 := AfterChild(Copied(From3(t0, Marks(n))[f := Entry(0, false)], f, HIGH), n);
            var fds := [f, HIGH, TARGET];
            f >= 3 && ParentSees(t2, fds, n) && AllClosed(From3(t2, false), fds, 0, 3) <==> Meets(t0, limit, n)
  {
    StandardOpen(t0, Marks(n), f);
    var t1 := Copied(From3(t0, Marks(n))[f := Entry(0, false)], f, HIGH);
    var t2 := AfterChild(t1, n);
    var fds := [f, HIGH, TARGET];
    if f >= 3 {
      assert AllClosed(From3(t2, false), fds, 0, 3);
      if n == 2 {
        assert f !in t0;
        assert IsLowestFree(t0, TARGET) <==> f == TARGET;
      } else if n == 3 {
        assert AllClosed(t2, fds, 2, 3) <==> fds[2] !in t2;
        assert TARGET !in t2 <==> TARGET !in t0 && f != TARGET;
        assert IsLowestFree(t0, TARGET) <==> f == TARGET;
      }
    }
  }

  /** After the last close_range the parent has its standard descriptors as they were. */
  lemma LeftBehind(t0: Table, n: nat, f: Fd)
    requires n < 4 && f >= 3
    ensures From3(AfterChild(Copied(From3(t0, Marks(n))[f := Entry(0, false)], f, HIGH), n), false) == From3(t0, false)
  {}

  /** A check that has been made: the flag of fd[i], or that fd[min..] are closed. */
  datatype Check = Flag(i: nat, expected: bool) | Closed(min: nat)

  function ChildMakes(n: nat): seq<Check> {
    if n == 0 || n == 1 then [Closed(0)] else [Flag(0, true), Flag(1, true), Flag(2, false)]
  }

  function ParentMakes(n: nat): seq<Check> {
    if n == 0 then [Closed(0)]
    else if n == 1 then [Flag(0, false), Flag(1, false), Flag(2, false)]
    else if n == 2 then [Flag(0, true), Flag(1, true), Flag(2, false)]
    else [Flag(0, false), Flag(1, false), Closed(2)]
  }

  /** All the checks of the first n cases. */
  function Makes(n: nat): seq<Check> {
    if n == 0 then [] else Makes(n - 1) + ChildMakes(n - 1) + ParentMakes(n - 1) + [Closed(0)]
  }

  lemma MakesNothing(checks: seq<Check>)
    ensures checks + Makes(0) == checks
  {}

  lemma MakesNext(checks: seq<Check>, n: nat)
    ensures checks + Makes(n + 1) == checks + Makes(n) + ChildMakes(n) + ParentMakes(n) + [Closed(0)]
  {}

  class Test {
    const limit: Fd
    var fd: seq<Fd>
    var failures: nat
    var broken: bool
    ghost var checks: seq<Check>

    constructor (limit: Fd)
      ensures this.limit == limit && |fd| == 3 && failures == 0 && !broken && checks == []
    {
      this.limit, fd, failures, broken, checks := limit, [0, 0, 0], 0, false, [];
    }

    /** check_cloexec; SAFE_FCNTL breaks the test off when the descriptor is closed. */
    method CheckCloexec(p: Process, i: nat, expected: bool)
      requires i < |fd|
      modifies this`failures, this`broken, this`checks
      ensures checks == old(checks) + [Flag(i, expected)]
      ensures broken == (old(broken) || fd[i] !in p.files.fds)
      ensures failures == old(failures) +
                          if fd[i] in p.files.fds && p.files.fds[fd[i]].cloexec != expected then 1 else 0
    {
      checks := checks + [Flag(i, expected)];
      if fd[i] !in p.files.fds {
        broken := true;
      } else if p.files.fds[fd[i]].cloexec != expected {
        failures := failures + 1;
      }
    }

    /** check_closed: a failure for each descriptor from `min` on that is still open. */
    method CheckClosed(p: Process, min: nat)
      requires |fd| == 3 && min <= 3
      modifies this`failures, this`checks
      ensures failures == old(failures) + Open(p.files.fds, fd, min) && checks == old(checks) + [Closed(min)]
      ensures failures == old(failures) <==> AllClosed(p.files.fds, fd, min, 3)
    {
      checks := checks + [Closed(min)];
      var i := min;
      while i < 3
        invariant min <= i <= 3 && checks == old(checks) + [Closed(min)]
        invariant failures + Open(p.files.fds, fd, i) == old(failures) + Open(p.files.fds, fd, min)
        invariant failures == old(failures) <==> AllClosed(p.files.fds, fd, min, i)
      {
        assert AllClosed(p.files.fds, fd, min, i + 1) <==> AllClosed(p.files.fds, fd, min, i) && fd[i] !in p.files.fds;
        if fd[i] in p.files.fds {
          failures := failures + 1;
        }
        i := i + 1;
      }
    }

    /** The child of case n, on a table it shares with its parent. */
    method Child(n: nat, c: Process)
      requires n < 4 && limit > HIGH && |fd| == 3 && fd[1] == HIGH && fd[2] == TARGET
      requires fd[0] in c.files.fds && !c.files.fds[fd[0]].cloexec && HIGH in c.files.fds && c.files.users > 1
      modifies this`failures, this`broken, this`checks, c, c.files
      ensures checks == old(checks) + ChildMakes(n)
      ensures old(c.files).fds == AfterChild(old(c.files.fds), n)
      ensures if Unshares(n) then fresh(c.files) && c.files.users == 1 && old(c.files).users == old(c.files.users) - 1
              else c.files == old(c.files) && c.files.users == old(c.files.users)
      ensures broken == old(broken) && failures >= old(failures)
      ensures failures == old(failures) <==> fd[0] >= 3
    {
      var ok;
      if n == 0 || n == 1 {
        ok := c.Dup2(fd[1], fd[2], limit);
        c.DoCloseRange(Unshares(n), false);
        CheckClosed(c, 0);
      } else {
        c.DoCloseRange(Unshares(n), true);
        CheckCloexec(c, 0, true);
        CheckCloexec(c, 1, true);
        ok := c.Dup2(fd[1], fd[2], limit);
        CheckCloexec(c, 2, false);
      }
    }

    /** Opens the file, makes the two descriptors, and lets the child run to its exit; whichever
        table it then had, the parent has its own to itself again. */
    method OpenAndClone(n: nat, parent: Process)
      requires n < 4 && |fd| == 3 && limit >= HIGH && parent.files.users == 1 && !broken
      modifies this`fd, this`failures, this`broken, this`checks, parent.files
      ensures !broken ==> checks == old(checks) + ChildMakes(n)
      ensures parent.files == old(parent.files) && |fd| == 3 && failures >= old(failures)
      ensures parent.files.users == 1
      ensures broken <==> limit == HIGH || forall j: Fd | j < limit :: j in old(parent.files.fds)
      ensures !broken ==>
                && fd[0] < limit && IsLowestFree(old(parent.files.fds), fd[0]) && fd[1] == 1000 && fd[2] == 42
                && (failures == old(failures) <==> fd[0] >= 3)
                && var t := old(parent.files.fds)[fd[0] := Entry(0, false)];
                   parent.files.fds == AfterChild(Copied(t, fd[0], HIGH), n)
    {
      var f := parent.Open(0, limit);
      if f == -1 {
        broken := true;
        return;
      }
      fd := fd[0 := f];
      var ok := parent.Dup2(fd[0], HIGH, limit);
      if !ok {
        broken := true;
        return;
      }
      fd := fd[1 := HIGH][2 := TARGET];
      parent.files.users := parent.files.users + 1;
      var child := new Process(parent.files);
      Child(n, child);
      child.Exit();
    }

    /** What the parent checks after the child has been reaped. */
    method ParentChecks(n: nat, parent: Process)
      requires n < 4 && |fd| == 3
      modifies this`failures, this`broken, this`checks
      ensures failures >= old(failures) && (old(broken) ==> broken) && checks == old(checks) + ParentMakes(n)
      ensures (!broken && failures == old(failures)) <==> !old(broken) && ParentSees(parent.files.fds, fd, n)
    {
      if n == 0 {
        CheckClosed(parent, 0);
      } else if n == 1 {
        CheckCloexec(parent, 0, false);
        CheckCloexec(parent, 1, false);
        CheckCloexec(parent, 2, false);
      } else if n == 2 {
        CheckCloexec(parent, 0, true);
        CheckCloexec(parent, 1, true);
        CheckCloexec(parent, 2, false);
      } else {
        CheckCloexec(parent, 0, false);
        CheckCloexec(parent, 1, false);
        CheckClosed(parent, 2);
      }
    }

    /**
     Case n on any initial table: it passes exactly when `Meets` says so, and then leaves the
     parent with nothing but the standard descriptors, in a table of its own.  The limit is what
     setup has raised it to, at least 1000.
     */
    method Run(n: nat, parent: Process) returns (passed: bool)
      requires n < 4 && |fd| == 3 && limit >= HIGH && parent.files.users == 1 && !broken
      modifies this, parent, parent.files
      ensures |fd| == 3 && parent.files == old(parent.files) && parent.files.users == 1
      ensures passed <==> Meets(old(parent.files.fds), limit, n)
      ensures passed ==> !broken && failures == old(failures) && parent.files.fds == From3(old(parent.files.fds), false)
      ensures !broken ==> checks == old(checks) + ChildMakes(n) + ParentMakes(n) + [Closed(0)]
    {
      ghost var t0 := parent.files.fds;
      var failures0 := failures;
      parent.DoCloseRange(Unshares(n), Marks(n));
      ghost var t1 := parent.files.fds;
      OpenAndClone(n, parent);
      if broken {
        NoRoom(t0, limit, n);
        return false;
      }
      PassesIff(t0, limit, n, fd[0]);
      assert fd == [fd[0], HIGH, TARGET];
      ghost var t2 := parent.files.fds;
      ParentChecks(n, parent);
      parent.DoCloseRange(false, false);
      CheckClosed(parent, 0);
      passed := !broken && failures == failures0;
      if passed {
        LeftBehind(t0, n, fd[0]);
      }
    }

    /** The test as it is run, case 0 to case 3: for any initial table all of it passes exactly
        when the limit is above 1000 and the standard descriptors are open. */
    method RunCases(parent: Process) returns (passed: bool)
      requires |fd| == 3 && limit >= HIGH && parent.files.users == 1 && !broken
      modifies this, parent, parent.files
      ensures passed <==> limit > 1000 && Standard(old(parent.files.fds))
      ensures passed ==> parent.files.fds == From3(old(parent.files.fds), false)
      ensures passed ==> Cut(old(parent.files.fds), parent.files.fds, false) && checks == old(checks) + Makes(4)
    {
      From3Cuts(parent.files.fds, false);
      BeforeFirst(parent.files.fds);
      MakesNothing(checks);
      hide *;
      ghost var t := parent.files.fds;
      CasesInOrder(t, limit);
      passed := true;
      var n := 0;
      while n < 4 && !broken
        invariant 0 <= n <= 4 && |fd| == 3 && parent.files == old(parent.files) && parent.files.users == 1
        invariant passed <==> forall k: nat | k < n :: Meets(Before(t, k), limit, k)
        invariant passed ==> !broken && parent.files.fds == Before(t, n)
        invariant !broken ==> checks == old(checks) + Makes(n)
        decreases 4 - n
      {
        var ok := Run(n, parent);
        BeforeNext(t, n);
        MakesNext(old(checks), n);
        passed := passed && ok;
        n := n + 1;
      }
    }
  }
}
