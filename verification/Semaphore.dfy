/**
 eventfd2_03.c: two processes that post to each other through two semaphore-like eventfds.
 Each runs the same list of rounds; in a round it posts n and then waits n times.
 */
module Semaphore {
  const INT_MAX: nat := 0x7FFF_FFFF
  /** The largest value an eventfd counter can take; a write that would pass it blocks. */
  const COUNTER_MAX: nat := 0xFFFF_FFFF_FFFF_FFFE

  datatype Action = Post(n: nat) | Wait

  /** xsem_post takes an int. */
  type Count = n: nat | n <= INT_MAX

  function Waits(n: nat): (w: seq<Action>)
    ensures |w| == n && forall k | 0 <= k < n :: w[k] == Wait
  {
    seq(n, _ => Wait)
  }

  function Program(rounds: seq<Count>): seq<Action> {
    if rounds == [] then [] else [Post(rounds[0])] + Waits(rounds[0]) + Program(rounds[1..])
  }

  /** sem_player: one round of 1 and one of 5. */
  function SemPlayer(): seq<Action> {
    [Post(1), Wait, Post(5), Wait, Wait, Wait, Wait, Wait]
  }

  lemma SemPlayerIsTwoRounds()
    ensures SemPlayer() == Program([1, 5])
  {
    var r: seq<Count> := [5];
    assert r[1..] == [] && Program([]) == [];
    assert Program(r) == [Post(5)] + Waits(5) + Program(r[1..]);
    var both: seq<Count> := [1, 5];
    assert both[1..] == r;
    assert Program(both) == [Post(1)] + Waits(1) + Program(r);
  }

  // ---------- one player ----------

  /** Units posted, and units waited for, in the first k actions. */
  function Posted(prog: seq<Action>, k: nat): nat
    requires k <= |prog|
  {
    if k == 0 then 0 else Posted(prog, k - 1) + if prog[k - 1].Post? then prog[k - 1].n else 0
  }

  function Waited(prog: seq<Action>, k: nat): nat
    requires k <= |prog|
  {
    if k == 0 then 0 else Waited(prog, k - 1) + if prog[k - 1].Wait? then 1 else 0
  }

  /** A player never waits for more than it has posted, has waited for everything before it
      posts again, and is at most one post ahead of its waits. */
  ghost predicate BalancedAt(prog: seq<Action>, k: nat)
    requires k <= |prog|
  {
    && Waited(prog, k) <= Posted(prog, k) <= Waited(prog, k) + INT_MAX
    && (k == |prog| || prog[k].Post? ==> Posted(prog, k) == Waited(prog, k))
    && (k < |prog| && prog[k].Post? ==> prog[k].n <= INT_MAX)
    && (k < |prog| && prog[k].Wait? ==> Waited(prog, k) < Posted(prog, k))
  }

  ghost predicate Balanced(prog: seq<Action>) {
    forall k: nat | k <= |prog| :: BalancedAt(prog, k)
  }

  /** Within the first round. */
  lemma {:induction false} FirstRound(n: Count, rest: seq<Action>, k: nat)
    requires k <= n + 1
    ensures var prog := [Post(n)] + Waits(n) + rest;
            && Posted(prog, k) == (if k == 0 then 0 else n)
            && Waited(prog, k) == (if k == 0 then 0 else k - 1)
  {
    if k == 0 {
    } else {
      FirstRound(n, rest, k - 1);
    }
  }

  /** Behind the first round, everything is as in the rest alone, n units later. */
  lemma {:induction false} LaterRounds(n: Count, rest: seq<Action>, j: nat)
    requires j <= |rest|
    ensures var prog := [Post(n)] + Waits(n) + rest;
            && Posted(prog, n + 1 + j) == n + Posted(rest, j)
            && Waited(prog, n + 1 + j) == n + Waited(rest, j)
  {
    if j == 0 {
      FirstRound(n, rest, n + 1);
    } else {
      LaterRounds(n, rest, j - 1);
      var prog := [Post(n)] + Waits(n) + rest;
      assert prog[n + j] == rest[j - 1];
    }
  }

  lemma {:induction false} ProgramBalanced(rounds: seq<Count>)
    ensures Balanced(Program(rounds))
  {
    var prog := Program(rounds);
    if rounds == [] {
    } else {
      var n, rest := rounds[0], Program(rounds[1..]);
      ProgramBalanced(rounds[1..]);
      forall k: nat | k <= |prog| ensures BalancedAt(prog, k) {
        if k <= n {
          FirstRound(n, rest, k);
        } else {
          LaterRounds(n, rest, k - n - 1);
          assert BalancedAt(rest, k - n - 1);
          assert k < |prog| ==> prog[k] == rest[k - n - 1];
        }
      }
    }
  }

  // ---------- two players ----------

  datatype Player = First | Second

  /** Where each player is, and the two counters: c1 is posted by the first player and waited
      on by the second, c2 the other way round. */
  datatype State = State(pc1: nat, pc2: nat, c1: nat, c2: nat)

  const START: State := State(0, 0, 0, 0)

  predicate Can(action: Action, mine: nat, other: nat) {
    match action case Post(n) => mine + n <= COUNTER_MAX case Wait => other > 0
  }

  predicate Enabled(prog: seq<Action>, s: State, p: Player) {
    if p.First? then s.pc1 < |prog| && Can(prog[s.pc1], s.c1, s.c2)
    else s.pc2 < |prog| && Can(prog[s.pc2], s.c2, s.c1)
  }

  function Step(prog: seq<Action>, s: State, p: Player): State
    requires Enabled(prog, s, p)
  {
    if p.First? then
      match prog[s.pc1]
      case Post(n) => s.(pc1 := s.pc1 + 1, c1 := s.c1 + n)
      case Wait => s.(pc1 := s.pc1 + 1, c2 := s.c2 - 1)
    else
      match prog[s.pc2]
      case Post(n) => s.(pc2 := s.pc2 + 1, c2 := s.c2 + n)
      case Wait => s.(pc2 := s.pc2 + 1, c1 := s.c1 - 1)
  }

  /** Each counter holds what has been posted to it less what has been waited for. */
  ghost predicate Inv(prog: seq<Action>, s: State) {
    && s.pc1 <= |prog| && s.pc2 <= |prog|
    && s.c1 == Posted(prog, s.pc1) - Waited(prog, s.pc2)
    && s.c2 == Posted(prog, s.pc2) - Waited(prog, s.pc1)
  }

  predicate Done(prog: seq<Action>, s: State) {
    s.pc1 == |prog| && s.pc2 == |prog|
  }

  lemma StartInv(prog: seq<Action>)
    ensures Inv(prog, START)
  {}

  lemma StepKeepsInv(prog: seq<Action>, s: State, p: Player)
    requires Inv(prog, s) && Enabled(prog, s, p)
    ensures Inv(prog, Step(prog, s, p))
    ensures Step(prog, s, p).pc1 + Step(prog, s, p).pc2 == s.pc1 + s.pc2 + 1
  {}

  /** A post never blocks: the counter stays far below its maximum. */
  lemma PostsNeverBlock(prog: seq<Action>, s: State)
    requires Balanced(prog) && Inv(prog, s)
    ensures s.pc1 < |prog| && prog[s.pc1].Post? ==> Enabled(prog, s, First)
    ensures s.pc2 < |prog| && prog[s.pc2].Post? ==> Enabled(prog, s, Second)
    ensures s.c1 <= 0xFFFF_FFFE && s.c2 <= 0xFFFF_FFFE
  {
    assert BalancedAt(prog, s.pc1) && BalancedAt(prog, s.pc2);
  }

  lemma {:induction false} PostedGrows(prog: seq<Action>, j: nat, k: nat)
    requires j <= k <= |prog|
    ensures Posted(prog, j) <= Posted(prog, k)
    decreases k
  {
    if j >= k {
    } else {
      PostedGrows(prog, j, k - 1);
    }
  }

  /** No state the players can get into leaves both stuck with one of them not done. */
  lemma NoDeadlock(prog: seq<Action>, s: State)
    requires Balanced(prog) && Inv(prog, s) && !Done(prog, s)
    ensures Enabled(prog, s, First) || Enabled(prog, s, Second)
  {
    assert BalancedAt(prog, s.pc1) && BalancedAt(prog, s.pc2);
    PostsNeverBlock(prog, s);
    PostedGrows(prog, s.pc1, |prog|);
    PostedGrows(prog, s.pc2, |prog|);
  }

  lemma DoneMeansEmpty(prog: seq<Action>, s: State)
    requires Balanced(prog) && Inv(prog, s) && Done(prog, s)
    ensures s.c1 == 0 && s.c2 == 0
  {
    assert BalancedAt(prog, |prog|);
  }

  /** An interleaving: who moves, move by move. */
  ghost predicate IsRun(prog: seq<Action>, s: State, moves: seq<Player>, t: State)
    decreases |moves|
  {
    if moves == [] then s == t
    else Enabled(prog, s, moves[0]) && IsRun(prog, Step(prog, s, moves[0]), moves[1..], t)
  }

  lemma {:induction false} RunKeepsInv(prog: seq<Action>, s: State, moves: seq<Player>, t: State)
    requires Inv(prog, s) && IsRun(prog, s, moves, t)
    ensures Inv(prog, t) && t.pc1 + t.pc2 == s.pc1 + s.pc2 + |moves|
    decreases |moves|
  {
    if moves == [] {
    } else {
      StepKeepsInv(prog, s, moves[0]);
      RunKeepsInv(prog, Step(prog, s, moves[0]), moves[1..], t);
    }
  }

  /**
   For any rounds and any interleaving from the start: it has at most two moves per action, and
   when it cannot be continued both players are done, both counters are 0 and every action of
   both has been taken.
   */
  lemma EveryRunEndsWell(rounds: seq<Count>, moves: seq<Player>, t: State)
    requires IsRun(Program(rounds), START, moves, t)
    ensures var prog := Program(rounds);
            && |moves| <= 2 * |prog|
            && (!Enabled(prog, t, First) && !Enabled(prog, t, Second) ==>
                  Done(prog, t) && t.c1 == 0 && t.c2 == 0 && |moves| == 2 * |prog|)
  {
    var prog := Program(rounds);
    ProgramBalanced(rounds);
    RunKeepsInv(prog, START, moves, t);
    if !Done(prog, t) {
      NoDeadlock(prog, t);
    } else {
      DoneMeansEmpty(prog, t);
    }
  }

  // ---------- the processes ----------

  class Eventfd {
    var counter: nat

    constructor ()
      ensures counter == 0
    {
      counter := 0;
    }

    /** xsem_post. */
    method XsemPost(count: nat)
      requires counter + count <= COUNTER_MAX
      modifies this
      ensures counter == old(counter) + count
    {
      counter := counter + count;
    }

    /** xsem_wait: a semaphore-like read takes one unit. */
    method XsemWait()
      requires counter > 0
      modifies this
      ensures counter == old(counter) - 1
    {
      counter := counter - 1;
    }
  }

  /** One action of a player that posts on fd1 and waits on fd2. */
  method Act(action: Action, fd1: Eventfd, fd2: Eventfd)
    requires fd1 != fd2 && Can(action, fd1.counter, fd2.counter)
    modifies fd1, fd2
    ensures fd1.counter == old(fd1.counter) + if action.Post? then action.n else 0
    ensures fd2.counter == old(fd2.counter) - if action.Wait? then 1 else 0
  {
    match action {
      case Post(n) => fd1.XsemPost(n);
      case Wait => fd2.XsemWait();
    }
  }

  /** run: two players with the eventfds swapped, scheduled in any order that lets one that can
      move do so; both come to their end and leave both counters at 0. */
  method RunPlayers(rounds: seq<Count>) returns (fd1: Eventfd, fd2: Eventfd)
    ensures fd1 != fd2 && fd1.counter == 0 && fd2.counter == 0
  {
    hide Balanced, Posted, Waited, Inv, Program;
    var prog := Program(rounds);
    ProgramBalanced(rounds);
    StartInv(prog);
    fd1 := new Eventfd();
    fd2 := new Eventfd();
    var pc1, pc2 := 0, 0;
    while pc1 < |prog| || pc2 < |prog|
      invariant 0 <= pc1 <= |prog| && 0 <= pc2 <= |prog| && fd1 != fd2 && fresh(fd1) && fresh(fd2)
      invariant Inv(prog, State(pc1, pc2, fd1.counter, fd2.counter))
      decreases 2 * |prog| - pc1 - pc2
    {
      ghost var s := State(pc1, pc2, fd1.counter, fd2.counter);
      NoDeadlock(prog, s);
      if {
        case pc1 < |prog| && Can(prog[pc1], fd1.counter, fd2.counter) =>
          StepKeepsInv(prog, s, First);
          Act(prog[pc1], fd1, fd2);
          pc1 := pc1 + 1;
        case pc2 < |prog| && Can(prog[pc2], fd2.counter, fd1.counter) =>
          StepKeepsInv(prog, s, Second);
          Act(prog[pc2], fd2, fd1);
          pc2 := pc2 + 1;
      }
    }
    DoneMeansEmpty(prog, State(pc1, pc2, fd1.counter, fd2.counter));
  }
}
