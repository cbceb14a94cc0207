/**
 The controllers that watch the switch file: pollers that attach a group of probes while the
 file holds their command, the mutation listener, and the system-call monitor.
 */
module Control {
  import opened Text

  // ---------- a poller ----------

  datatype Kind = Kprobe | Kretprobe

  datatype Probe = Probe(kind: Kind, event: string, fn: string)

  datatype Group = AttachAll | DetachAll

  datatype PollerState = PollerState(attached: bool, installed: set<Probe>, log: seq<Group>)

  const IDLE: PollerState := PollerState(false, {}, [])

  /** One turn of the polling loop of a controller with this command and these probes. */
  function Polled(st: PollerState, content: string, command: string, probes: set<Probe>): PollerState {
    if Strip(content) == command && !st.attached then
      PollerState(true, st.installed + probes, st.log + [AttachAll])
    else if Strip(content) != command && st.attached then
      PollerState(false, st.installed - probes, st.log + [DetachAll])
    else st
  }

  /** Attach and detach alternate, attach first, and the flag tells which came last. */
  ghost predicate Alternates(log: seq<Group>, attached: bool) {
    && (forall k | 0 <= k < |log| :: log[k] == if k % 2 == 0 then AttachAll else DetachAll)
    && (attached <==> |log| % 2 == 1)
  }

  /** All of a poller's probes are installed, or none is. */
  ghost predicate PollerInv(st: PollerState, probes: set<Probe>) {
    Alternates(st.log, st.attached) && st.installed == if st.attached then probes else {}
  }

  lemma PolledKeepsInv(st: PollerState, content: string, command: string, probes: set<Probe>)
    requires PollerInv(st, probes)
    ensures PollerInv(Polled(st, content, command, probes), probes)
    ensures Polled(st, content, command, probes).attached <==> Strip(content) == command
  {}

  /** Whatever white space the writer puts around the command, a poll of it leaves the poller
      attached, and a poll of other text leaves it detached. */
  lemma PolledAround(st: PollerState, a: string, text: string, b: string, command: string, probes: set<Probe>)
    requires PollerInv(st, probes) && Blank(a) && Blank(b) && IsTight(text)
    ensures var st' := Polled(st, a + text + b, command, probes);
            if text == command then st'.attached && st'.installed == probes
            else !st'.attached && st'.installed == {}
  {
    hide Strip;
    StripAround(a, text, b);
    PolledKeepsInv(st, a + text + b, command, probes);
  }

  class Poller {
    const command: string
    const probes: seq<Probe>
    var attached: bool
    var installed: set<Probe>
    ghost var log: seq<Group>

    ghost function Contents(): PollerState
      reads this
    {
      PollerState(attached, installed, log)
    }

    ghost function Group(): set<Probe> {
      set p | p in probes
    }

    constructor (command: string, probes: seq<Probe>)
      ensures this.command == command && this.probes == probes && Contents() == IDLE
    {
      this.command, this.probes := command, probes;
      attached, installed, log := false, {}, [];
    }

    /** The body of the loop: the probes are attached, or detached, one call after the other. */
    method Poll(content: string)
      modifies this
      ensures Contents() == old(Polled(Contents(), content, command, Group()))
    {
      if Strip(content) == command && !attached {
        var i := 0;
        while i < |probes|
          invariant 0 <= i <= |probes| && attached == old(attached) && log == old(log)
          invariant installed == old(installed) + set p | p in probes[..i]
        {
          installed := installed + {probes[i]};
          assert probes[..i + 1] == probes[..i] + [probes[i]];
          i := i + 1;
        }
        assert probes[..i] == probes;
        attached, log := true, log + [AttachAll];
      } else if Strip(content) != command && attached {
        var i := 0;
        while i < |probes|
          invariant 0 <= i <= |probes| && attached == old(attached) && log == old(log)
          invariant installed == old(installed) - set p | p in probes[..i]
        {
          installed := installed - {probes[i]};
          assert probes[..i + 1] == probes[..i] + [probes[i]];
          i := i + 1;
        }
        assert probes[..i] == probes;
        attached, log := false, log + [DetachAll];
      }
    }
  }

  // ---------- the mutation listener ----------

  const PREFIX: string := "mutation_"
  const DONE: string := "done"

  datatype Note = Attach(name: string) | Done

  datatype ListenerState = ListenerState(attached: bool, syscallName: string, savedName: string,
                                         installed: set<string>, log: seq<Note>)

  const DEAF: ListenerState := ListenerState(false, "NULL", "", {}, [])

  predicate Prefixed(content: string) {
    PREFIX <= Strip(content)
  }

  function Name(content: string): string
    requires Prefixed(content)
  {
    Strip(content)[|PREFIX|..]
  }

  /** What the listener makes of one modification event, given the contents it then reads. */
  function Heard(st: ListenerState, content: string): ListenerState {
    if !Prefixed(content) then st
    else
      var name := Name(content);
      if !st.attached && name != DONE then
        ListenerState(true, name, name, st.installed + {name}, st.log + [Attach(name)])
      else if st.attached && name == DONE then
        st.(attached := false, syscallName := name, log := st.log + [Done])
      else st.(syscallName := name)
  }

  function Listening(st: ListenerState, seen: seq<string>): ListenerState
    decreases |seen|
  {
    if seen == [] then st else Heard(Listening(st, seen[..|seen| - 1]), seen[|seen| - 1])
  }

  function LastName(log: seq<Note>): string {
    if log == [] then ""
    else match log[|log| - 1]
      case Attach(name) => name
      case Done => LastName(log[..|log| - 1])
  }

  function Names(log: seq<Note>): set<string> {
    if log == [] then {}
    else (match log[|log| - 1] case Attach(name) => {name} case Done => {}) + Names(log[..|log| - 1])
  }

  ghost predicate NotesAlternate(log: seq<Note>, attached: bool) {
    && (forall k | 0 <= k < |log| :: log[k].Done? <==> k % 2 == 1)
    && (attached <==> |log| % 2 == 1)
  }

  ghost predicate ListenerInv(st: ListenerState) {
    && NotesAlternate(st.log, st.attached)
    && st.savedName == LastName(st.log)
    && st.installed == Names(st.log)
    && (forall k | 0 <= k < |st.log| && st.log[k].Attach? :: st.log[k].name != DONE)
  }

  lemma LogAttach(log: seq<Note>, name: string)
    ensures LastName(log + [Attach(name)]) == name && Names(log + [Attach(name)]) == Names(log) + {name}
  {
    assert (log + [Attach(name)])[..|log|] == log;
  }

  lemma LogDone(log: seq<Note>)
    ensures LastName(log + [Done]) == LastName(log) && Names(log + [Done]) == Names(log)
  {
    assert (log + [Done])[..|log|] == log;
  }

  lemma HeardKeepsInv(st: ListenerState, content: string)
    requires ListenerInv(st)
    ensures ListenerInv(Heard(st, content))
  {
    hide Strip, LastName, Names;
    if Prefixed(content) {
      LogAttach(st.log, Name(content));
      LogDone(st.log);
    }
  }

  /**
   For any contents seen: attachments and acknowledgements alternate, the saved name is the one
   attached last, and, since an acknowledgement detaches nothing, the probes installed are those
   of every name ever attached.
   */
  lemma {:induction false} ListenerRuns(seen: seq<string>)
    ensures ListenerInv(Listening(DEAF, seen))
  {
    hide Heard;
    if seen == [] {
    } else {
      ListenerRuns(seen[..|seen| - 1]);
      HeardKeepsInv(Listening(DEAF, seen[..|seen| - 1]), seen[|seen| - 1]);
    }
  }

  /** Whatever white space is around it, "mutation_<name>" attaches to that name when nothing is
      attached, "mutation_done" clears the flag, and text without the prefix does nothing. */
  lemma HeardAround(st: ListenerState, a: string, text: string, b: string)
    requires Blank(a) && Blank(b) && IsTight(text)
    ensures var st' := Heard(st, a + text + b);
            && (!(PREFIX <= text) ==> st' == st)
            && (PREFIX <= text && text[|PREFIX|..] != "done" && !st.attached ==>
                  && st'.attached && st'.savedName == text[|PREFIX|..]
                  && st'.installed == st.installed + {text[|PREFIX|..]})
            && (text == "mutation_done" ==> !st'.attached && st'.installed == st.installed)
            && (PREFIX <= text && text[|PREFIX|..] != "done" && st.attached ==>
                  st' == st.(syscallName := text[|PREFIX|..]))
  {
    hide Strip;
    StripAround(a, text, b);
    assert "mutation_done"[|PREFIX|..] == "done";
  }

  /** Contents without the prefix change nothing. */
  lemma {:induction false} UnprefixedIgnored(st: ListenerState, seen: seq<string>)
    requires forall k | 0 <= k < |seen| :: !Prefixed(seen[k])
    ensures Listening(st, seen) == st
    decreases |seen|
  {
    if seen == [] {
    } else {
      UnprefixedIgnored(st, seen[..|seen| - 1]);
    }
  }

  lemma {:induction false} LastIsInstalled(log: seq<Note>)
    requires NotesAlternate(log, |log| % 2 == 1)
    ensures log != [] ==> LastName(log) in Names(log)
  {
    if log == [] || log[|log| - 1].Attach? {
    } else {
      LastIsInstalled(log[..|log| - 1]);
    }
  }

  predicate Attaches(content: string) {
    Prefixed(content) && Name(content) != DONE
  }

  predicate Acknowledges(content: string) {
    Prefixed(content) && Name(content) == DONE
  }

  /** Some contents ask for an attachment, and none after them acknowledge it. */
  ghost predicate Pending(seen: seq<string>) {
    exists k | 0 <= k < |seen| :: Attaches(seen[k]) && forall j | k < j < |seen| :: !Acknowledges(seen[j])
  }

  ghost predicate NeverAsked(seen: seq<string>) {
    forall k | 0 <= k < |seen| :: !Attaches(seen[k])
  }

  lemma PendingSnoc(head: seq<string>, last: string)
    ensures Pending(head + [last]) <==> Attaches(last) || (Pending(head) && !Acknowledges(last))
  {
    hide Attaches, Acknowledges;
    var seen, n := head + [last], |head|;
    assert forall k | 0 <= k < n :: seen[k] == head[k];
    assert seen[n] == last;
    if Attaches(last) {
      assert Attaches(seen[n]);
    }
    if k :| 0 <= k < n && Attaches(head[k]) && forall j | k < j < n :: !Acknowledges(head[j]) {
      assert Attaches(seen[k]);
      assert !Acknowledges(last) ==> forall j | k < j < |seen| :: !Acknowledges(seen[j]);
    }
    if k :| 0 <= k < |seen| && Attaches(seen[k]) && forall j | k < j < |seen| :: !Acknowledges(seen[j]) {
      assert k < n ==> Attaches(head[k]) && !Acknowledges(seen[n]);
      assert k < n ==> forall j | k < j < n :: !Acknowledges(seen[j]);
    }
  }

  lemma NeverAskedSnoc(head: seq<string>, last: string)
    ensures NeverAsked(head + [last]) <==> NeverAsked(head) && !Attaches(last)
  {
    hide Attaches;
    var seen := head + [last];
    assert forall k | 0 <= k < |head| :: seen[k] == head[k];
    assert seen[|head|] == last;
  }

  /** What the contents seen make of the flag and of the probes. */
  lemma {:induction false} ListenerByContents(seen: seq<string>)
    ensures var st := Listening(DEAF, seen);
            (st.attached <==> Pending(seen)) && (st.installed == {} <==> NeverAsked(seen))
  {
    hide Strip, Pending, NeverAsked;
    if seen == [] {
      NothingSeen();
    } else {
      var head, last := seen[..|seen| - 1], seen[|seen| - 1];
      assert seen == head + [last];
      ListenerByContents(head);
      PendingSnoc(head, last);
      NeverAskedSnoc(head, last);
      PendingAsked(head);
      var st := Listening(DEAF, head);
      assert st.attached ==> st.installed != {};
      assert Attaches(last) && !st.attached ==> Name(last) in Heard(st, last).installed;
    }
  }

  lemma NothingSeen()
    ensures !Pending([]) && NeverAsked([])
  {}

  lemma PendingAsked(seen: seq<string>)
    ensures Pending(seen) ==> !NeverAsked(seen)
  {
    hide Attaches, Acknowledges;
  }

  /**
   Acknowledging "done" detaches nothing.  So the probes are gone when the flag is clear exactly
   if no contents ever asked for an attachment, or if the last such request has not been
   acknowledged, so that the flag is not clear in the first place.
   */
  lemma ProbesOutliveTheFlag(seen: seq<string>)
    ensures var st := Listening(DEAF, seen);
            && ((!st.attached ==> st.installed == {}) <==> NeverAsked(seen) || Pending(seen))
            && (!NeverAsked(seen) ==> st.savedName in st.installed)
  {
    hide Pending, NeverAsked;
    ListenerByContents(seen);
    ListenerRuns(seen);
    LastIsInstalled(Listening(DEAF, seen).log);
  }

  /** For instance: attached, acknowledged, and the probe is still there. */
  lemma DoneDetachesNothing()
    ensures var st := Listening(DEAF, ["mutation_openat", "mutation_done"]);
            !st.attached && st.installed == {"openat"}
  {
    hide Strip;
    var first, last := "mutation_openat", "mutation_done";
    Tight(first);
    Tight(last);
    assert Name(first) == "openat" && Name(last) == "done";
    assert [first, last][..1] == [first] && [first][..0] == [];
    assert Listening(DEAF, [first]) == Heard(DEAF, first);
  }

  class Listener {
    var attached: bool
    var syscallName: string
    var savedName: string
    var installed: set<string>
    ghost var log: seq<Note>

    ghost function Contents(): ListenerState
      reads this
    {
      ListenerState(attached, syscallName, savedName, installed, log)
    }

    constructor ()
      ensures Contents() == DEAF
    {
      attached, syscallName, savedName, installed, log := false, "NULL", "", {}, [];
    }

    method OnModify(fileContent: string)
      modifies this
      ensures Contents() == old(Heard(Contents(), fileContent))
    {
      var content := Strip(fileContent);
      if PREFIX <= content {
        syscallName := content[|PREFIX|..];
        if !attached && syscallName != DONE {
          savedName := syscallName;
          attached := true;
          installed, log := installed + {syscallName}, log + [Attach(syscallName)];
        } else if attached && syscallName == DONE {
          attached, log := false, log + [Done];
        }
      }
    }
  }

  // ---------- the monitor ----------

  datatype Transition = Began | Ended

  /** The file thread sets the flag first and the kernel's switch next; in between, the event
      thread may run. */
  datatype MonitorState = MonitorState(isMonitoring: bool, switchState: int, midway: bool,
                                       log: seq<Transition>, printed: seq<nat>)

  const QUIET: MonitorState := MonitorState(false, 0, false, [], [])

  /** One step of either thread: the file thread reads the file (or finds it missing), or
      finishes what it began; the event thread handles a perf event. */
  datatype MonitorStep = Read(content: string) | Missing | Finish | PerfEvent

  function Value(step: MonitorStep): string
    requires step.Read? || step.Missing?
  {
    if step.Read? then Strip(step.content) else "0"
  }

  function Monitored(st: MonitorState, step: MonitorStep): MonitorState {
    match step
    case PerfEvent => if st.isMonitoring then st.(printed := st.printed + [|st.log|]) else st
    case Finish => if st.midway then st.(switchState := if st.isMonitoring then 1 else 0, midway := false) else st
    case _ =>
      if st.midway then st
      else if Value(step) != "0" && !st.isMonitoring then
        st.(isMonitoring := true, midway := true, log := st.log + [Began])
      else if Value(step) == "0" && st.isMonitoring then
        st.(isMonitoring := false, midway := true, log := st.log + [Ended])
      else st
  }

  function Monitoring(st: MonitorState, steps: seq<MonitorStep>): MonitorState
    decreases |steps|
  {
    if steps == [] then st else Monitored(Monitoring(st, steps[..|steps| - 1]), steps[|steps| - 1])
  }

  ghost predicate MonitorInv(st: MonitorState) {
    && (st.switchState == 0 || st.switchState == 1)
    && (st.switchState == 1 <==> st.isMonitoring != st.midway)
    && (forall k | 0 <= k < |st.log| :: st.log[k] == if k % 2 == 0 then Began else Ended)
    && (st.isMonitoring <==> |st.log| % 2 == 1)
    && (forall k | 0 <= k < |st.printed| :: st.printed[k] <= |st.log| && st.printed[k] % 2 == 1)
  }

  /**
   In any interleaving of the two threads: whenever the file thread is between events the kernel's
   switch is 1 exactly when the flag is set, starts and stops alternate, and an event is printed
   only after a start that no stop has followed yet.
   */
  lemma {:induction false} MonitorRuns(steps: seq<MonitorStep>)
    ensures var st := Monitoring(QUIET, steps);
            MonitorInv(st) && (!st.midway ==> (st.isMonitoring <==> st.switchState == 1))
  {
    if steps == [] {
    } else {
      MonitorRuns(steps[..|steps| - 1]);
    }
  }

  /** A read of the switch file made between two events of the file thread. */
  ghost predicate ReadAt(steps: seq<MonitorStep>, k: int) {
    && 0 <= k < |steps| && (steps[k].Read? || steps[k].Missing?)
    && !Monitoring(QUIET, steps[..k]).midway
  }

  /** The last such read found something other than "0". */
  ghost predicate LastReadAsks(steps: seq<MonitorStep>) {
    exists k :: && ReadAt(steps, k) && steps[k].Read? && Strip(steps[k].content) != "0"
                && forall j | k < j < |steps| :: !ReadAt(steps, j)
  }

  lemma ReadAtSnoc(head: seq<MonitorStep>, last: MonitorStep, k: int)
    ensures k < |head| ==> (ReadAt(head + [last], k) <==> ReadAt(head, k))
    ensures ReadAt(head + [last], |head|) <==> (last.Read? || last.Missing?) && !Monitoring(QUIET, head).midway
  {
    hide Monitoring;
    assert (head + [last])[..|head|] == head;
    if 0 <= k < |head| {
      assert (head + [last])[..k] == head[..k];
    }
  }

  lemma LastReadSnoc(head: seq<MonitorStep>, last: MonitorStep)
    ensures LastReadAsks(head + [last]) <==>
              if (last.Read? || last.Missing?) && !Monitoring(QUIET, head).midway then
                last.Read? && Strip(last.content) != "0"
              else LastReadAsks(head)
  {
    hide Monitoring, Strip, ReadAt;
    var steps, n := head + [last], |head|;
    forall k | k < n ensures ReadAt(steps, k) <==> ReadAt(head, k) {
      ReadAtSnoc(head, last, k);
    }
    ReadAtSnoc(head, last, n);
    ReadInside(steps);
    assert steps[n] == last && forall k | 0 <= k < n :: steps[k] == head[k];
    if ReadAt(steps, n) {
      if last.Read? && Strip(last.content) != "0" {
        assert ReadAt(steps, n);
      }
    } else {
      ReadInside(head);
      if k :| ReadAt(head, k) && head[k].Read? && Strip(head[k].content) != "0"
              && forall j | k < j < n :: !ReadAt(head, j) {
        assert ReadAt(steps, k);
      }
      if k :| ReadAt(steps, k) && steps[k].Read? && Strip(steps[k].content) != "0"
              && forall j | k < j < |steps| :: !ReadAt(steps, j) {
        assert ReadAt(head, k);
      }
    }
  }

  lemma ReadInside(steps: seq<MonitorStep>)
    ensures forall k | ReadAt(steps, k) :: 0 <= k < |steps|
  {}

  /** In any interleaving the flag is set exactly when the last read made between events found
      something other than "0"; a missing file counts as "0". */
  lemma {:induction false} FlagFollowsFile(steps: seq<MonitorStep>)
    ensures Monitoring(QUIET, steps).isMonitoring <==> LastReadAsks(steps)
  {
    hide Strip, LastReadAsks;
    if steps == [] {
      NothingRead();
    } else {
      var head, last := steps[..|steps| - 1], steps[|steps| - 1];
      assert steps == head + [last];
      FlagFollowsFile(head);
      LastReadSnoc(head, last);
    }
  }

  lemma NothingRead()
    ensures !LastReadAsks([])
  {}

  /** When the file thread finishes what it began, the switch is what the flag is. */
  lemma FinishSettles(st: MonitorState)
    requires MonitorInv(st)
    ensures var st' := Monitored(st, Finish);
            !st'.midway && st'.isMonitoring == st.isMonitoring && (st'.switchState == 1 <==> st'.isMonitoring)
  {}

  /** A "0" with white space around it stops the monitor, any other text starts it. */
  lemma MonitoredAround(st: MonitorState, a: string, text: string, b: string)
    requires Blank(a) && Blank(b) && IsTight(text) && !st.midway
    ensures Monitored(st, Read(a + text + b)).isMonitoring <==> text != "0"
    ensures !Monitored(st, Missing).isMonitoring
  {
    hide Strip;
    StripAround(a, text, b);
  }

  class Monitor {
    var isMonitoring: bool
    var switchState: int
    ghost var midway: bool
    ghost var log: seq<Transition>
    ghost var printed: seq<nat>

    ghost function Contents(): MonitorState
      reads this
    {
      MonitorState(isMonitoring, switchState, midway, log, printed)
    }

    constructor ()
      ensures Contents() == QUIET
    {
      isMonitoring, switchState, midway, log, printed := false, 0, false, [], [];
    }

    /** file_monitor_and_update on one modification event, up to where it sets the flag. */
    method ReadSwitch(content: string, missing: bool) returns (change: bool)
      requires !midway
      modifies this
      ensures Contents() == old(Monitored(Contents(), if missing then Missing else Read(content)))
      ensures change == midway == (isMonitoring != old(isMonitoring))
      ensures isMonitoring <==> !missing && Strip(content) != "0"
    {
      var switchValue := if missing then "0" else Strip(content);
      change := false;
      if switchValue != "0" && !isMonitoring {
        isMonitoring := true;
        change, midway, log := true, true, log + [Began];
      } else if switchValue == "0" && isMonitoring {
        isMonitoring := false;
        change, midway, log := true, true, log + [Ended];
      }
    }

    /** The assignment to switch_state that follows. */
    method SetSwitch()
      requires midway
      modifies this
      ensures Contents() == old(Monitored(Contents(), Finish))
      ensures !midway && isMonitoring == old(isMonitoring) && switchState == if isMonitoring then 1 else 0
    {
      switchState := if isMonitoring then 1 else 0;
      midway := false;
    }

    /** handle_event: whether the event is printed. */
    method HandleEvent() returns (shown: bool)
      modifies this
      ensures Contents() == old(Monitored(Contents(), PerfEvent))
      ensures shown == isMonitoring
    {
      if !isMonitoring {
        return false;
      }
      printed := printed + [|log|];
      shown := true;
    }
  }

  // ---------- all of them on one file ----------

  datatype Setup = Setup(command: string, probes: set<Probe>)

  datatype System = System(content: string, pollers: seq<PollerState>, listener: ListenerState, monitor: MonitorState)

  /** A write to the switch file, or a turn of one of the processes watching it. */
  datatype Event = Write(text: string) | Poll(i: nat) | Listen | Watch(step: MonitorStep)

  function Initial(content: string, n: nat): System {
    System(content, seq(n, _ => IDLE), DEAF, QUIET)
  }

  function Next(setups: seq<Setup>, s: System, e: Event): System {
    match e
    case Write(text) => s.(content := text)
    case Poll(i) =>
      if i < |setups| && i < |s.pollers| then
        s.(pollers := s.pollers[i := Polled(s.pollers[i], s.content, setups[i].command, setups[i].probes)])
      else s
    case Listen => s.(listener := Heard(s.listener, s.content))
    case Watch(step) => s.(monitor := Monitored(s.monitor, if step.Read? then Read(s.content) else step))
  }

  function Run(setups: seq<Setup>, s: System, events: seq<Event>): System
    decreases |events|
  {
    if events == [] then s else Next(setups, Run(setups, s, events[..|events| - 1]), events[|events| - 1])
  }

  ghost predicate SystemInv(setups: seq<Setup>, s: System) {
    && |s.pollers| == |setups|
    && (forall i | 0 <= i < |setups| :: PollerInv(s.pollers[i], setups[i].probes))
    && ListenerInv(s.listener)
    && MonitorInv(s.monitor)
  }

  lemma NextKeepsInv(setups: seq<Setup>, s: System, e: Event)
    requires SystemInv(setups, s)
    ensures SystemInv(setups, Next(setups, s, e))
  {
    hide Strip;
    match e
    case Listen => HeardKeepsInv(s.listener, s.content);
    case _ =>
  }

  /** A turn of the monitor's file thread between events sets the flag by what the shared file
      holds then; when the file is missing, the flag is cleared. */
  lemma WatchFollowsFile(setups: seq<Setup>, s: System, text: string)
    requires !s.monitor.midway
    ensures Next(setups, s, Watch(Read(text))).monitor.isMonitoring <==> Strip(s.content) != "0"
    ensures !Next(setups, s, Watch(Missing)).monitor.isMonitoring
    ensures Next(setups, s, Watch(PerfEvent)).monitor.isMonitoring == s.monitor.isMonitoring
  {
    hide Strip;
  }

  /** Whatever is written and whoever takes a turn, each process keeps its own invariant. */
  lemma {:induction false} SystemRuns(setups: seq<Setup>, content: string, events: seq<Event>)
    ensures SystemInv(setups, Run(setups, Initial(content, |setups|), events))
  {
    hide PollerInv, ListenerInv, MonitorInv, Next;
    if events == [] {
      InitialInv(setups, content);
    } else {
      SystemRuns(setups, content, events[..|events| - 1]);
      NextKeepsInv(setups, Run(setups, Initial(content, |setups|), events[..|events| - 1]), events[|events| - 1]);
    }
  }

  lemma InitialInv(setups: seq<Setup>, content: string)
    ensures SystemInv(setups, Initial(content, |setups|))
  {}

  ghost predicate NoWrite(events: seq<Event>) {
    forall k | 0 <= k < |events| :: !events[k].Write?
  }

  /** As long as nothing is written, a poller that has polled is attached exactly when the file
      holds its command. */
  lemma {:induction false} SettledAfterPoll(setups: seq<Setup>, s: System, events: seq<Event>, i: nat)
    requires SystemInv(setups, s) && NoWrite(events) && i < |setups| && Poll(i) in events
    ensures var t := Run(setups, s, events);
            SystemInv(setups, t) && t.content == s.content
            && (t.pollers[i].attached <==> Strip(s.content) == setups[i].command)
    decreases |events|
  {
    hide Strip;
    var n := |events| - 1;
    var head, e := events[..n], events[n];
    RunKeeps(setups, s, head);
    var t := Run(setups, s, head);
    NextKeepsInv(setups, t, e);
    if e == Poll(i) {
      PolledKeepsInv(t.pollers[i], t.content, setups[i].command, setups[i].probes);
    } else {
      assert events == head + [e];
      SettledAfterPoll(setups, s, head, i);
      if e.Poll? && e.i < |setups| && e.i != i {
        assert Next(setups, t, e).pollers[i] == t.pollers[i];
      }
    }
  }

  lemma {:induction false} RunKeeps(setups: seq<Setup>, s: System, events: seq<Event>)
    requires SystemInv(setups, s) && NoWrite(events)
    ensures SystemInv(setups, Run(setups, s, events)) && Run(setups, s, events).content == s.content
    decreases |events|
  {
    hide SystemInv;
    if events == [] {
    } else {
      RunKeeps(setups, s, events[..|events| - 1]);
      NextKeepsInv(setups, Run(setups, s, events[..|events| - 1]), events[|events| - 1]);
    }
  }

  ghost predicate DistinctCommands(setups: seq<Setup>) {
    forall i, j | 0 <= i < j < |setups| :: setups[i].command != setups[j].command
  }

  /**
   After any history, once every poller has polled since the last write, a poller has its probes
   installed exactly when the file holds its command, and so at most one of them has.
   */
  lemma AtMostOneAttached(setups: seq<Setup>, content: string, history: seq<Event>, since: seq<Event>, i: nat, j: nat)
    requires DistinctCommands(setups) && NoWrite(since)
    requires forall k: nat | k < |setups| :: Poll(k) in since
    requires i < |setups| && j < |setups|
    ensures var s := Run(setups, Initial(content, |setups|), history);
            var t := Run(setups, s, since);
            && |t.pollers| == |setups|
            && (t.pollers[i].installed == if Strip(s.content) == setups[i].command then setups[i].probes else {})
            && (t.pollers[i].attached && t.pollers[j].attached ==> i == j)
  {
    hide Strip, Run, PollerInv;
    var s := Run(setups, Initial(content, |setups|), history);
    SystemRuns(setups, content, history);
    SettledAfterPoll(setups, s, since, i);
    SettledAfterPoll(setups, s, since, j);
    InstalledByFlag(Run(setups, s, since).pollers[i], setups[i].probes);
  }

  lemma InstalledByFlag(st: PollerState, probes: set<Probe>)
    requires PollerInv(st, probes)
    ensures st.installed == if st.attached then probes else {}
  {}

  // ---------- the five pollers of the repository ----------

  function Accept(): Setup {
    Setup("iago_attack_accept", {Probe(Kretprobe, "accept", "handle_sys_accept"),
                                 Probe(Kretprobe, "accept4", "handle_sys_accept")})
  }

  function EpollWait(): Setup {
    Setup("iago_attack_epoll_wait", {Probe(Kprobe, "epoll_wait", "syscall__trace_entry_epoll_wait"),
                                     Probe(Kretprobe, "epoll_wait", "syscall__trace_exit_epoll_wait")})
  }

  function Fstat(): Setup {
    Setup("iago_attack_fstat", {Probe(Kprobe, "newfstatat", "syscall__newfstatat"),
                                Probe(Kprobe, "newfstat", "syscall__newfstat"),
                                Probe(Kretprobe, "newfstatat", "syscall__newfstatat_ret"),
                                Probe(Kretprobe, "newfstat", "syscall__newfstatat_ret")})
  }

  function ReadPoller(): Setup {
    Setup("iago_attack_read", {Probe(Kprobe, "read", "syscall__read"), Probe(Kretprobe, "read", "syscall__read_ret")})
  }

  function Readlink(): Setup {
    Setup("iago_attack_readlink", {Probe(Kretprobe, "readlink", "handle_readlink")})
  }

  function Repository(): seq<Setup> {
    [Accept(), EpollWait(), Fstat(), ReadPoller(), Readlink()]
  }

  /** So a command written with a line feed behind it, as by a shell, attaches its poller. */
  lemma CommandWithLineFeed(st: PollerState, i: nat, b: string)
    requires i < 5 && PollerInv(st, Repository()[i].probes) && Blank(b)
    ensures var setup := Repository()[i];
            Polled(st, setup.command + b, setup.command, setup.probes).attached
  {
    var setup := Repository()[i];
    PolledAround(st, "", setup.command, b, setup.command, setup.probes);
    assert "" + setup.command + b == setup.command + b;
  }

  /** The commands are distinct, and none of them is one the mutation listener acts on or one
      that stops the monitor. */
  lemma CommandsApart(content: string)
    ensures DistinctCommands(Repository())
    ensures (exists i | 0 <= i < 5 :: Strip(content) == Repository()[i].command) ==>
              !Prefixed(content) && Strip(content) != "0"
  {
    hide Strip;
    var setups := Repository();
    assert setups[0].command[12] == 'a' && setups[1].command[12] == 'e' && setups[2].command[12] == 'f';
    assert setups[3].command[12] == 'r' && setups[4].command[12] == 'r';
    assert |setups[3].command| != |setups[4].command|;
    forall i | 0 <= i < 5 ensures setups[i].command[0] == 'i' && |setups[i].command| > 9 {}
    assert PREFIX[0] == 'm';
  }
}
