/**
 modify.py: rewrites a C test file so that the function named in `.test` or `.test_all` writes
 the coordination file when it starts and when it ends.  The two regular expressions are
 parameters: which function name a line assigns, and whether a line defines a given function.
 */
module ModifyC {
  import opened Basics
  import opened Text

  /** A line of the output: one of the input, or a marker. */
  datatype Out = Kept(line: string) | Start | End

  datatype State = State(inFunction: bool, braceLevel: int, endAppend: bool)

  const INITIAL: State := State(false, 0, false)

  // ---------- lines ----------

  /** line.strip() == "{" */
  predicate IsLone(line: string) {
    Strip(line) == "{"
  }

  /** line.count(c) */
  function Count(c: char, line: string): nat {
    if line == "" then 0 else (if line[0] == c then 1 else 0) + Count(c, line[1..])
  }

  /** line.count("{") - line.count("}") */
  function Braces(line: string): int {
    Count('{', line) - Count('}', line)
  }

  function Depth(lines: seq<string>): int {
    if lines == [] then 0 else Depth(lines[..|lines| - 1]) + Braces(lines[|lines| - 1])
  }

  lemma {:induction false} CountAppend(c: char, a: string, b: string)
    ensures Count(c, a + b) == Count(c, a) + Count(c, b)
  {
    if a == "" {
      assert a + b == b;
    } else {
      CountAppend(c, a[1..], b);
      assert (a + b)[1..] == a[1..] + b;
    }
  }

  lemma {:induction false} CountAbsent(c: char, s: string)
    requires c !in s
    ensures Count(c, s) == 0
  {
    if s == "" {
    } else {
      CountAbsent(c, s[1..]);
    }
  }

  lemma {:induction false} StripLeftCount(c: char, s: string)
    requires !IsSpace(c)
    ensures Count(c, StripLeft(s)) == Count(c, s)
  {
    if s == "" || !IsSpace(s[0]) {
    } else {
      StripLeftCount(c, s[1..]);
    }
  }

  lemma {:induction false} StripRightCount(c: char, s: string)
    requires !IsSpace(c)
    ensures Count(c, StripRight(s)) == Count(c, s)
  {
    if s == "" || !IsSpace(s[|s| - 1]) {
    } else {
      StripRightCount(c, s[..|s| - 1]);
      var last := [s[|s| - 1]];
      assert s == s[..|s| - 1] + last;
      CountAppend(c, s[..|s| - 1], last);
      assert last[1..] == "";
    }
  }

  /** The branch for a lone brace adds to the level what counting would have added. */
  lemma LoneBraces(line: string)
    requires IsLone(line)
    ensures Braces(line) == 1 && '{' in line
  {
    var s := StripLeft(line);
    StripLeftCount('{', line);
    StripRightCount('{', s);
    StripLeftCount('}', line);
    StripRightCount('}', s);
    assert Count('{', "{") == 1 && Count('}', "{") == 0;
    if '{' !in line {
      CountAbsent('{', line);
    }
  }

  /** A line is a lone brace exactly when there is nothing but white space around the brace, as
      there is at least a line feed on the lines the source reads. */
  lemma LoneIff(line: string)
    ensures IsLone(line) <==> exists a, b :: Blank(a) && Blank(b) && line == a + "{" + b
  {
    hide Strip;
    var a, b := StripSplits(line);
    if IsLone(line) {
      assert Blank(a) && Blank(b) && line == a + "{" + b;
    }
    if a, b :| Blank(a) && Blank(b) && line == a + "{" + b {
      StripAround(a, "{", b);
    }
  }

  lemma BraceLine()
    ensures IsLone("{\n") && IsLone("    {\r\n") && !IsLone("{ x\n")
  {
    hide Strip;
    StripAround("", "{", "\n");
    assert "" + "{" + "\n" == "{\n";
    StripAround("    ", "{", "\r\n");
    assert "    " + "{" + "\r\n" == "    {\r\n";
    StripAround("", "{ x", "\n");
    assert "" + "{ x" + "\n" == "{ x\n";
  }

  // ---------- the line machine ----------

  /** What the loop appends for one line, and the state it is in then. */
  function Step(st: State, line: string, sig: string -> bool): (State, seq<Out>) {
    if !st.inFunction then
      if sig(line) then (st.(inFunction := true), [Kept(line)]) else (st, [Kept(line)])
    else if IsLone(line) then
      (st.(braceLevel := st.braceLevel + 1), [Kept(line), Start])
    else
      var level := st.braceLevel + Braces(line);
      if level == 0 then
        (State(false, 0, true), if st.endAppend then [Kept(line)] else [End, Kept(line)])
      else
        (st.(braceLevel := level), [Kept(line)])
  }

  function After(st: State, lines: seq<string>, sig: string -> bool): State
    decreases |lines|
  {
    if lines == [] then st else After(Step(st, lines[0], sig).0, lines[1..], sig)
  }

  function Walk(st: State, lines: seq<string>, sig: string -> bool): seq<Out>
    decreases |lines|
  {
    if lines == [] then []
    else
      var (st', out) := Step(st, lines[0], sig);
      out + Walk(st', lines[1..], sig)
  }

  lemma {:induction false} WalkAppend(st: State, a: seq<string>, b: seq<string>, sig: string -> bool)
    ensures Walk(st, a + b, sig) == Walk(st, a, sig) + Walk(After(st, a, sig), b, sig)
    ensures After(st, a + b, sig) == After(After(st, a, sig), b, sig)
    decreases |a|
  {
    if a == [] {
      assert a + b == b;
    } else {
      var st' := Step(st, a[0], sig).0;
      WalkAppend(st', a[1..], b, sig);
      assert (a + b)[1..] == a[1..] + b;
    }
  }

  // ---------- nothing is lost ----------

  function KeptLines(out: seq<Out>): seq<string> {
    if out == [] then []
    else (if out[0].Kept? then [out[0].line] else []) + KeptLines(out[1..])
  }

  function Starts(out: seq<Out>): nat {
    if out == [] then 0 else (if out[0] == Start then 1 else 0) + Starts(out[1..])
  }

  function Ends(out: seq<Out>): nat {
    if out == [] then 0 else (if out[0] == End then 1 else 0) + Ends(out[1..])
  }

  lemma KeptCons(a: seq<Out>, h: seq<string>)
    requires a != [] && h == (if a[0].Kept? then [a[0].line] else [])
    ensures KeptLines(a) == h + KeptLines(a[1..])
  {}

  lemma {:induction false} KeptAppend(a: seq<Out>, b: seq<Out>)
    ensures KeptLines(a + b) == KeptLines(a) + KeptLines(b)
    decreases |a|
  {
    if a == [] {
      assert a + b == b;
    } else {
      hide KeptLines;
      var h := if a[0].Kept? then [a[0].line] else [];
      KeptAppend(a[1..], b);
      KeptCons(a, h);
      KeptCons(a + b, h);
      assert (a + b)[1..] == a[1..] + b;
      assert h + (KeptLines(a[1..]) + KeptLines(b)) == h + KeptLines(a[1..]) + KeptLines(b);
    }
  }

  lemma {:induction false} StartsAppend(a: seq<Out>, b: seq<Out>)
    ensures Starts(a + b) == Starts(a) + Starts(b)
  {
    if a == [] {
      assert a + b == b;
    } else {
      StartsAppend(a[1..], b);
      assert (a + b)[1..] == a[1..] + b;
    }
  }

  lemma {:induction false} EndsAppend(a: seq<Out>, b: seq<Out>)
    ensures Ends(a + b) == Ends(a) + Ends(b)
  {
    if a == [] {
      assert a + b == b;
    } else {
      EndsAppend(a[1..], b);
      assert (a + b)[1..] == a[1..] + b;
    }
  }

  lemma OutAppend(a: seq<Out>, b: seq<Out>)
    ensures KeptLines(a + b) == KeptLines(a) + KeptLines(b)
    ensures Starts(a + b) == Starts(a) + Starts(b)
    ensures Ends(a + b) == Ends(a) + Ends(b)
  {
    KeptAppend(a, b);
    StartsAppend(a, b);
    EndsAppend(a, b);
  }

  lemma StepOut(st: State, line: string, sig: string -> bool)
    ensures var (st', out) := Step(st, line, sig);
            && KeptLines(out) == [line]
            && Starts(out) == (if st.inFunction && IsLone(line) then 1 else 0)
            && Ends(out) == (if st'.endAppend && !st.endAppend then 1 else 0)
            && (st.endAppend ==> st'.endAppend)
  {
    hide IsLone, Braces;
    var out := Step(st, line, sig).1;
    assert out == [Kept(line)] || out == [Kept(line), Start] || out == [End, Kept(line)];
    OutShapes(line);
  }

  lemma OutShapes(line: string)
    ensures var a, b, c := [Kept(line)], [Kept(line), Start], [End, Kept(line)];
            && KeptLines(a) == KeptLines(b) == KeptLines(c) == [line]
            && Starts(a) == Starts(c) == 0 && Starts(b) == 1
            && Ends(a) == Ends(b) == 0 && Ends(c) == 1
  {
    var a, b, c, s := [Kept(line)], [Kept(line), Start], [End, Kept(line)], [Start];
    assert a[1..] == [] && s[1..] == [] && b[1..] == s && c[1..] == a;
    assert KeptLines(s) == [] && Starts(s) == 1 && Ends(s) == 0;
    assert KeptLines(a) == [line] && Starts(a) == 0 && Ends(a) == 0;
  }

  /** Dropping the markers gives back the input, line by line and in order. */
  lemma {:induction false} NothingLost(st: State, lines: seq<string>, sig: string -> bool)
    ensures KeptLines(Walk(st, lines, sig)) == lines
    decreases |lines|
  {
    hide Step;
    if lines == [] {
    } else {
      var (st', out) := Step(st, lines[0], sig);
      StepOut(st, lines[0], sig);
      NothingLost(st', lines[1..], sig);
      OutAppend(out, Walk(st', lines[1..], sig));
    }
  }

  /** At most one end marker is ever written; one is, exactly when the walk first leaves a
      function. */
  lemma {:induction false} OneEnd(st: State, lines: seq<string>, sig: string -> bool)
    ensures Ends(Walk(st, lines, sig)) == if After(st, lines, sig).endAppend && !st.endAppend then 1 else 0
    ensures st.endAppend ==> After(st, lines, sig).endAppend
    decreases |lines|
  {
    hide Step;
    if lines == [] {
    } else {
      var (st', out) := Step(st, lines[0], sig);
      StepOut(st, lines[0], sig);
      OneEnd(st', lines[1..], sig);
      OutAppend(out, Walk(st', lines[1..], sig));
    }
  }

  /** The positions of the lone braces met while inside a function. */
  function LoneInside(lines: seq<string>, sig: string -> bool): set<nat> {
    set i | 0 <= i < |lines| && After(INITIAL, lines[..i], sig).inFunction && IsLone(lines[i])
  }

  /** There are as many start markers as lone braces met inside a function. */
  lemma {:induction false} StartsAreLoneBraces(lines: seq<string>, sig: string -> bool)
    ensures Starts(Walk(INITIAL, lines, sig)) == |LoneInside(lines, sig)|
  {
    hide Step, IsLone;
    if lines == [] {
      assert LoneInside(lines, sig) == {};
    } else {
      var n := |lines| - 1;
      var head, last := lines[..n], lines[n];
      assert lines == head + [last];
      StartsAreLoneBraces(head, sig);
      WalkAppend(INITIAL, head, [last], sig);
      var st := After(INITIAL, head, sig);
      StepOut(st, last, sig);
      WalkOne(st, last, sig);
      OutAppend(Walk(INITIAL, head, sig), Walk(st, [last], sig));
      LoneInsideSnoc(head, last, sig);
    }
  }

  lemma LoneInsideSnoc(head: seq<string>, last: string, sig: string -> bool)
    ensures |LoneInside(head + [last], sig)|
         == |LoneInside(head, sig)| + if After(INITIAL, head, sig).inFunction && IsLone(last) then 1 else 0
  {
    hide IsLone, After;
    var lines, n := head + [last], |head|;
    assert forall i | 0 <= i < n :: lines[..i] == head[..i] && lines[i] == head[i];
    assert lines[..n] == head && lines[n] == last;
    var here: set<nat> := if After(INITIAL, head, sig).inFunction && IsLone(last) then {n} else {};
    assert LoneInside(lines, sig) == LoneInside(head, sig) + here;
    assert n !in LoneInside(head, sig);
  }

  lemma WalkOne(st: State, line: string, sig: string -> bool)
    ensures Walk(st, [line], sig) == Step(st, line, sig).1
    ensures After(st, [line], sig) == Step(st, line, sig).0
  {
    hide Step;
    var (st', out) := Step(st, line, sig);
    assert [line][1..] == [];
    assert out + [] == out;
  }

  /** The walk stepped into the function it is in at line from - 1, and has not left it since. */
  ghost predicate EnteredAt(lines: seq<string>, from: nat, sig: string -> bool) {
    && 0 < from <= |lines| && sig(lines[from - 1])
    && !After(INITIAL, lines[..from - 1], sig).inFunction
    && forall k | from <= k <= |lines| :: After(INITIAL, lines[..k], sig).inFunction
  }

  lemma EnteredSnoc(head: seq<string>, last: string, from: nat, sig: string -> bool)
    requires EnteredAt(head, from, sig) && After(INITIAL, head + [last], sig).inFunction
    ensures EnteredAt(head + [last], from, sig)
  {
    hide After;
    var lines := head + [last];
    assert lines[..|lines|] == lines;
    assert forall k | 0 <= k <= |head| :: lines[..k] == head[..k];
  }

  /** Outside a function the level is 0; inside, it is the depth of the braces since the line
      at which the function was entered, so the level never drifts from one function to the next. */
  lemma {:induction false} LevelIsDepth(lines: seq<string>, sig: string -> bool) returns (from: nat)
    ensures var st := After(INITIAL, lines, sig);
            && (!st.inFunction ==> st.braceLevel == 0)
            && (st.inFunction ==> EnteredAt(lines, from, sig) && st.braceLevel == Depth(lines[from..]))
  {
    hide Braces, IsLone, EnteredAt;
    from := 0;
    if lines == [] {
    } else {
      var n := |lines| - 1;
      var head, last := lines[..n], lines[n];
      assert lines == head + [last];
      from := LevelIsDepth(head, sig);
      WalkAppend(INITIAL, head, [last], sig);
      WalkOne(After(INITIAL, head, sig), last, sig);
      if !After(INITIAL, head, sig).inFunction {
        from := |lines|;
        if sig(last) {
          JustEntered(lines, sig);
        }
      } else {
        if After(INITIAL, lines, sig).inFunction {
          EnteredSnoc(head, last, from, sig);
        }
        EnteredBounds(head, from, sig);
        var tail := lines[from..];
        assert tail[..|tail| - 1] == head[from..] && tail[|tail| - 1] == last;
        if IsLone(last) {
          LoneBraces(last);
        }
      }
    }
  }

  lemma EnteredBounds(lines: seq<string>, from: nat, sig: string -> bool)
    requires EnteredAt(lines, from, sig)
    ensures 0 < from <= |lines|
  {}

  lemma JustEntered(lines: seq<string>, sig: string -> bool)
    requires lines != [] && sig(lines[|lines| - 1])
    requires !After(INITIAL, lines[..|lines| - 1], sig).inFunction && After(INITIAL, lines, sig).inFunction
    ensures EnteredAt(lines, |lines|, sig) && Depth(lines[|lines|..]) == 0
  {
    hide After;
    assert lines[..|lines|] == lines && lines[|lines|..] == [];
  }

  /** Lines that are kept and nothing else. */
  function Plain(lines: seq<string>): seq<Out> {
    seq(|lines|, i requires 0 <= i < |lines| => Kept(lines[i]))
  }

  lemma PlainAppend(a: seq<string>, b: seq<string>)
    ensures Plain(a + b) == Plain(a) + Plain(b)
  {}

  ghost predicate NoSignature(lines: seq<string>, sig: string -> bool) {
    forall i | 0 <= i < |lines| :: !sig(lines[i])
  }

  /** Outside a function, lines that define nothing pass through. */
  lemma {:induction false} PassThrough(st: State, lines: seq<string>, sig: string -> bool)
    requires !st.inFunction && NoSignature(lines, sig)
    ensures Walk(st, lines, sig) == Plain(lines) && After(st, lines, sig) == st
  {
    if lines == [] {
    } else {
      PassThrough(st, lines[1..], sig);
      assert lines == [lines[0]] + lines[1..];
    }
  }

  // ---------- when a function is bracketed ----------

  lemma {:induction false} DepthFront(x: string, s: seq<string>)
    ensures Depth([x] + s) == Braces(x) + Depth(s)
  {
    hide Braces;
    if s == [] {
      assert [x] + s == [x];
      assert [x][..0] == [];
    } else {
      DepthFront(x, s[..|s| - 1]);
      assert ([x] + s)[..|s|] == [x] + s[..|s| - 1];
    }
  }

  /** From this level on, line m is the first to bring it to 0, and no line is a lone brace. */
  ghost predicate ClosesAt(level: int, lines: seq<string>, m: nat) {
    && m < |lines|
    && (forall j | 0 <= j <= m :: !IsLone(lines[j]))
    && (forall j | 1 <= j <= m :: level + Depth(lines[..j]) != 0)
    && level + Depth(lines[..m + 1]) == 0
  }

  lemma ClosesFirst(level: int, lines: seq<string>)
    requires lines != []
    ensures ClosesAt(level, lines, 0) <==> !IsLone(lines[0]) && level + Braces(lines[0]) == 0
  {
    hide Braces, IsLone;
    assert lines[..1] == [lines[0]] + [];
    DepthFront(lines[0], []);
  }

  lemma ClosesLater(level: int, lines: seq<string>, m: nat)
    requires lines != [] && m > 0
    ensures ClosesAt(level, lines, m) <==>
            && !IsLone(lines[0]) && level + Braces(lines[0]) != 0
            && ClosesAt(level + Braces(lines[0]), lines[1..], m - 1)
  {
    hide Braces, IsLone, Depth;
    var next, rest := level + Braces(lines[0]), lines[1..];
    forall j | 1 <= j <= |lines| ensures Depth(lines[..j]) == Braces(lines[0]) + Depth(rest[..j - 1]) {
      assert lines[..j] == [lines[0]] + rest[..j - 1];
      DepthFront(lines[0], rest[..j - 1]);
    }
    DepthNothing();
    assert rest[..0] == [];
    if ClosesAt(level, lines, m) {
      assert level + Depth(lines[..1]) != 0;
      forall j | 0 <= j <= m - 1 ensures !IsLone(rest[j]) {
        assert rest[j] == lines[j + 1];
      }
      forall j | 1 <= j <= m - 1 ensures next + Depth(rest[..j]) != 0 {
        assert level + Depth(lines[..j + 1]) != 0;
      }
    }
    if !IsLone(lines[0]) && next != 0 && ClosesAt(next, rest, m - 1) {
      forall j | 0 <= j <= m ensures !IsLone(lines[j]) {
        if j > 0 { assert rest[j - 1] == lines[j]; }
      }
      forall j | 1 <= j <= m ensures level + Depth(lines[..j]) != 0 {
        if j > 1 { assert next + Depth(rest[..j - 1]) != 0; }
      }
    }
  }

  lemma DepthNothing()
    ensures Depth([]) == 0
  {}

  const DONE: State := State(false, 0, true)

  /** Behind the function, no further start marker is written. */
  ghost predicate Quiet(lines: seq<string>, sig: string -> bool) {
    Starts(Walk(DONE, lines, sig)) == 0
  }

  lemma {:induction false} NoMarkersPlain(out: seq<Out>)
    requires Starts(out) == 0 && Ends(out) == 0
    ensures out == Plain(KeptLines(out))
  {
    if out == [] {
    } else {
      NoMarkersPlain(out[1..]);
      assert out == [out[0]] + out[1..];
    }
  }

  lemma {:induction false} PlainNoMarkers(lines: seq<string>)
    ensures Starts(Plain(lines)) == 0
  {
    if lines == [] {
    } else {
      PlainNoMarkers(lines[1..]);
      assert Plain(lines)[1..] == Plain(lines[1..]);
    }
  }

  lemma QuietIsPlain(lines: seq<string>, sig: string -> bool)
    ensures Quiet(lines, sig) <==> Walk(DONE, lines, sig) == Plain(lines)
  {
    hide Walk, Starts, Ends, Plain;
    var out := Walk(DONE, lines, sig);
    OneEnd(DONE, lines, sig);
    NothingLost(DONE, lines, sig);
    PlainNoMarkers(lines);
    if Starts(out) == 0 {
      NoMarkersPlain(out);
    }
  }

  /** The output shape wanted from inside the function on: the end marker before line m. */
  function EndBefore(lines: seq<string>, m: nat): seq<Out>
    requires m <= |lines|
  {
    Plain(lines[..m]) + [End] + Plain(lines[m..])
  }

  lemma EndBeforeFirst(lines: seq<string>, m: nat)
    requires m <= |lines| && lines != []
    ensures m == 0 ==> EndBefore(lines, m) == [End, Kept(lines[0])] + Plain(lines[1..])
    ensures m > 0 ==> EndBefore(lines, m) == [Kept(lines[0])] + EndBefore(lines[1..], m - 1)
  {
    if m > 0 {
      assert lines[1..][..m - 1] == lines[..m][1..] && lines[1..][m - 1..] == lines[m..];
    }
  }

  lemma EndBeforeHead(lines: seq<string>, m: nat)
    requires m <= |lines|
    ensures EndBefore(lines, m)[0] != Start
  {}

  /** Inside the function, the end marker comes right before line m and nowhere else, and no
      start marker comes, exactly when line m closes the function and all is quiet behind it. */
  lemma {:induction false} EndBeforeIff(level: int, lines: seq<string>, m: nat, sig: string -> bool)
    requires m < |lines|
    ensures Walk(State(true, level, false), lines, sig) == EndBefore(lines, m)
       <==> ClosesAt(level, lines, m) && Quiet(lines[m + 1..], sig)
    decreases m
  {
    hide IsLone, Braces, ClosesAt, Quiet, EndBefore, Plain, Depth;
    var st, rest := State(true, level, false), lines[1..];
    var (st', out) := Step(st, lines[0], sig);
    var tail := Walk(st', rest, sig);
    assert Walk(st, lines, sig) == out + tail;
    EndBeforeFirst(lines, m);
    if m == 0 {
      ClosesFirst(level, lines);
      QuietIsPlain(rest, sig);
      if out == [End, Kept(lines[0])] {
        assert (out + tail)[2..] == tail;
        assert EndBefore(lines, m)[2..] == Plain(rest);
      } else {
        assert (out + tail)[0] == Kept(lines[0]);
      }
    } else {
      ClosesLater(level, lines, m);
      assert rest[m..] == lines[m + 1..];
      if out == [Kept(lines[0])] {
        assert (out + tail)[1..] == tail;
        assert EndBefore(lines, m)[1..] == EndBefore(rest, m - 1);
        EndBeforeIff(level + Braces(lines[0]), rest, m - 1, sig);
      } else if out == [Kept(lines[0]), Start] {
        EndBeforeHead(rest, m - 1);
        assert (out + tail)[1] == Start;
      } else {
        assert (out + tail)[0] == End;
      }
    }
  }

  /** From this level on, no line is a lone brace and none brings the level to 0. */
  ghost predicate NeverLeft(level: int, lines: seq<string>) {
    && (forall j | 0 <= j < |lines| :: !IsLone(lines[j]))
    && forall j | 1 <= j <= |lines| :: level + Depth(lines[..j]) != 0
  }

  lemma NeverLeftStep(level: int, lines: seq<string>)
    requires lines != []
    ensures NeverLeft(level, lines) <==>
            && !IsLone(lines[0]) && level + Braces(lines[0]) != 0
            && NeverLeft(level + Braces(lines[0]), lines[1..])
  {
    hide Braces, IsLone, Depth;
    var next, rest := level + Braces(lines[0]), lines[1..];
    forall j | 1 <= j <= |lines| ensures Depth(lines[..j]) == Braces(lines[0]) + Depth(rest[..j - 1]) {
      assert lines[..j] == [lines[0]] + rest[..j - 1];
      DepthFront(lines[0], rest[..j - 1]);
    }
    DepthNothing();
    assert rest[..0] == [];
    if NeverLeft(level, lines) {
      assert level + Depth(lines[..1]) != 0;
      forall j | 0 <= j < |rest| ensures !IsLone(rest[j]) {
        assert rest[j] == lines[j + 1];
      }
      forall j | 1 <= j <= |rest| ensures next + Depth(rest[..j]) != 0 {
        assert level + Depth(lines[..j + 1]) != 0;
      }
    }
    if !IsLone(lines[0]) && next != 0 && NeverLeft(next, rest) {
      forall j | 0 <= j < |lines| ensures !IsLone(lines[j]) {
        if j > 0 { assert rest[j - 1] == lines[j]; }
      }
      forall j | 1 <= j <= |lines| ensures level + Depth(lines[..j]) != 0 {
        if j > 1 { assert next + Depth(rest[..j - 1]) != 0; }
      }
    }
  }

  /** Behind the function: every later line with the signature is followed by lines that leave
      it, or come to the end of the file, without a lone brace on the way. */
  ghost predicate Tidy(lines: seq<string>, sig: string -> bool)
    decreases |lines|
  {
    NoSignature(lines, sig)
    || exists i | 0 <= i < |lines| :: FirstSignature(lines, i, sig) && TidyAfter(lines[i + 1..], sig)
  }

  ghost predicate TidyAfter(lines: seq<string>, sig: string -> bool)
    decreases |lines|
  {
    NeverLeft(0, lines) || exists m | 0 <= m < |lines| :: ClosesAt(0, lines, m) && Tidy(lines[m + 1..], sig)
  }

  ghost predicate FirstSignature(lines: seq<string>, i: int, sig: string -> bool) {
    0 <= i < |lines| && sig(lines[i]) && NoSignature(lines[..i], sig)
  }

  /** Inside a later function, no start marker comes exactly when it is left without a lone brace,
      and what follows is quiet. */
  lemma {:induction false} QuietInside(level: int, lines: seq<string>, sig: string -> bool)
    ensures Starts(Walk(State(true, level, true), lines, sig)) == 0
       <==> NeverLeft(level, lines)
            || exists m | 0 <= m < |lines| :: ClosesAt(level, lines, m) && Quiet(lines[m + 1..], sig)
    decreases |lines|
  {
    hide IsLone, Braces, ClosesAt, Quiet, NeverLeft, Starts, Depth;
    if lines == [] {
      NeverLeftNothing(level);
      StartsNothing(State(true, level, true), sig);
    } else {
      var rest, next := lines[1..], level + Braces(lines[0]);
      var (st', out) := Step(State(true, level, true), lines[0], sig);
      StepOut(State(true, level, true), lines[0], sig);
      StartsAppend(out, Walk(st', rest, sig));
      NeverLeftStep(level, lines);
      ClosesFirst(level, lines);
      forall m | 0 < m < |lines|
        ensures lines[m + 1..] == rest[m..]
        ensures ClosesAt(level, lines, m) <==> !IsLone(lines[0]) && next != 0 && ClosesAt(next, rest, m - 1)
      {
        ClosesLater(level, lines, m);
      }
      if IsLone(lines[0]) {
      } else if next == 0 {
        QuietUnfold(rest, sig);
        assert ClosesAt(level, lines, 0);
      } else {
        QuietInside(next, rest, sig);
        if m :| 0 <= m < |rest| && ClosesAt(next, rest, m) && Quiet(rest[m + 1..], sig) {
          assert ClosesAt(level, lines, m + 1) && lines[m + 1 + 1..] == rest[m + 1..];
        }
        if m :| 0 <= m < |lines| && ClosesAt(level, lines, m) && Quiet(lines[m + 1..], sig) {
          assert ClosesAt(next, rest, m - 1) && rest[m - 1 + 1..] == lines[m + 1..];
        }
      }
    }
  }

  lemma NeverLeftNothing(level: int)
    ensures NeverLeft(level, [])
  {}

  lemma StartsNothing(st: State, sig: string -> bool)
    ensures Starts(Walk(st, [], sig)) == 0
  {}

  lemma QuietUnfold(lines: seq<string>, sig: string -> bool)
    ensures Quiet(lines, sig) <==> Starts(Walk(DONE, lines, sig)) == 0
  {}

  lemma QuietFrom(lines: seq<string>, i: nat, sig: string -> bool)
    requires FirstSignature(lines, i, sig)
    ensures Quiet(lines, sig) <==> Starts(Walk(State(true, 0, true), lines[i + 1..], sig)) == 0
  {
    hide Walk, Starts, NoSignature, After, Step;
    var head, rest := lines[..i], lines[i + 1..];
    assert lines == head + ([lines[i]] + rest);
    PassThrough(DONE, head, sig);
    WalkAppend(DONE, head, [lines[i]] + rest, sig);
    WalkAppend(DONE, [lines[i]], rest, sig);
    WalkOne(DONE, lines[i], sig);
    EnterStep(DONE, lines[i], sig);
    StartsAppend(Plain(head), [Kept(lines[i])] + Walk(State(true, 0, true), rest, sig));
    StartsAppend([Kept(lines[i])], Walk(State(true, 0, true), rest, sig));
    PlainNoMarkers(head);
    PlainNoMarkers([lines[i]]);
    PlainOne(lines[i]);
  }

  lemma EnterStep(st: State, line: string, sig: string -> bool)
    requires !st.inFunction && sig(line)
    ensures Step(st, line, sig) == (st.(inFunction := true), [Kept(line)])
  {}

  /** No start marker is written behind the function exactly when the lines there are tidy. */
  lemma {:induction false} QuietIff(lines: seq<string>, sig: string -> bool)
    ensures Quiet(lines, sig) <==> Tidy(lines, sig)
    decreases |lines|
  {
    hide Quiet, NoSignature, ClosesAt, NeverLeft, FirstSignature, Walk, Starts;
    if NoSignature(lines, sig) {
      PassThrough(DONE, lines, sig);
      PlainNoMarkers(lines);
      QuietUnfold(lines, sig);
    } else {
      var i := FindSignature(lines, sig);
      forall k | 0 <= k < |lines| && FirstSignature(lines, k, sig)
        ensures Quiet(lines, sig) <==> TidyAfter(lines[k + 1..], sig)
      {
        QuietFrom(lines, k, sig);
        var tail := lines[k + 1..];
        QuietInside(0, tail, sig);
        forall m | 0 <= m < |tail| && ClosesAt(0, tail, m)
          ensures Quiet(tail[m + 1..], sig) <==> Tidy(tail[m + 1..], sig)
        {
          QuietIff(tail[m + 1..], sig);
        }
      }
    }
  }

  lemma FindSignature(lines: seq<string>, sig: string -> bool) returns (i: nat)
    requires !NoSignature(lines, sig)
    ensures i < |lines| && FirstSignature(lines, i, sig)
  {
    i := 0;
    assert lines[..|lines|] == lines;
    while i < |lines| && !sig(lines[i])
      invariant i <= |lines| && NoSignature(lines[..i], sig)
    {
      i := i + 1;
    }
  }

  /**
   Exactly when the first function with the wanted signature is bracketed, the start marker
   right behind the line after the signature and the end marker right before line m, and no
   other marker is written: when that line is a lone brace, line m is the first to bring the
   braces back to balance with no other lone brace on the way, and the lines behind are tidy.
   */
  lemma BracketedIff(pre: seq<string>, sg: string, rest: seq<string>, m: nat, sig: string -> bool)
    requires NoSignature(pre, sig) && sig(sg) && 1 <= m < |rest|
    ensures Walk(INITIAL, pre + [sg] + rest, sig)
            == Plain(pre + [sg, rest[0]]) + [Start] + EndBefore(rest[1..], m - 1)
       <==> IsLone(rest[0]) && ClosesAt(1, rest[1..], m - 1) && Tidy(rest[m + 1..], sig)
  {
    hide IsLone, Braces, ClosesAt, Quiet, Tidy, EndBefore, Walk, Plain;
    QuietIff(rest[m + 1..], sig);
    AtSignature(pre, sg, rest, sig);
    var head, inside := Plain(pre + [sg]), State(true, 0, false);
    var body := rest[1..];
    assert rest == [rest[0]] + body;
    WalkAppend(inside, [rest[0]], body, sig);
    WalkOne(inside, rest[0], sig);
    var (st', out) := Step(inside, rest[0], sig);
    var all := Walk(INITIAL, pre + [sg] + rest, sig);
    assert all == head + (out + Walk(st', body, sig));
    PlainAppend(pre + [sg], [rest[0]]);
    PlainOne(rest[0]);
    assert pre + [sg] + [rest[0]] == pre + [sg, rest[0]];
    var want := head + [Kept(rest[0])] + [Start] + EndBefore(body, m - 1);
    if IsLone(rest[0]) {
      EndBeforeIff(1, body, m - 1, sig);
      assert body[m - 1 + 1..] == rest[m + 1..];
      assert all == head + [Kept(rest[0]), Start] + Walk(st', body, sig);
      var n := |head| + 2;
      assert all[n..] == Walk(st', body, sig) && want[n..] == EndBefore(body, m - 1);
    } else {
      assert want[|head|] == Kept(rest[0]) && want[|head| + 1] == Start;
      NoStartAfter(st', body, sig);
      if out == [Kept(rest[0])] {
        assert all[|head| + 1..] == Walk(st', body, sig);
        assert want[|head| + 1..][0] == Start;
      } else {
        assert all[|head|] == End;
      }
    }
  }

  /** The function alone, up to its closing line: bracketed exactly when it opens with a lone
      brace and line m closes it. */
  lemma BracketedAlone(pre: seq<string>, sg: string, rest: seq<string>, m: nat, sig: string -> bool)
    requires NoSignature(pre, sig) && sig(sg) && 1 <= m && |rest| == m + 1
    ensures Walk(INITIAL, pre + [sg] + rest, sig)
            == Plain(pre + [sg, rest[0]]) + [Start] + EndBefore(rest[1..], m - 1)
       <==> IsLone(rest[0]) && ClosesAt(1, rest[1..], m - 1)
  {
    hide IsLone, ClosesAt, Walk, Plain, EndBefore;
    BracketedIff(pre, sg, rest, m, sig);
    assert rest[m + 1..] == [];
  }

  lemma PlainOne(line: string)
    ensures Plain([line]) == [Kept(line)]
  {}

  /** The output for a line starts with the line or the end marker, never with a start marker. */
  lemma NoStartAfter(st: State, lines: seq<string>, sig: string -> bool)
    ensures lines != [] ==> Walk(st, lines, sig) != [] && Walk(st, lines, sig)[0] != Start
    ensures lines == [] ==> Walk(st, lines, sig) == []
  {
    hide IsLone, Braces;
  }

  lemma AtSignature(pre: seq<string>, sg: string, rest: seq<string>, sig: string -> bool)
    requires NoSignature(pre, sig) && sig(sg)
    ensures Walk(INITIAL, pre + [sg] + rest, sig) == Plain(pre + [sg]) + Walk(State(true, 0, false), rest, sig)
    ensures After(INITIAL, pre + [sg] + rest, sig) == After(State(true, 0, false), rest, sig)
  {
    hide Walk, Plain, NoSignature;
    PassThrough(INITIAL, pre, sig);
    WalkAppend(INITIAL, pre + [sg], rest, sig);
    WalkAppend(INITIAL, pre, [sg], sig);
    WalkOne(INITIAL, sg, sig);
    PlainAppend(pre, [sg]);
    PlainOne(sg);
  }

  /**
   A signature that is not followed by a lone brace, such as a prototype or one with its brace
   on the same line, followed by a line whose braces balance: the end marker comes right there
   and the function is left without a start marker.  A later definition then gets no end marker.
   */
  lemma BalancedNextLine(pre: seq<string>, sg: string, next: string, rest: seq<string>, sig: string -> bool)
    requires NoSignature(pre, sig) && sig(sg) && !IsLone(next) && Braces(next) == 0
    ensures Walk(INITIAL, pre + [sg] + ([next] + rest), sig)
         == Plain(pre + [sg]) + [End, Kept(next)] + Walk(DONE, rest, sig)
    ensures Ends(Walk(DONE, rest, sig)) == 0
  {
    hide Walk, Plain, NoSignature, Braces, IsLone;
    var inside := State(true, 0, false);
    AtSignature(pre, sg, [next] + rest, sig);
    WalkAppend(inside, [next], rest, sig);
    WalkOne(inside, next, sig);
    OneEnd(DONE, rest, sig);
    assert Plain(pre + [sg]) + ([End, Kept(next)] + Walk(DONE, rest, sig))
        == Plain(pre + [sg]) + [End, Kept(next)] + Walk(DONE, rest, sig);
  }

  lemma BraceLines()
    ensures IsLone("{") && !IsLone("}") && Braces("}") == -1 && Braces("{") == 1
  {
    Tight("{");
    Tight("}");
    assert Count('{', "{") == 1 && Count('}', "{") == 0 && Count('{', "}") == 0 && Count('}', "}") == 1;
    hide Strip;
  }

  /** A function that comes when the end marker has been spent gets a start marker only. */
  lemma LateFunction(sg: string, sig: string -> bool)
    requires sig(sg)
    ensures Walk(DONE, [sg, "{", "}"], sig) == [Kept(sg), Kept("{"), Start, Kept("}")]
  {
    BraceLines();
    hide IsLone, Braces;
    var s1, s2 := State(true, 0, true), State(true, 1, true);
    assert [sg, "{", "}"] == [sg] + ["{", "}"] && ["{", "}"] == ["{"] + ["}"];
    WalkAppend(DONE, [sg], ["{", "}"], sig);
    WalkAppend(s1, ["{"], ["}"], sig);
    hide Walk, After;
    WalkOne(DONE, sg, sig);
    WalkOne(s1, "{", sig);
    WalkOne(s2, "}", sig);
  }

  /** For instance a prototype before another declaration: the function itself, which comes
      later, gets its start marker but no end marker. */
  lemma PrototypeTakesTheEnd()
    ensures var sig: string -> bool := line => "run" <= line;
            Walk(INITIAL, ["run();", "int x;", "run()", "{", "}"], sig)
            == [Kept("run();"), End, Kept("int x;"), Kept("run()"), Kept("{"), Start, Kept("}")]
  {
    hide Walk, IsLone, Braces, Count, Plain;
    var sig: string -> bool := line => "run" <= line;
    NoBraces("int x;");
    var rest := ["run()", "{", "}"];
    BalancedNextLine([], "run();", "int x;", rest, sig);
    assert [] + ["run();"] + (["int x;"] + rest) == ["run();", "int x;", "run()", "{", "}"];
    LateFunction("run()", sig);
    assert [] + ["run();"] == ["run();"];
    PlainOne("run();");
  }

  // ---------- whole files ----------

  /** The file's name without extension, and the two regular expressions: the function a line
      assigns to .test or .test_all, and whether a line starts the definition of a function. */
  datatype Config = Config(fileName: string, assigns: string -> Option<string>, defines: (string, string) -> bool)

  function StartMarker(cfg: Config): string {
    "    write_coordination_file(\"" + cfg.fileName + "\");\n"
  }

  const END_MARKER: string := "    write_coordination_file(\"0\");\n"

  function LineText(o: Out, cfg: Config): string {
    match o case Kept(line) => line case Start => StartMarker(cfg) case End => END_MARKER
  }

  function Texts(out: seq<Out>, cfg: Config): (ts: seq<string>)
    ensures |ts| == |out|
  {
    seq(|out|, i requires 0 <= i < |out| => LineText(out[i], cfg))
  }

  function FindName(code: seq<string>, assigns: string -> Option<string>): Option<string> {
    if code == [] then None
    else if assigns(code[0]).Some? then assigns(code[0])
    else FindName(code[1..], assigns)
  }

  function Defines(cfg: Config, name: string): string -> bool {
    line => cfg.defines(name, line)
  }

  /** The file after modify_c_file: untouched when no test function is named. */
  function Modified(code: seq<string>, cfg: Config): seq<string> {
    var name := FindName(code, cfg.assigns);
    if name.None? then code else Texts(Walk(INITIAL, code, Defines(cfg, name.value)), cfg)
  }

  lemma TextsAppend(a: seq<Out>, b: seq<Out>, cfg: Config)
    ensures Texts(a + b, cfg) == Texts(a, cfg) + Texts(b, cfg)
  {}

  lemma TextsPlain(lines: seq<string>, cfg: Config)
    ensures Texts(Plain(lines), cfg) == lines
  {}

  lemma WalkRest(st: State, code: seq<string>, i: nat, sig: string -> bool, cfg: Config)
    requires i < |code|
    ensures var (st', out) := Step(st, code[i], sig);
            Texts(Walk(st, code[i..], sig), cfg) == Texts(out, cfg) + Texts(Walk(st', code[i + 1..], sig), cfg)
  {
    hide Step, Texts;
    var (st', out) := Step(st, code[i], sig);
    assert code[i..][0] == code[i] && code[i..][1..] == code[i + 1..];
    TextsAppend(out, Walk(st', code[i + 1..], sig), cfg);
  }

  lemma TextShapes(line: string, cfg: Config)
    ensures Texts([Kept(line)], cfg) == [line]
    ensures Texts([Kept(line), Start], cfg) == [line] + [StartMarker(cfg)]
    ensures Texts([End, Kept(line)], cfg) == [END_MARKER] + [line]
  {}

  /** Step 1 of modify_c_file. */
  method FindTestFunction(code: seq<string>, cfg: Config) returns (name: Option<string>)
    ensures name == FindName(code, cfg.assigns)
    ensures name.None? ==> forall i | 0 <= i < |code| :: cfg.assigns(code[i]).None?
    ensures name.Some? ==>
              exists i | 0 <= i < |code| ::
                cfg.assigns(code[i]) == name && forall j | 0 <= j < i :: cfg.assigns(code[j]).None?
  {
    var i := 0;
    while i < |code|
      invariant 0 <= i <= |code| && FindName(code[i..], cfg.assigns) == FindName(code, cfg.assigns)
      invariant forall j | 0 <= j < i :: cfg.assigns(code[j]).None?
    {
      var found := cfg.assigns(code[i]);
      if found.Some? {
        return found;
      }
      i := i + 1;
    }
    name := None;
  }

  /** Step 2 of modify_c_file. */
  method InsertMarkers(code: seq<string>, name: string, cfg: Config) returns (modifiedCode: seq<string>)
    ensures modifiedCode == Texts(Walk(INITIAL, code, Defines(cfg, name)), cfg)
  {
    hide Braces, IsLone, Walk, Texts, StartMarker;
    ghost var sig := Defines(cfg, name);
    modifiedCode := [];
    var inFunction, braceLevel, endAppend := false, 0, false;
    var i := 0;
    assert code[0..] == code;
    while i < |code|
      invariant 0 <= i <= |code|
      invariant Texts(Walk(INITIAL, code, sig), cfg)
             == modifiedCode + Texts(Walk(State(inFunction, braceLevel, endAppend), code[i..], sig), cfg)
    {
      var line := code[i];
      ghost var st, was := State(inFunction, braceLevel, endAppend), modifiedCode;
      ghost var (st', out) := Step(st, line, sig);
      WalkRest(st, code, i, sig, cfg);
      TextShapes(line, cfg);
      if !inFunction {
        if cfg.defines(name, line) {
          inFunction := true;
        }
        modifiedCode := modifiedCode + [line];
      } else if IsLone(line) {
        braceLevel := braceLevel + 1;
        modifiedCode := modifiedCode + [line];
        modifiedCode := modifiedCode + [StartMarker(cfg)];
      } else {
        braceLevel := braceLevel + Braces(line);
        if braceLevel == 0 {
          if !endAppend {
            endAppend := true;
            modifiedCode := modifiedCode + [END_MARKER];
          }
          modifiedCode := modifiedCode + [line];
          inFunction := false;
        } else {
          modifiedCode := modifiedCode + [line];
        }
      }
      i := i + 1;
      assert st' == State(inFunction, braceLevel, endAppend);
      assert modifiedCode == was + Texts(out, cfg);
    }
    WalkNothing(State(inFunction, braceLevel, endAppend), sig, cfg);
    assert code[i..] == [];
  }

  lemma WalkNothing(st: State, sig: string -> bool, cfg: Config)
    ensures Texts(Walk(st, [], sig), cfg) == []
  {}

  /** modify_c_file on the lines of a file. */
  method ModifyCFile(code: seq<string>, cfg: Config) returns (modifiedCode: seq<string>)
    ensures modifiedCode == Modified(code, cfg)
  {
    hide Walk, Texts, FindName;
    var name := FindTestFunction(code, cfg);
    if name.None? {
      return code;
    }
    modifiedCode := InsertMarkers(code, name.value, cfg);
  }

  /** Without a line that starts the definition of the named function, or without a name, the
      file stays as it is. */
  lemma Unmodified(code: seq<string>, cfg: Config)
    requires var name := FindName(code, cfg.assigns);
             name.Some? ==> NoSignature(code, Defines(cfg, name.value))
    ensures Modified(code, cfg) == code
  {
    var name := FindName(code, cfg.assigns);
    if name.Some? {
      PassThrough(INITIAL, code, Defines(cfg, name.value));
      TextsPlain(code, cfg);
    }
  }

  // ---------- repeated runs ----------

  function Repeat(s: string, k: nat): (r: seq<string>)
    ensures |r| == k
  {
    seq(k, _ => s)
  }

  /** The markers are ordinary lines: no braces, no test assignment, no definition. */
  ghost predicate Neutral(cfg: Config) {
    && '{' !in cfg.fileName && '}' !in cfg.fileName
    && (forall m | m == StartMarker(cfg) || m == END_MARKER ::
          cfg.assigns(m).None? && forall name :: !cfg.defines(name, m))
  }

  lemma NeutralMarker(cfg: Config, m: string)
    requires Neutral(cfg) && (m == StartMarker(cfg) || m == END_MARKER)
    ensures !IsLone(m) && Braces(m) == 0
  {
    hide IsLone, Braces, Count;
    assert '{' !in m && '}' !in m;
    NoBraces(m);
  }

  lemma NoBraces(m: string)
    requires '{' !in m && '}' !in m
    ensures !IsLone(m) && Braces(m) == 0
  {
    CountAbsent('{', m);
    CountAbsent('}', m);
    if IsLone(m) {
      LoneBraces(m);
    }
  }

  /** A file whose test function has its opening brace alone on the line after the signature
      and no other lone brace before the line that closes it. */
  datatype Source = Source(pre: seq<string>, sg: string, brace: string,
                           body: seq<string>, close: string, post: seq<string>)

  ghost predicate WellFormed(f: Source, sig: string -> bool) {
    && NoSignature(f.pre, sig) && sig(f.sg) && IsLone(f.brace) && NoSignature(f.post, sig)
    && ClosesAt(1, f.body + [f.close], |f.body|)
  }

  function Lines(f: Source): seq<string> {
    f.pre + [f.sg, f.brace] + f.body + [f.close] + f.post
  }

  /** With k start markers behind the brace and k end markers before the closing line. */
  function Marked(f: Source, k: nat, cfg: Config): Source {
    f.(body := Repeat(StartMarker(cfg), k) + f.body + Repeat(END_MARKER, k))
  }

  lemma ShapeBracketed(f: Source, sig: string -> bool)
    requires WellFormed(f, sig)
    ensures Walk(INITIAL, Lines(f), sig)
         == Plain(f.pre + [f.sg, f.brace]) + [Start] + Plain(f.body) + [End] + Plain([f.close] + f.post)
  {
    hide Walk, Plain, IsLone, Braces, ClosesAt, NoSignature;
    var inner := f.body + [f.close] + f.post;
    var rest := [f.brace] + inner;
    var m := |f.body| + 1;
    ClosesPrefix(1, f.body + [f.close], f.post, |f.body|);
    assert rest[1..] == inner && rest[m + 1..] == f.post;
    BracketedIff(f.pre, f.sg, rest, m, sig);
    assert inner[..m - 1] == f.body && inner[m - 1..] == [f.close] + f.post;
    assert f.pre + [f.sg] + rest == Lines(f);
    var a, b, c := Plain(f.pre + [f.sg, f.brace]) + [Start], Plain(f.body), Plain([f.close] + f.post);
    assert a + (b + [End] + c) == a + b + [End] + c;
  }

  lemma ClosesPrefix(level: int, lines: seq<string>, more: seq<string>, m: nat)
    requires ClosesAt(level, lines, m)
    ensures ClosesAt(level, lines + more, m)
  {
    hide IsLone, Depth;
    assert forall j | 0 <= j <= m + 1 :: (lines + more)[..j] == lines[..j];
  }

  lemma BracketTexts(a: seq<string>, body: seq<string>, c: seq<string>, cfg: Config)
    ensures Texts(Plain(a) + [Start] + Plain(body) + [End] + Plain(c), cfg)
         == a + [StartMarker(cfg)] + body + [END_MARKER] + c
  {
    hide Plain, StartMarker;
    TextsAppend(Plain(a) + [Start] + Plain(body) + [End], Plain(c), cfg);
    TextsAppend(Plain(a) + [Start] + Plain(body), [End], cfg);
    TextsAppend(Plain(a) + [Start], Plain(body), cfg);
    TextsAppend(Plain(a), [Start], cfg);
    TextsPlain(a, cfg);
    TextsPlain(body, cfg);
    TextsPlain(c, cfg);
  }

  /** One run on a file that already carries k pairs of markers adds one more pair. */
  lemma OneMoreRun(f: Source, k: nat, cfg: Config, name: string)
    requires Neutral(cfg) && WellFormed(f, Defines(cfg, name))
    requires FindName(Lines(f), cfg.assigns) == Some(name)
    ensures Modified(Lines(Marked(f, k, cfg)), cfg) == Lines(Marked(f, k + 1, cfg))
  {
    hide IsLone, Braces, ClosesAt, FindName, Walk, Plain, Neutral, WellFormed, Texts, StartMarker;
    var g, sig := Marked(f, k, cfg), Defines(cfg, name);
    MarkedWellFormed(f, k, cfg, sig);
    MarkedName(f, k, cfg, name);
    ShapeBracketed(g, sig);
    var a, c := g.pre + [g.sg, g.brace], [g.close] + g.post;
    BracketTexts(a, g.body, c, cfg);
    var s, e := StartMarker(cfg), END_MARKER;
    assert [s] + Repeat(s, k) == Repeat(s, k + 1) && Repeat(e, k) + [e] == Repeat(e, k + 1);
    assert Modified(Lines(g), cfg) == a + [s] + g.body + [e] + c;
    assert [s] + g.body + [e] == Marked(f, k + 1, cfg).body;
  }

  /** What one run writes into a well-formed file, in full. */
  lemma OneRunText(f: Source, cfg: Config, name: string)
    requires Neutral(cfg) && WellFormed(f, Defines(cfg, name))
    requires FindName(Lines(f), cfg.assigns) == Some(name)
    ensures Modified(f.pre + [f.sg, f.brace] + f.body + [f.close] + f.post, cfg)
         == f.pre + [f.sg, f.brace] + ["    write_coordination_file(\"" + cfg.fileName + "\");\n"] + f.body
            + ["    write_coordination_file(\"0\");\n"] + [f.close] + f.post
  {
    var s, e := StartMarker(cfg), END_MARKER;
    assert s == "    write_coordination_file(\"" + cfg.fileName + "\");\n";
    hide IsLone, Braces, ClosesAt, FindName, Modified, Neutral, WellFormed, StartMarker, Defines;
    assert Repeat(s, 0) == [] && Repeat(e, 0) == [] && Repeat(s, 1) == [s] && Repeat(e, 1) == [e];
    assert Marked(f, 0, cfg) == f by {
      assert [] + f.body + [] == f.body;
    }
    OneMoreRun(f, 0, cfg, name);
    assert f.pre + [f.sg, f.brace] + ([s] + f.body + [e]) + [f.close] + f.post
        == f.pre + [f.sg, f.brace] + [s] + f.body + [e] + [f.close] + f.post;
  }

  /** Neutral lines at either end do not change where the function closes. */
  lemma MarkedWellFormed(f: Source, k: nat, cfg: Config, sig: string -> bool)
    requires Neutral(cfg) && WellFormed(f, sig)
    ensures WellFormed(Marked(f, k, cfg), sig)
    decreases k
  {
    hide IsLone, Braces, ClosesAt, Neutral, NoSignature;
    if k == 0 {
      assert Repeat(StartMarker(cfg), 0) + f.body + Repeat(END_MARKER, 0) == f.body;
    } else {
      var s, e := StartMarker(cfg), END_MARKER;
      var g := Marked(f, k - 1, cfg);
      MarkedWellFormed(f, k - 1, cfg, sig);
      NeutralMarker(cfg, s);
      NeutralMarker(cfg, e);
      assert Repeat(s, k) == [s] + Repeat(s, k - 1) && Repeat(e, k) == Repeat(e, k - 1) + [e];
      assert Marked(f, k, cfg).body == [s] + (g.body + [e]);
      EnclosedCloses(1, g.body, g.close, s, e);
      assert Marked(f, k, cfg).body + [f.close] == [s] + (g.body + [e] + [g.close]);
    }
  }

  lemma EnclosedCloses(level: int, body: seq<string>, close: string, s: string, e: string)
    requires level != 0 && ClosesAt(level, body + [close], |body|)
    requires !IsLone(s) && Braces(s) == 0 && !IsLone(e) && Braces(e) == 0
    ensures ClosesAt(level, [s] + (body + [e] + [close]), |body| + 2)
  {
    hide IsLone, Braces, ClosesAt;
    EndNeutral(level, body, close, e);
    var inner := body + [e] + [close];
    assert ([s] + inner)[1..] == inner;
    ClosesLater(level, [s] + inner, |body| + 2);
  }

  lemma {:induction false} EndNeutral(level: int, body: seq<string>, close: string, e: string)
    requires level != 0 && ClosesAt(level, body + [close], |body|) && !IsLone(e) && Braces(e) == 0
    ensures ClosesAt(level, body + [e] + [close], |body| + 1)
    decreases |body|
  {
    hide IsLone, Braces, ClosesAt;
    var lines, lines' := body + [close], body + [e] + [close];
    if body == [] {
      assert lines == [close] && lines' == [e, close] && lines'[1..] == [close];
      ClosesLater(level, lines', 1);
    } else {
      ClosesLater(level, lines, |body|);
      assert lines[1..] == body[1..] + [close] && lines'[1..] == body[1..] + [e] + [close];
      EndNeutral(level + Braces(body[0]), body[1..], close, e);
      ClosesLater(level, lines', |body| + 1);
    }
  }

  lemma {:induction false} FindAppend(a: seq<string>, b: seq<string>, assigns: string -> Option<string>)
    ensures FindName(a + b, assigns)
         == if FindName(a, assigns).Some? then FindName(a, assigns) else FindName(b, assigns)
  {
    if a == [] {
      assert a + b == b;
    } else {
      FindAppend(a[1..], b, assigns);
      assert (a + b)[1..] == a[1..] + b;
    }
  }

  lemma {:induction false} FindNone(a: seq<string>, assigns: string -> Option<string>)
    requires forall i | 0 <= i < |a| :: assigns(a[i]).None?
    ensures FindName(a, assigns).None?
  {
    if a == [] {
    } else {
      FindNone(a[1..], assigns);
    }
  }

  lemma MarkedName(f: Source, k: nat, cfg: Config, name: string)
    requires Neutral(cfg) && FindName(Lines(f), cfg.assigns) == Some(name)
    ensures FindName(Lines(Marked(f, k, cfg)), cfg.assigns) == Some(name)
  {
    hide FindName;
    var a, s, e := f.pre + [f.sg, f.brace], Repeat(StartMarker(cfg), k), Repeat(END_MARKER, k);
    var c := [f.close] + f.post;
    FindNone(s, cfg.assigns);
    FindNone(e, cfg.assigns);
    FindAppend(a, f.body + c, cfg.assigns);
    FindAppend(f.body, c, cfg.assigns);
    assert Lines(f) == a + (f.body + c);
    FindAppend(a, s + (f.body + (e + c)), cfg.assigns);
    FindAppend(s, f.body + (e + c), cfg.assigns);
    FindAppend(f.body, e + c, cfg.assigns);
    FindAppend(e, c, cfg.assigns);
    assert Lines(Marked(f, k, cfg)) == a + (s + (f.body + (e + c)));
  }

  function Runs(code: seq<string>, k: nat, cfg: Config): seq<string> {
    if k == 0 then code else Modified(Runs(code, k - 1, cfg), cfg)
  }

  /** k runs over a well-formed file leave exactly k start markers behind the opening brace, k
      end markers before the closing line, and everything else in place. */
  lemma {:induction false} RepeatedRuns(f: Source, k: nat, cfg: Config, name: string)
    requires Neutral(cfg) && WellFormed(f, Defines(cfg, name))
    requires FindName(Lines(f), cfg.assigns) == Some(name)
    ensures Runs(Lines(f), k, cfg) == Lines(Marked(f, k, cfg))
  {
    hide FindName, Modified, WellFormed, Neutral;
    if k == 0 {
      assert Repeat(StartMarker(cfg), 0) + f.body + Repeat(END_MARKER, 0) == f.body;
    } else {
      RepeatedRuns(f, k - 1, cfg, name);
      OneMoreRun(f, k - 1, cfg, name);
    }
  }
}
