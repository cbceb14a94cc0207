/** Python's str.strip on the ASCII part of its white space, and prefixes. */
module Text {
  predicate IsSpace(c: char) {
    c == ' ' || '\t' <= c <= '\r' || (0x1c <= c as int <= 0x1f)
  }

  function StripLeft(s: string): string {
    if s != "" && IsSpace(s[0]) then StripLeft(s[1..]) else s
  }

  function StripRight(s: string): string {
    if s != "" && IsSpace(s[|s| - 1]) then StripRight(s[..|s| - 1]) else s
  }

  function Strip(s: string): string {
    StripRight(StripLeft(s))
  }

  // ---------- what stripping means ----------

  /** Tab, line feed, vertical tab, form feed, carriage return, the four separators, space. */
  predicate White(c: char) {
    c as int in {9, 10, 11, 12, 13, 28, 29, 30, 31, 32}
  }

  ghost predicate Blank(s: string) {
    forall k | 0 <= k < |s| :: White(s[k])
  }

  /** Neither the first nor the last character is white space. */
  ghost predicate IsTight(s: string) {
    s == "" || (!White(s[0]) && !White(s[|s| - 1]))
  }

  lemma SpaceIsWhite(c: char)
    ensures IsSpace(c) <==> White(c)
  {}

  lemma {:induction false} StripLeftBlank(a: string, s: string)
    requires Blank(a) && (s == "" || !White(s[0]))
    ensures StripLeft(a + s) == s
  {
    hide IsSpace, White;
    if a == "" {
      assert a + s == s;
      if s != "" {
        SpaceIsWhite(s[0]);
      }
    } else {
      SpaceIsWhite(a[0]);
      assert (a + s)[1..] == a[1..] + s;
      StripLeftBlank(a[1..], s);
    }
  }

  lemma {:induction false} StripRightBlank(s: string, b: string)
    requires Blank(b) && (s == "" || !White(s[|s| - 1]))
    ensures StripRight(s + b) == s
  {
    hide IsSpace, White;
    if b == "" {
      assert s + b == s;
      if s != "" {
        SpaceIsWhite(s[|s| - 1]);
      }
    } else {
      SpaceIsWhite(b[|b| - 1]);
      assert (s + b)[..|s + b| - 1] == s + b[..|b| - 1];
      StripRightBlank(s, b[..|b| - 1]);
    }
  }

  /** White space on either side goes, and nothing else. */
  lemma StripAround(a: string, core: string, b: string)
    requires Blank(a) && Blank(b) && IsTight(core)
    ensures Strip(a + core + b) == core
  {
    hide StripLeft, StripRight, White;
    if core == "" {
      StripLeftBlank(a + b, "");
      assert a + core + b == a + b + "";
      StripRightBlank("", "");
      assert core + "" == core;
    } else {
      StripLeftBlank(a, core + b);
      assert a + core + b == a + (core + b);
      StripRightBlank(core, b);
    }
  }

  /** Text that neither starts nor ends with white space is left as it is. */
  lemma Tight(s: string)
    requires IsTight(s)
    ensures Strip(s) == s
  {
    hide White;
    StripAround("", s, "");
    assert "" + s + "" == s;
  }

  /** Every text is what stripping leaves, with white space on either side. */
  lemma StripSplits(s: string) returns (a: string, b: string)
    ensures s == a + Strip(s) + b && Blank(a) && Blank(b) && IsTight(Strip(s))
  {
    hide White, StripLeft, StripRight;
    var n := LeftEnd(s);
    var t := s[n..];
    var m := RightEnd(t);
    a, b := s[..n], t[m..];
    assert Strip(s) == t[..m];
    assert s == a + (t[..m] + t[m..]);
    assert s == a + t[..m] + b;
  }

  lemma {:induction false} LeftEnd(s: string) returns (n: nat)
    ensures n <= |s| && StripLeft(s) == s[n..] && Blank(s[..n]) && (n < |s| ==> !White(s[n]))
  {
    hide IsSpace, White;
    n := 0;
    if s == "" {
    } else {
      SpaceIsWhite(s[0]);
      if IsSpace(s[0]) {
        n := LeftEnd(s[1..]);
        assert s[1..][n..] == s[n + 1..];
        forall k | 0 <= k < n + 1 ensures White(s[k]) {
          if k > 0 { assert s[1..][..n][k - 1] == s[k]; }
        }
        n := n + 1;
      }
    }
  }

  lemma {:induction false} RightEnd(s: string) returns (m: nat)
    ensures m <= |s| && StripRight(s) == s[..m] && Blank(s[m..]) && (m > 0 ==> !White(s[m - 1]))
  {
    hide IsSpace, White;
    m := |s|;
    if s == "" {
    } else {
      SpaceIsWhite(s[|s| - 1]);
      if IsSpace(s[|s| - 1]) {
        var t := s[..|s| - 1];
        m := RightEnd(t);
        assert t[..m] == s[..m];
        forall k | 0 <= k < |s| - m ensures White(s[m..][k]) {
          if k < |t| - m { assert t[m..][k] == s[m + k]; }
        }
      }
    }
  }
}
