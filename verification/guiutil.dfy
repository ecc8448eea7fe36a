/**
 * The string helpers of the analyzer's GUI: basename, template-argument
 * elision, the "??" placeholder and the rendering of a duration in
 * milliseconds as "1d2h3min04s".
 */
module GuiUtil {
  import opened Common

  /** lastIndexOf(c): the position of the last c in s, or -1. */
  function LastIndexOf(s: string, c: char): (k: int)
    ensures -1 <= k < |s|
    ensures k >= 0 ==> s[k] == c
    ensures forall j :: k < j < |s| ==> s[j] != c
  {
    if s == [] then -1
    else if s[|s| - 1] == c then |s| - 1
    else LastIndexOf(s[..|s| - 1], c)
  }

  /** basename(path): the longest suffix of path without a '/', i.e. everything after the last '/'. */
  function Basename(path: string): (name: string)
    ensures '/' !in name && |name| <= |path| && name == path[|path| - |name|..]
    ensures |name| < |path| ==> path[|path| - |name| - 1] == '/'
  {
    var k := LastIndexOf(path, '/');
    NoSlashAfter(path, k);
    path[k + 1..]
  }

  lemma NoSlashAfter(path: string, k: int)
    requires -1 <= k < |path| && forall j :: k < j < |path| ==> path[j] != '/'
    ensures '/' !in path[k + 1..]
  {
    var name := path[k + 1..];
    forall j | 0 <= j < |name| ensures name[j] != '/' {
      assert name[j] == path[k + 1 + j];
    }
  }

  /** A name appended to a directory and a '/' is its own basename; a path without '/' is its own. */
  lemma BasenameOfJoin(dir: string, name: string)
    requires '/' !in name
    ensures Basename(dir + "/" + name) == name
    ensures Basename(name) == name
  {
    var p := dir + "/" + name;
    assert p[|dir|] == '/';
    assert p[|dir| + 1..] == name;
  }

  /** formatString: "??" in place of an empty string. */
  function FormatString(input: string): (r: string)
    ensures r != []
    ensures input == [] ==> r == "??"
    ensures input != [] ==> r == input
  {
    if input == [] then "??" else input
  }

  /** The state of the elision loop: the text kept so far and the bracket depth. */
  datatype ElideState = ElideState(out: string, level: int)

  /**
   * One character of elideTemplateArguments: a '<' is kept when it opens depth 1,
   * a '>' when it closes depth 1, and any other character only at depth 0.
   */
  function ElideStep(st: ElideState, c: char): (r: ElideState)
    ensures r.level == st.level + Net([c])
    ensures st.out <= r.out && |r.out| <= |st.out| + 1
  {
    if c == '<' then ElideState(if st.level == 0 then st.out + ['<'] else st.out, st.level + 1)
    else if c == '>' then ElideState(if st.level == 1 then st.out + ['>'] else st.out, st.level - 1)
    else if st.level == 0 then ElideState(st.out + [c], st.level)
    else st
  }

  /** The loop of elideTemplateArguments run over s from state st. */
  function ElideRun(st: ElideState, s: string): (r: ElideState)
    ensures r.level == st.level + Net(s)
    ensures st.out <= r.out && |r.out| <= |st.out| + |s|
  {
    if s == [] then st else ElideStep(ElideRun(st, s[..|s| - 1]), s[|s| - 1])
  }

  /** elideTemplateArguments: collects the kept characters in one pass, tracking the depth. */
  method ElideTemplateArguments(s: string) returns (result: string)
    ensures result == ElideRun(ElideState([], 0), s).out
  {
    var level := 0;
    result := [];
    var i := 0;
    while i < |s|
      invariant i <= |s| && ElideState(result, level) == ElideRun(ElideState([], 0), s[..i])
    {
      var c := s[i];
      if c == '<' {
        if level == 0 {
          result := result + ['<'];
        }
        level := level + 1;
      } else if c == '>' {
        if level == 1 {
          result := result + ['>'];
        }
        level := level - 1;
      } else if level == 0 {
        result := result + [c];
      }
      assert s[..i + 1][..i] == s[..i];
      i := i + 1;
    }
    assert s[..i] == s;
  }

  /** Running over x + y is running over x, then over y. */
  lemma {:induction false} ElideRunAppend(st: ElideState, x: string, y: string)
    ensures ElideRun(st, x + y) == ElideRun(ElideRun(st, x), y)
    decreases |y|
  {
    if y != [] {
      assert (x + y)[..|x + y| - 1] == x + y[..|y| - 1];
      ElideRunAppend(st, x, y[..|y| - 1]);
    } else {
      assert x + y == x;
    }
  }

  predicate NoBrackets(s: string)
  {
    '<' !in s && '>' !in s
  }

  /** Text without brackets at depth 0 is copied unchanged. */
  lemma {:induction false} PlainCopied(out: string, s: string)
    requires NoBrackets(s)
    ensures ElideRun(ElideState(out, 0), s) == ElideState(out + s, 0)
    decreases |s|
  {
    if s != [] {
      var init := s[..|s| - 1];
      assert s == init + [s[|s| - 1]];
      PlainCopied(out, init);
    }
  }

  /** Inside a bracket (depth 1 or more throughout), nothing is kept. */
  lemma {:induction false} InsideDropped(out: string, l: int, s: string)
    requires forall k :: 0 <= k <= |s| ==> l + Net(s[..k]) >= 1
    ensures ElideRun(ElideState(out, l), s) == ElideState(out, l + Net(s))
    decreases |s|
  {
    if s != [] {
      var init := s[..|s| - 1];
      forall k | 0 <= k <= |init| ensures l + Net(init[..k]) >= 1 {
        assert init[..k] == s[..k];
      }
      InsideDropped(out, l, init);
      assert s[..|s|] == s;
    }
  }

  /** A bracket group "<inner>" with nested inner brackets at depth 0 becomes "<>". */
  lemma GroupElided(out: string, inner: string)
    requires Nested(inner)
    ensures ElideRun(ElideState(out, 0), ['<'] + inner + ['>']) == ElideState(out + "<>", 0)
  {
    ElideRunAppend(ElideState(out, 0), ['<'] + inner, ['>']);
    ElideRunAppend(ElideState(out, 0), ['<'], inner);
    assert ElideRun(ElideState(out, 0), ['<']) == ElideState(out + ['<'], 1) by {
      assert ['<'][..0] == [];
    }
    forall k | 0 <= k <= |inner| ensures 1 + Net(inner[..k]) >= 1 {
    }
    InsideDropped(out + ['<'], 1, inner);
    assert inner[..|inner|] == inner;
    assert ElideRun(ElideState(out + ['<'], 1), inner) == ElideState(out + ['<'], 1);
    assert ['>'][..0] == [];
    assert out + ['<'] + ['>'] == out + "<>";
  }

  /**
   * Plain text, then a bracket group, then anything: the text is kept, the
   * group shrinks to "<>", and elision carries on after it at depth 0.
   */
  lemma ElideGroupThenRest(out: string, text: string, inner: string, rest: string)
    requires NoBrackets(text) && Nested(inner)
    ensures ElideRun(ElideState(out, 0), text + (['<'] + inner + ['>']) + rest)
         == ElideRun(ElideState(out + text + "<>", 0), rest)
  {
    var g := ['<'] + inner + ['>'];
    ElideRunAppend(ElideState(out, 0), text + g, rest);
    ElideRunAppend(ElideState(out, 0), text, g);
    PlainCopied(out, text);
    GroupElided(out + text, inner);
  }

  /** After a '>' that closed nothing, bracket-free text is dropped. */
  lemma {:induction false} UnderflowDrops(out: string, l: int, s: string)
    requires l < 0 && NoBrackets(s)
    ensures ElideRun(ElideState(out, l), s) == ElideState(out, l)
    decreases |s|
  {
    if s != [] {
      var init := s[..|s| - 1];
      assert s == init + [s[|s| - 1]];
      UnderflowDrops(out, l, init);
    }
  }

  /** QString::number(n).rightJustified(width, '0'): left-padded with zeros, never cut. */
  function Padded(s: string, width: nat): (r: string)
    ensures |r| == if |s| >= width then |s| else width
    ensures r[|r| - |s|..] == s
    ensures forall k :: 0 <= k < |r| - |s| ==> r[k] == '0'
  {
    if |s| >= width then s else seq(width - |s|, _ => '0') + s
  }

  /** The optional "<n><unit>" part, empty for zero. */
  function Optional(fragment: nat, unit: string): (r: string)
    ensures r == [] <==> fragment == 0
    ensures '.' !in unit ==> '.' !in r
  {
    if fragment > 0 then
      NoDotInDec(fragment);
      Dec(fragment) + unit
    else ""
  }

  /** The magnitude of a duration split into days, hours, minutes, seconds and milliseconds. */
  datatype Parts = Parts(days: nat, hours: nat, minutes: nat, seconds: nat, millis: nat)

  function Split(ms: nat): (p: Parts)
    ensures p.hours < 24 && p.minutes < 60 && p.seconds < 60 && p.millis < 1000
    ensures (((p.days * 24 + p.hours) * 60 + p.minutes) * 60 + p.seconds) * 1000 + p.millis == ms
  {
    var total := ms / 1000;
    Parts(total / 60 / 60 / 24, (total / 60 / 60) % 24, (total / 60) % 60, total % 60, ms % 1000)
  }

  /** The leading "<d>d<h>h<m>min" of a rendering; only the non-zero units appear. */
  function Units(p: Parts): (r: string)
    ensures r == [] <==> p.days == 0 && p.hours == 0 && p.minutes == 0
    ensures '.' !in r
  {
    Optional(p.days, "d") + Optional(p.hours, "h") + Optional(p.minutes, "min")
  }

  /** The rendering of a magnitude: units, two-digit seconds, ".mmm" when there are no units, then 's'. */
  function Body(p: Parts): (r: string)
    ensures r != [] && r[|r| - 1] == 's'
  {
    Units(p) + Padded(Dec(p.seconds), 2) + (if Units(p) == "" then "." + Padded(Dec(p.millis), 3) else "") + "s"
  }

  /**
   * formatTime as written: the branch for durations under a second builds
   * "<ms>ms" in a local and drops it, so every duration goes through the
   * d/h/min/s rendering.
   */
  function FormatTimeAsWritten(ms: int): (r: string)
    ensures |r| >= 3 && r[|r| - 1] == 's'
    ensures r[0] == '-' <==> ms < 0
  {
    if ms < 0 then "-" + Body(Split(-ms)) else Body(Split(ms))
  }

  /** formatTime as evidently intended: durations under a second render as "<ms>ms". */
  function FormatTime(ms: int): (r: string)
    ensures |r| >= 3 && (r[0] == '-' <==> ms < 0)
    ensures -1000 < ms < 1000 ==> r[|r| - 2..] == "ms"
    ensures ms <= -1000 || ms >= 1000 ==> r[|r| - 1] == 's'
  {
    if -1000 < ms < 1000 then SignedDec(ms) + "ms" else FormatTimeAsWritten(ms)
  }

  /** Under a second, the written code shows "00.500s" for 500 ms instead of "500ms". */
  lemma SubSecondAsWritten()
    ensures FormatTimeAsWritten(500) == "00.500s"
    ensures FormatTime(500) == "500ms"
  {
    var p := Split(500);
    assert p == Parts(0, 0, 0, 0, 500);
    RenderedDigits();
    assert Units(p) == "";
    assert Body(p) == "" + "00" + ("." + "500") + "s";
  }

  lemma RenderedDigits()
    ensures Dec(500) == "500" && Padded(Dec(500), 3) == "500"
    ensures Dec(0) == "0" && Padded(Dec(0), 2) == "00"
  {
    assert Dec(5) == "5";
    assert Dec(50) == "50";
    assert Padded("0", 2) == ['0'] + "0";
  }

  /** A negative duration renders as '-' followed by its magnitude's rendering. */
  lemma FormatTimeOfNegative(x: int)
    requires x > 0
    ensures FormatTime(-x) == "-" + FormatTime(x)
    ensures FormatTimeAsWritten(-x) == "-" + FormatTimeAsWritten(x)
  {
  }

  predicate Digits(s: string)
  {
    forall k :: 0 <= k < |s| ==> '0' <= s[k] <= '9'
  }

  lemma NoDotInDigits(s: string)
    requires Digits(s)
    ensures '.' !in s
  {
  }

  lemma NoDotInDec(n: nat)
    ensures '.' !in Dec(n)
  {
    NoDotInDigits(Dec(n));
  }

  lemma PaddedDigits(s: string, width: nat)
    requires Digits(s)
    ensures Digits(Padded(s, width))
  {
    var r := Padded(s, width);
    forall k | 0 <= k < |r| ensures '0' <= r[k] <= '9' {
      if k >= |r| - |s| {
        assert r[k] == r[|r| - |s|..][k - (|r| - |s|)];
      }
    }
  }

  /** The rendering has a '.' exactly when it has no units. */
  lemma DotIffNoUnits(p: Parts)
    ensures '.' in Body(p) <==> Units(p) == ""
  {
    var units, secs := Units(p), Padded(Dec(p.seconds), 2);
    PaddedDigits(Dec(p.seconds), 2);
    NoDotInDigits(secs);
    if units == "" {
      assert Body(p)[|units + secs|] == '.';
    } else {
      assert Body(p) == units + secs + "s";
    }
  }

  /** A magnitude has no day, hour or minute part exactly when it is under a minute. */
  lemma NoUnitsIffUnderAMinute(m: nat)
    ensures Units(Split(m)) == "" <==> m < 60000
  {
    var total := m / 1000;
    assert total < 60 <==> m < 60000;
    if total < 60 {
      assert total / 60 == 0;
    } else {
      assert total / 60 >= 1;
      var p := Split(m);
      if p.minutes == 0 && p.hours == 0 {
        assert (total / 60) % 60 == 0 && (total / 60 / 60) % 24 == 0;
        assert total / 60 / 60 / 24 >= 1;
      }
    }
  }

  /**
   * The milliseconds (after a '.') appear exactly when the duration is under
   * a minute, i.e. has no day, hour or minute part; the rendering always
   * ends in 's'.
   */
  lemma MillisShownIffUnderAMinute(ms: int)
    requires ms <= -1000 || ms >= 1000
    ensures '.' in FormatTime(ms) <==> -60000 < ms < 60000
    ensures FormatTime(ms)[|FormatTime(ms)| - 1] == 's'
  {
    var m: nat := if ms < 0 then -ms else ms;
    DotIffNoUnits(Split(m));
    NoUnitsIffUnderAMinute(m);
    if ms < 0 {
      assert FormatTime(ms) == "-" + Body(Split(m));
      assert '.' in FormatTime(ms) <==> '.' in Body(Split(m));
    }
  }
}
