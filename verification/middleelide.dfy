/**
 * MiddleElide: shortens a symbol for display by replacing the contents of
 * each outermost angle-bracket group with "...".
 */
module MiddleElide {
  import opened Common

  /** The state of the substitution loop: the text produced so far and the bracket depth. */
  datatype Scan = Scan(out: string, level: int)

  /**
   * One character of substituteAngleBrackets: a '<' at depth 0 is kept, a '>'
   * closing depth 1 becomes "...>", deeper brackets only change the depth,
   * and anything else (an unmatched '>' included) is kept at depth 0 only.
   */
  function Step(st: Scan, c: char): (r: Scan)
    ensures st.level >= 0 ==> r.level >= 0
    ensures c != '<' && c != '>' ==> r.level == st.level
    ensures st.out <= r.out && |r.out| <= |st.out| + 4
  {
    if c == '<' && st.level == 0 then Scan(st.out + ['<'], st.level + 1)
    else if c == '<' && st.level > 0 then Scan(st.out, st.level + 1)
    else if c == '>' && st.level == 1 then Scan(st.out + "...>", st.level - 1)
    else if c == '>' && st.level > 1 then Scan(st.out, st.level - 1)
    else if st.level == 0 then Scan(st.out + [c], st.level)
    else st
  }

  /** The loop run over s from state st. */
  function Run(st: Scan, s: string): (r: Scan)
    ensures st.level >= 0 ==> r.level >= 0
    ensures st.out <= r.out && |r.out| <= |st.out| + 4 * |s|
  {
    if s == [] then st else Step(Run(st, s[..|s| - 1]), s[|s| - 1])
  }

  /** substituteAngleBrackets: one pass over s, tracking the depth. */
  method SubstituteAngleBrackets(s: string) returns (result: string)
    ensures result == Run(Scan([], 0), s).out
  {
    var level := 0;
    result := [];
    var i := 0;
    while i < |s|
      invariant i <= |s| && Scan(result, level) == Run(Scan([], 0), s[..i])
    {
      var c := s[i];
      if c == '<' && level == 0 {
        result := result + ['<'];
        level := level + 1;
      } else if c == '<' && level > 0 {
        level := level + 1;
      } else if c == '>' && level == 1 {
        result := result + "...>";
        level := level - 1;
      } else if c == '>' && level > 1 {
        level := level - 1;
      } else if level == 0 {
        result := result + [c];
      }
      assert s[..i + 1][..i] == s[..i];
      i := i + 1;
    }
    assert s[..i] == s;
  }

  /** elideAngleBracket: the substitution above. */
  method ElideAngleBracket(s: string) returns (result: string)
    ensures result == Run(Scan([], 0), s).out
  {
    result := SubstituteAngleBrackets(s);
  }

  /** Running over x + y is running over x, then over y. */
  lemma {:induction false} RunAppend(st: Scan, x: string, y: string)
    ensures Run(st, x + y) == Run(Run(st, x), y)
    decreases |y|
  {
    if y != [] {
      assert (x + y)[..|x + y| - 1] == x + y[..|y| - 1];
      RunAppend(st, x, y[..|y| - 1]);
    } else {
      assert x + y == x;
    }
  }

  /** Text without '<' at depth 0 is copied unchanged, any '>' in it included. */
  lemma {:induction false} OutsideCopied(out: string, s: string)
    requires '<' !in s
    ensures Run(Scan(out, 0), s) == Scan(out + s, 0)
    decreases |s|
  {
    if s != [] {
      var init := s[..|s| - 1];
      assert s == init + [s[|s| - 1]];
      OutsideCopied(out, init);
    }
  }

  /** A string with no '<' comes back unchanged. */
  lemma NoOpenUnchanged(s: string)
    requires '<' !in s
    ensures Run(Scan([], 0), s).out == s
  {
    OutsideCopied([], s);
  }

  /** Inside a bracket (depth 1 or more throughout), nothing is produced. */
  lemma {:induction false} InsideDropped(out: string, l: int, s: string)
    requires forall k :: 0 <= k <= |s| ==> l + Net(s[..k]) >= 1
    ensures Run(Scan(out, l), s) == Scan(out, l + Net(s))
    decreases |s|
  {
    if s != [] {
      var init := s[..|s| - 1];
      forall k | 0 <= k <= |init| ensures l + Net(init[..k]) >= 1 {
        assert init[..k] == s[..k];
      }
      InsideDropped(out, l, init);
      assert s[..|s|] == s;
    }
  }

  /** An outermost group "<inner>", nested brackets included, becomes "<...>". */
  lemma GroupSubstituted(out: string, inner: string)
    requires Nested(inner)
    ensures Run(Scan(out, 0), ['<'] + inner + ['>']) == Scan(out + "<...>", 0)
  {
    RunAppend(Scan(out, 0), ['<'] + inner, ['>']);
    RunAppend(Scan(out, 0), ['<'], inner);
    assert Run(Scan(out, 0), ['<']) == Scan(out + ['<'], 1) by {
      assert ['<'][..0] == [];
    }
    InsideDropped(out + ['<'], 1, inner);
    assert inner[..|inner|] == inner;
    assert ['>'][..0] == [];
    assert out + ['<'] + "...>" == out + "<...>";
  }

  /**
   * Text without '<', then a bracket group, then anything: the text is kept,
   * the group becomes "<...>", and the substitution carries on at depth 0.
   */
  lemma GroupThenRest(out: string, text: string, inner: string, rest: string)
    requires '<' !in text && Nested(inner)
    ensures Run(Scan(out, 0), text + (['<'] + inner + ['>']) + rest) == Run(Scan(out + text + "<...>", 0), rest)
  {
    var g := ['<'] + inner + ['>'];
    RunAppend(Scan(out, 0), text + g, rest);
    RunAppend(Scan(out, 0), text, g);
    OutsideCopied(out, text);
    GroupSubstituted(out + text, inner);
  }
}
