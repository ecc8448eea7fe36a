/**
 * Suppressions: the leak-suppression rules of the analyzer — reading
 * "leak:<pattern>" lines, the sanitizer-style wildcard match of a pattern
 * against a symbol, and the built-in list.
 */
module Suppressions {
  import opened Common

  /** The characters boost::trim removes under the classic locale: space and \t \n \v \f \r. */
  predicate IsSpace(c: char)
  {
    c == ' ' || '\t' <= c <= '\r'
  }

  predicate AllSpace(s: string)
  {
    forall i :: 0 <= i < |s| ==> IsSpace(s[i])
  }

  /** s without its leading white space. */
  function TrimLeft(s: string): (r: string)
    ensures |r| <= |s| && r == s[|s| - |r|..]
    ensures AllSpace(s[..|s| - |r|])
    ensures r == [] || !IsSpace(r[0])
  {
    if s != [] && IsSpace(s[0]) then TrimLeft(s[1..]) else s
  }

  /** s without its trailing white space. */
  function TrimRight(s: string): (r: string)
    ensures |r| <= |s| && r == s[..|r|]
    ensures AllSpace(s[|r|..])
    ensures r == [] || !IsSpace(r[|r| - 1])
  {
    if s != [] && IsSpace(s[|s| - 1]) then TrimRight(s[..|s| - 1]) else s
  }

  /** boost::trim: white space removed at both ends. */
  function Trim(s: string): (r: string)
    ensures r == [] || (!IsSpace(r[0]) && !IsSpace(r[|r| - 1]))
    ensures |r| <= |s|
  {
    TrimRight(TrimLeft(s))
  }

  /** No white space at either end. */
  predicate Trimmed(x: string)
  {
    x == [] || (!IsSpace(x[0]) && !IsSpace(x[|x| - 1]))
  }

  lemma {:induction false} TrimLeftOfSpace(w: string, x: string)
    requires AllSpace(w) && (x == [] || !IsSpace(x[0]))
    ensures TrimLeft(w + x) == x
    decreases |w|
  {
    if w != [] {
      assert (w + x)[1..] == w[1..] + x;
      TrimLeftOfSpace(w[1..], x);
    } else {
      assert w + x == x;
    }
  }

  lemma {:induction false} TrimRightOfSpace(x: string, w: string)
    requires AllSpace(w) && (x == [] || !IsSpace(x[|x| - 1]))
    ensures TrimRight(x + w) == x
    decreases |w|
  {
    if w != [] {
      assert (x + w)[..|x + w| - 1] == x + w[..|w| - 1];
      TrimRightOfSpace(x, w[..|w| - 1]);
    } else {
      assert x + w == x;
    }
  }

  /** Trimming removes exactly the white space around a text that has none at its ends. */
  lemma TrimOfPadded(w1: string, x: string, w2: string)
    requires AllSpace(w1) && AllSpace(w2) && x != [] && Trimmed(x)
    ensures Trim(w1 + x + w2) == x
  {
    assert w1 + x + w2 == w1 + (x + w2);
    TrimLeftOfSpace(w1, x + w2);
    TrimRightOfSpace(x, w2);
  }

  /** Trimming twice is trimming once. */
  lemma TrimIdempotent(s: string)
    ensures Trim(Trim(s)) == Trim(s)
  {
    var r := Trim(s);
    if r != [] {
      assert TrimLeft(r) == r;
      assert TrimRight(r) == r;
    }
  }

  /**
   * parseSuppression: the pattern of a "leak:<pattern>" line after trimming;
   * blank lines, '#' comments and every other line give "".
   */
  function ParseSuppression(line: string): (r: string)
    ensures r != [] ==> Trim(line) == "leak:" + r
    ensures Trim(line) == [] || Trim(line)[0] == '#' ==> r == []
    ensures |Trim(line)| < 5 || Trim(line)[..5] != "leak:" ==> r == []
  {
    var t := Trim(line);
    if t == [] || t[0] == '#' then []
    else if |t| >= 5 && t[..5] == "leak:" then t[5..]
    else []
  }

  /** A "leak:" line, padded with white space, gives back its pattern. */
  lemma ParseLeakLine(w1: string, pattern: string, w2: string)
    requires AllSpace(w1) && AllSpace(w2)
    requires pattern == [] || !IsSpace(pattern[|pattern| - 1])
    ensures ParseSuppression(w1 + ("leak:" + pattern) + w2) == pattern
  {
    var x := "leak:" + pattern;
    assert x[0] == 'l' && x[|x| - 1] == if pattern == [] then ':' else pattern[|pattern| - 1];
    TrimOfPadded(w1, x, w2);
    assert x[..5] == "leak:" && x[5..] == pattern;
  }

  /** The patterns parseSuppressionsFile keeps: every non-empty parse result, in order. */
  function Kept(lines: seq<string>): (r: seq<string>)
    ensures |r| <= |lines|
    ensures forall i :: 0 <= i < |r| ==> r[i] != []
  {
    if lines == [] then []
    else
      var p := ParseSuppression(lines[|lines| - 1]);
      Kept(lines[..|lines| - 1]) + (if p == [] then [] else [p])
  }

  /** parseSuppressionsFile: one parse per line read, empty results dropped. */
  method ParseSuppressionsFile(lines: seq<string>) returns (ret: seq<string>)
    ensures ret == Kept(lines)
  {
    ret := [];
    var i := 0;
    while i < |lines|
      invariant i <= |lines| && ret == Kept(lines[..i])
    {
      var suppression := ParseSuppression(lines[i]);
      if suppression != [] {
        ret := ret + [suppression];
      }
      assert lines[..i + 1][..i] == lines[..i];
      i := i + 1;
    }
    assert lines[..i] == lines;
  }

  /** Every kept pattern comes from a "leak:" line. */
  lemma {:induction false} KeptFromLeakLines(lines: seq<string>)
    ensures forall p :: p in Kept(lines) ==> exists l :: l in lines && Trim(l) == "leak:" + p
  {
    if lines != [] {
      var init := lines[..|lines| - 1];
      KeptFromLeakLines(init);
      forall p | p in Kept(lines) ensures exists l :: l in lines && Trim(l) == "leak:" + p {
        var q := ParseSuppression(lines[|lines| - 1]);
        if p in Kept(init) {
          var l :| l in init && Trim(l) == "leak:" + p;
          assert l in lines;
        } else {
          assert p == q;
          assert lines[|lines| - 1] in lines;
        }
      }
    }
  }

  /** The kept patterns of two pieces of a file are those of the whole, in file order. */
  lemma {:induction false} KeptAppend(a: seq<string>, b: seq<string>)
    ensures Kept(a + b) == Kept(a) + Kept(b)
    decreases |b|
  {
    if b == [] {
      assert a + b == a;
    } else {
      var init := b[..|b| - 1];
      assert (a + b)[..|a + b| - 1] == a + init;
      assert (a + b)[|a + b| - 1] == b[|b| - 1];
      KeptAppend(a, init);
    }
  }

  /**
   * Every line contributes its pattern in its own place: the patterns of the
   * lines before it, then its own (if it has one), then those of the lines
   * after it. So every "leak:" line's pattern is kept, in file order.
   */
  lemma {:induction false} KeptAtLine(lines: seq<string>, i: nat)
    requires i < |lines|
    ensures var p := ParseSuppression(lines[i]);
      Kept(lines) == Kept(lines[..i]) + (if p == [] then [] else [p]) + Kept(lines[i + 1..])
    ensures ParseSuppression(lines[i]) != [] ==> ParseSuppression(lines[i]) in Kept(lines)
  {
    KeptAround(lines, i);
    KeptOfOneLine(lines[i]);
    var p := ParseSuppression(lines[i]);
    if p != [] {
      assert Kept(lines)[|Kept(lines[..i])|] == p;
    }
  }

  /** The patterns of a file are those before a line, of the line, and after it. */
  lemma {:induction false} KeptAround(lines: seq<string>, i: nat)
    requires i < |lines|
    ensures Kept(lines) == Kept(lines[..i]) + Kept([lines[i]]) + Kept(lines[i + 1..])
  {
    var before, line, after := lines[..i], [lines[i]], lines[i + 1..];
    assert lines == before + (line + after);
    KeptAppend(before, line + after);
    KeptAppend(line, after);
    AppendAssoc(Kept(before), Kept(line), Kept(after));
  }

  /** A file of one line keeps that line's pattern, if it has one. */
  lemma {:induction false} KeptOfOneLine(l: string)
    ensures Kept([l]) == if ParseSuppression(l) == [] then [] else [ParseSuppression(l)]
  {
    assert [l][..0] == [];
  }

  /**
   * parseSuppressions: no file name gives no patterns; a file that cannot be
   * opened (contents None) gives none and clears ok; otherwise the file's
   * lines are parsed.
   */
  function ParseSuppressions(fileName: string, contents: Option<seq<string>>): (r: (seq<string>, bool))
    ensures !r.1 <==> fileName != [] && contents.None?
    ensures r.0 != [] ==> fileName != [] && contents.Some? && r.0 == Kept(contents.value)
    ensures fileName == [] ==> r == ([], true)
    ensures fileName != [] && contents.Some? ==> r == (Kept(contents.value), true)
  {
    if fileName == [] then ([], true)
    else if contents.None? then ([], false)
    else (Kept(contents.value), true)
  }

  /** strchr: the index of the first c in s. */
  function IndexOf(s: string, c: char): (r: Option<nat>)
    ensures r.Some? ==> r.value < |s| && s[r.value] == c
    ensures r.Some? ==> forall i :: 0 <= i < r.value ==> s[i] != c
    ensures r.None? ==> c !in s
  {
    if s == [] then None
    else if s[0] == c then Some(0)
    else
      var t := IndexOf(s[1..], c);
      if t.None? then None else Some(t.value + 1)
  }

  /** The text of a std::string as c_str() hands it on: up to its first NUL. */
  function CStr(s: string): (r: string)
    ensures '\0' !in r && r <= s
    ensures '\0' !in s ==> r == s
  {
    var n := IndexOf(s, '\0');
    if n.None? then s else s[..n.value]
  }

  predicate Special(c: char)
  {
    c == '*' || c == '$'
  }

  /** A literal: no '*' and no '$'. */
  predicate Plain(s: string)
  {
    forall i :: 0 <= i < |s| ==> !Special(s[i])
  }

  /** The length of the literal a pattern starts with: up to its first '*' or '$'. */
  function LiteralLen(t: string): (n: nat)
    ensures n <= |t| && forall i :: 0 <= i < n ==> !Special(t[i])
    ensures n < |t| ==> Special(t[n])
  {
    if t == [] || Special(t[0]) then 0 else LiteralLen(t[1..]) + 1
  }

  lemma PlainLiteralLen(t: string)
    requires Plain(t)
    ensures LiteralLen(t) == |t|
  {
  }

  /** lit occurs in s at j. */
  predicate OccursAt(s: string, lit: string, j: nat)
  {
    j + |lit| <= |s| && s[j..j + |lit|] == lit
  }

  /** strstr from position k on: the first j >= k where lit occurs in s. */
  function SearchFrom(s: string, lit: string, k: nat): (r: Option<nat>)
    ensures r.Some? ==> k <= r.value && OccursAt(s, lit, r.value)
    ensures forall j :: k <= j && (r.None? || j < r.value) ==> !OccursAt(s, lit, j)
    decreases |s| - k
  {
    if k + |lit| > |s| then None
    else if s[k..k + |lit|] == lit then Some(k)
    else SearchFrom(s, lit, k + 1)
  }

  /** strstr: the first occurrence of lit in s. */
  function Search(s: string, lit: string): (r: Option<nat>)
    ensures r.Some? ==> OccursAt(s, lit, r.value) && forall j: nat :: j < r.value ==> !OccursAt(s, lit, j)
    ensures r.None? <==> forall j: nat :: !OccursAt(s, lit, j)
  {
    SearchFrom(s, lit, 0)
  }

  /** The first occurrence of lit in s ends at e. */
  predicate FirstEndsAt(s: string, lit: string, e: int)
  {
    var p := Search(s, lit);
    p.Some? && p.value + |lit| == e
  }

  /**
   * The TemplateMatch loop from a pattern position: each literal must occur
   * in what is left of the string (at its very start while anchored), and
   * matching goes on after its first occurrence; a '*' drops the anchor,
   * a '$' ends the match and needs the end of the string unless a '*' came
   * just before it.
   */
  function Walk(t: string, s: string, start: bool, asterisk: bool): bool
    decreases |t|
  {
    if t == [] then true
    else if t[0] == '*' then Walk(t[1..], s, false, true)
    else if t[0] == '$' then s == [] || asterisk
    else if s == [] then false
    else
      var n := LiteralLen(t);
      var p := Search(s, t[..n]);
      if p.None? || (start && p.value != 0) then false
      else Walk(t[n..], s[p.value + n..], false, false)
  }

  /** TemplateMatch: never on an empty string; a leading '^' anchors the first literal. */
  function TemplateMatch(templ: string, str: string): (r: bool)
    ensures r ==> str != []
  {
    if str == [] then false
    else if templ != [] && templ[0] == '^' then Walk(templ[1..], str, true, false)
    else Walk(templ, str, false, false)
  }

  /** strchr for '*' and for '$', and the nearer of the two: the end of the first literal. */
  lemma NearerSpecial(t: string, star: Option<nat>, dollar: Option<nat>, tpos: Option<nat>)
    requires star == IndexOf(t, '*') && dollar == IndexOf(t, '$')
    requires tpos == if star.None? || (dollar.Some? && dollar.value < star.value) then dollar else star
    ensures tpos.Some? ==> tpos.value == LiteralLen(t)
    ensures tpos.None? ==> LiteralLen(t) == |t|
  {
    var n := LiteralLen(t);
    if n < |t| {
      assert t[n] in t;
    }
  }

  /** One literal of the loop: find its first occurrence and go on after it. */
  lemma LiteralStep(t: string, s: string, start: bool, asterisk: bool)
    requires t != [] && !Special(t[0]) && s != []
    ensures var n := LiteralLen(t); var p := Search(s, t[..n]);
      0 < n && Walk(t, s, start, asterisk) ==
        if p.None? || (start && p.value != 0) then false else Walk(t[n..], s[p.value + n..], false, false)
  {
  }

  /**
   * TemplateMatch as the loop walks it: the pattern and the string as
   * suffixes, the literal before the nearer '*' or '$', and strstr for its
   * first occurrence.
   */
  method TemplateMatchLoop(templ: string, str: string) returns (matched: bool)
    ensures matched == TemplateMatch(templ, str)
  {
    if str == [] {
      return false;
    }
    var t, s := templ, str;
    var start := false;
    if t != [] && t[0] == '^' {
      start := true;
      t := t[1..];
    }
    var asterisk := false;
    while t != []
      invariant Walk(t, s, start, asterisk) == TemplateMatch(templ, str)
      decreases |t|
    {
      if t[0] == '*' {
        t := t[1..];
        start := false;
        asterisk := true;
        continue;
      }
      if t[0] == '$' {
        return s == [] || asterisk;
      }
      if s == [] {
        return false;
      }
      var star := IndexOf(t, '*');
      var dollar := IndexOf(t, '$');
      var tpos := star;
      if star.None? || (dollar.Some? && dollar.value < star.value) {
        tpos := dollar;
      }
      NearerSpecial(t, star, dollar, tpos);
      var lit := if tpos.Some? then t[..tpos.value] else t;
      var rest := if tpos.Some? then t[tpos.value..] else [];
      LiteralStep(t, s, start, asterisk);
      assert lit == t[..LiteralLen(t)] && rest == t[LiteralLen(t)..];
      var spos := Search(s, lit);
      if spos.None? {
        return false;
      }
      if start && spos.value != 0 {
        return false;
      }
      s := s[spos.value + |lit|..];
      t := rest;
      start := false;
      asterisk := false;
    }
    return true;
  }

  /** An empty string matches no pattern. */
  lemma EmptyNeverMatches(templ: string)
    ensures !TemplateMatch(templ, [])
  {
  }

  /** Walking a literal that is followed by '*' or '$': its first occurrence decides. */
  lemma WalkLiteral(lit: string, c: char, rest: string, s: string, start: bool, asterisk: bool)
    requires Plain(lit) && lit != [] && Special(c) && s != []
    ensures var p := Search(s, lit);
      Walk(lit + [c] + rest, s, start, asterisk) ==
        if p.None? || (start && p.value != 0) then false else Walk([c] + rest, s[p.value + |lit|..], false, false)
  {
    var t := lit + [c] + rest;
    var n := LiteralLen(t);
    assert t[|lit|] == c;
    assert forall i :: 0 <= i < |lit| ==> t[i] == lit[i];
    assert n == |lit|;
    assert t[..n] == lit && t[n..] == [c] + rest;
  }

  /** Walking a whole literal: it matches iff it occurs, and the anchor asks for position 0. */
  lemma WalkPlain(lit: string, s: string, start: bool, asterisk: bool)
    requires Plain(lit) && lit != [] && s != []
    ensures var p := Search(s, lit);
      Walk(lit, s, start, asterisk) == (p.Some? && (!start || p.value == 0))
  {
    var n := LiteralLen(lit);
    assert n == |lit|;
    assert lit[..n] == lit && lit[n..] == [];
  }

  /** The first occurrence is at 0 exactly when s starts with the literal. */
  lemma FirstAtStart(s: string, a: string)
    ensures Search(s, a) == Some(0) <==> |a| <= |s| && s[..|a|] == a
  {
    if |a| <= |s| && s[..|a|] == a {
      assert s[0..|a|] == s[..|a|];
      assert OccursAt(s, a, 0);
    }
    if Search(s, a) == Some(0) {
      assert s[0..|a|] == s[..|a|];
    }
  }

  /** A pattern without '^', '*' or '$' matches exactly the non-empty strings it occurs in. */
  lemma PlainIsSubstring(lit: string, s: string)
    requires Plain(lit) && (lit == [] || lit[0] != '^')
    ensures TemplateMatch(lit, s) <==> s != [] && exists j: nat :: OccursAt(s, lit, j)
  {
    if lit == [] {
      assert s != [] ==> OccursAt(s, lit, 0);
    } else if s != [] {
      WalkPlain(lit, s, false, false);
      var p := Search(s, lit);
      if p.Some? {
        assert OccursAt(s, lit, p.value);
      }
    }
  }

  /** "^lit" matches exactly the strings that start with lit. */
  lemma AnchoredLiteral(lit: string, s: string)
    requires Plain(lit) && lit != []
    ensures TemplateMatch(['^'] + lit, s) <==> |lit| <= |s| && s[..|lit|] == lit
  {
    assert (['^'] + lit)[1..] == lit;
    FirstAtStart(s, lit);
    if s != [] {
      WalkPlain(lit, s, true, false);
    }
  }

  /**
   * "lit$" matches exactly the strings whose FIRST occurrence of lit ends
   * them: strstr is not retried, so "ab$" misses "abab".
   */
  lemma DollarNeedsFirstAtEnd(lit: string, s: string)
    requires Plain(lit) && lit != [] && lit[0] != '^'
    ensures TemplateMatch(lit + "$", s) <==> s != [] && FirstEndsAt(s, lit, |s|)
  {
    assert lit + "$" == lit + ['$'] + [];
    assert (lit + "$")[0] == lit[0];
    if s != [] {
      WalkLiteral(lit, '$', [], s, false, false);
    }
  }

  /** "ab$" does not match "abab", although "abab" ends in "ab". */
  lemma DollarMissesLaterOccurrence()
    ensures !TemplateMatch("ab$", "abab") && "abab"[2..] == "ab"
  {
    DollarNeedsFirstAtEnd("ab", "abab");
    FirstAtStart("abab", "ab");
    assert "abab"[..2] == "ab";
  }

  /** A '$' right after a '*' accepts whatever is left. */
  lemma StarDollarAcceptsRest(rest: string, s: string, start: bool, asterisk: bool)
    ensures Walk("*$" + rest, s, start, asterisk)
  {
    var t := "*$" + rest;
    assert t[1..] == "$" + rest;
  }

  /** A leading '^' anchors the walk of the rest. */
  lemma Anchored(u: string, s: string)
    ensures TemplateMatch(['^'] + u, s) == (s != [] && Walk(u, s, true, false))
  {
    assert (['^'] + u)[1..] == u;
  }

  /** "^a*b$": s starts with a, and the first b after it ends s. */
  lemma AnchoredStarDollar(a: string, b: string, s: string)
    requires Plain(a) && Plain(b) && a != [] && b != []
    ensures TemplateMatch(['^'] + a + ['*'] + b + ['$'], s) <==>
      |a| <= |s| && s[..|a|] == a && FirstEndsAt(s[|a|..], b, |s| - |a|)
  {
    var u := a + ['*'] + (b + ['$'] + []);
    assert ['^'] + a + ['*'] + b + ['$'] == ['^'] + u;
    Anchored(u, s);
    if s != [] {
      AnchoredStarDollarWalk(a, b, s);
    } else {
      FirstAtStart(s, a);
    }
  }

  /** The walk behind "^a*b$". */
  lemma AnchoredStarDollarWalk(a: string, b: string, s: string)
    requires Plain(a) && Plain(b) && a != [] && b != [] && s != []
    ensures Walk(a + ['*'] + (b + ['$'] + []), s, true, false) <==>
      |a| <= |s| && s[..|a|] == a && FirstEndsAt(s[|a|..], b, |s| - |a|)
  {
    if |a| <= |s| && s[..|a|] == a {
      var rest := s[|a|..];
      AnchoredHead(a, b + ['$'] + [], s);
      StarThenLiteral(b, rest);
    } else {
      AnchoredHeadMissing(a, b + ['$'] + [], s);
    }
  }

  /** An anchored literal at the start of s is consumed. */
  lemma AnchoredHead(a: string, v: string, s: string)
    requires Plain(a) && a != [] && |a| <= |s| && s[..|a|] == a
    ensures Walk(a + ['*'] + v, s, true, false) == Walk(['*'] + v, s[|a|..], false, false)
  {
    FirstAtStart(s, a);
    var p := Search(s, a);
    assert p == Some(0);
    WalkLiteral(a, '*', v, s, true, false);
    assert s[p.value + |a|..] == s[|a|..];
  }

  /** An anchored literal that does not start s fails the match. */
  lemma AnchoredHeadMissing(a: string, v: string, s: string)
    requires Plain(a) && a != [] && s != [] && !(|a| <= |s| && s[..|a|] == a)
    ensures !Walk(a + ['*'] + v, s, true, false)
  {
    FirstAtStart(s, a);
    WalkLiteral(a, '*', v, s, true, false);
  }

  /** "*b$" with the anchor gone: the first b must end the string. */
  lemma StarThenLiteral(b: string, s: string)
    requires Plain(b) && b != []
    ensures Walk(['*'] + (b + ['$'] + []), s, false, false) <==> FirstEndsAt(s, b, |s|)
  {
    var v := b + ['$'] + [];
    assert (['*'] + v)[1..] == v;
    if s != [] {
      WalkLiteral(b, '$', [], s, false, true);
    }
  }

  /** The pattern of the embedded suppression "leak:^leak*Supp$". */
  lemma LeakSuppPattern(s: string)
    ensures TemplateMatch("^leak*Supp$", s) <==>
      |s| >= 4 && s[..4] == "leak" && FirstEndsAt(s[4..], "Supp", |s| - 4)
  {
    var a, b := "leak", "Supp";
    assert ['^'] + a + ['*'] + b + ['$'] == "^leak*Supp$";
    AnchoredStarDollar(a, b, s);
  }

  /** It hides "leakFooSupp"... */
  lemma LeakSuppMatches()
    ensures TemplateMatch("^leak*Supp$", "leakFooSupp")
  {
    LeakSuppPattern("leakFooSupp");
    FooSuppSearch();
    assert "leakFooSupp"[..4] == "leak" && "leakFooSupp"[4..] == "FooSupp";
  }

  /** ... but neither "leak" nor "leakFoo", which do not end in "Supp". */
  lemma LeakSuppMisses()
    ensures !TemplateMatch("^leak*Supp$", "leak")
    ensures !TemplateMatch("^leak*Supp$", "leakFoo")
  {
    LeakSuppPattern("leak");
    LeakSuppPattern("leakFoo");
    assert "leak"[4..] == [] && "leakFoo"[4..] == "Foo";
  }

  lemma FooSuppSearch()
    ensures Search("FooSupp", "Supp") == Some(3)
  {
    var s := "FooSupp";
    assert s[0..4][0] == 'F' && s[1..5][0] == 'o' && s[2..6][0] == 'o';
    assert s[3..7] == "Supp";
    assert OccursAt(s, "Supp", 3);
  }

  /** matchesSuppression: equal text, or a wildcard match of the C strings. */
  function MatchesSuppression(suppression: string, haystack: string): (r: bool)
    ensures suppression == haystack ==> r
    ensures r && haystack != suppression ==> CStr(haystack) != []
  {
    suppression == haystack || TemplateMatch(CStr(suppression), CStr(haystack))
  }

  /** The empty pattern matches every non-empty symbol, which is why parsing drops it. */
  lemma EmptyPatternMatchesAll(haystack: string)
    requires CStr(haystack) != []
    ensures MatchesSuppression([], haystack)
  {
  }

  /** A suppression with how often it matched and how many bytes it hid. */
  datatype Suppression = Suppression(pattern: string, matches: int, leaked: int)

  /** builtinSuppressions: eight plain patterns from libc, the dynamic linker and glib, with zero counts. */
  function BuiltinSuppressions(): (r: seq<Suppression>)
    ensures |r| == 8
    ensures forall i :: 0 <= i < |r| ==> r[i].matches == 0 && r[i].leaked == 0 && r[i].pattern != []
    ensures r[5] == r[6]
  {
    [Suppression("__nss_module_allocate", 0, 0),
     Suppression("__gconv_read_conf", 0, 0),
     Suppression("__new_exitfn", 0, 0),
     Suppression("tzset_internal", 0, 0),
     Suppression("dl_open_worker", 0, 0),
     Suppression("g_main_context_new", 0, 0),
     Suppression("g_main_context_new", 0, 0),
     Suppression("g_thread_self", 0, 0)]
  }

  /** A string without '*' and '$' is a literal. */
  lemma PlainOfNoSpecial(p: string)
    requires '*' !in p && '$' !in p
    ensures Plain(p)
  {
    forall i | 0 <= i < |p| ensures !Special(p[i]) {
      assert p[i] in p;
    }
  }

  /** The built-in patterns hold neither a wildcard nor an anchor. */
  lemma BuiltinPatternsPlain()
    ensures Plain("__nss_module_allocate") && Plain("__gconv_read_conf") && Plain("__new_exitfn")
    ensures Plain("tzset_internal") && Plain("dl_open_worker") && Plain("g_main_context_new")
    ensures Plain("g_thread_self")
  {
  }

  /** Each built-in pattern is a plain literal, so it hides exactly the symbols that contain it. */
  lemma BuiltinArePlain(i: nat, s: string)
    requires i < 8
    ensures Plain(BuiltinSuppressions()[i].pattern) && BuiltinSuppressions()[i].pattern[0] != '^'
    ensures TemplateMatch(BuiltinSuppressions()[i].pattern, s) <==>
      s != [] && exists j: nat :: OccursAt(s, BuiltinSuppressions()[i].pattern, j)
  {
    var p := BuiltinSuppressions()[i].pattern;
    BuiltinPatternsPlain();
    assert Plain(p) && p[0] != '^' by {
      if i == 0 {
        assert p == "__nss_module_allocate";
      } else if i == 1 {
        assert p == "__gconv_read_conf";
      } else if i == 2 {
        assert p == "__new_exitfn";
      } else if i == 3 {
        assert p == "tzset_internal";
      } else if i == 4 {
        assert p == "dl_open_worker";
      } else if i < 7 {
        assert p == "g_main_context_new";
      } else {
        assert p == "g_thread_self";
      }
    }
    PlainIsSubstring(p, s);
  }
}
