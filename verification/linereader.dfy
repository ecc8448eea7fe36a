/**
 * LineReader: the hand-written parser of heaptrack's line format. A line is
 * taken from the input stream, its first character is the mode, and the
 * fields after "x " are consumed by a cursor: hex numbers, space-delimited
 * tokens, or (from file format version 3 on) strings prefixed by their size.
 */
module LineReader {
  import opened Common
  import LineWriter

  /** The integer types readHex is instantiated with; arithmetic wraps at their width. */
  datatype Width = U32 | U64

  function Limit(w: Width): (m: nat)
    ensures m == UINT32_LIMIT || m == UINT64_LIMIT
  {
    match w
    case U32 => UINT32_LIMIT
    case U64 => UINT64_LIMIT
  }

  /** The result of one read: the value if the read succeeded, and where the cursor is afterwards. */
  datatype Parsed<T> = Parsed(value: Option<T>, next: nat)

  /** Length of the first line of s: the position of the first '\n', or |s|. */
  function LineEnd(s: string): (n: nat)
    ensures n <= |s| && (n < |s| ==> s[n] == '\n')
    ensures forall k :: 0 <= k < n ==> s[k] != '\n'
  {
    if s == [] || s[0] == '\n' then 0 else 1 + LineEnd(s[1..])
  }

  /** The end of the run of lower-case hex digits that starts at i. */
  function HexRun(s: string, i: nat): (j: nat)
    requires i <= |s|
    ensures i <= j <= |s| && (j < |s| ==> !IsLowerHexDigit(s[j]))
    ensures forall k :: i <= k < j ==> IsLowerHexDigit(s[k])
    decreases |s| - i
  {
    if i == |s| || !IsLowerHexDigit(s[i]) then i else HexRun(s, i + 1)
  }

  /** The end of the token that starts at i: the next space, or the end of the line. */
  function TokenEnd(s: string, i: nat): (j: nat)
    requires i <= |s|
    ensures i <= j <= |s| && (j < |s| ==> s[j] == ' ')
    ensures forall k :: i <= k < j ==> s[k] != ' '
    decreases |s| - i
  {
    if i == |s| || s[i] == ' ' then i else TokenEnd(s, i + 1)
  }

  /**
   * The value readHex accumulates over the digits s: `hex *= 16; hex += d`
   * on an unsigned integer that wraps at m.
   */
  function WrapHex(s: string, m: nat): (r: nat)
    requires AllLowerHex(s) && m > 0
    ensures r < m
  {
    if s == [] then 0
    else
      AllLowerHexSlice(s, 0, |s| - 1);
      (WrapHex(s[..|s| - 1], m) * 16 % m + DigitValue(s[|s| - 1])) % m
  }

  lemma AllLowerHexSlice(s: string, a: nat, b: nat)
    requires AllLowerHex(s) && a <= b <= |s|
    ensures AllLowerHex(s[a..b])
  {
    var t := s[a..b];
    forall k | 0 <= k < |t| ensures IsLowerHexDigit(t[k]) {
      assert t[k] == s[a + k];
    }
  }

  /** The characters from i up to the end of the hex run form a hex string. */
  lemma HexRunDigits(s: string, i: nat, j: nat)
    requires i <= j <= |s| && j <= HexRun(s, i)
    ensures AllLowerHex(s[i..j])
  {
    var t := s[i..j];
    forall k | 0 <= k < |t| ensures IsLowerHexDigit(t[k]) {
      assert t[k] == s[i + k];
    }
  }

  /** One more digit: the value accumulated over t + [c]. */
  lemma WrapHexSnoc(t: string, c: char, m: nat)
    requires AllLowerHex(t) && IsLowerHexDigit(c) && m > 0
    ensures AllLowerHex(t + [c]) && WrapHex(t + [c], m) == (WrapHex(t, m) * 16 % m + DigitValue(c)) % m
  {
    forall k | 0 <= k < |t + [c]| ensures IsLowerHexDigit((t + [c])[k]) {
      if k < |t| {
        assert (t + [c])[k] == t[k];
      }
    }
    assert (t + [c])[..|t|] == t;
  }

  /**
   * readHex at cursor i: fails at the end of the line or on a character that
   * is neither a hex digit nor a space, leaving the cursor; otherwise the
   * digits up to the next space (or the end) wrapped to the width, with the
   * cursor past that space.
   */
  function ReadHexAt(s: string, i: nat, w: Width): (r: Parsed<nat>)
    requires i <= |s|
    ensures r.value.None? ==> r.next == i
    ensures r.value.Some? ==> r.value.value < Limit(w) && i < r.next <= |s|
  {
    var j := HexRun(s, i);
    if i == |s| || (j < |s| && s[j] != ' ') then Parsed(None, i)
    else
      HexRunDigits(s, i, j);
      Parsed(Some(WrapHex(s[i..j], Limit(w))), if j < |s| then j + 1 else j)
  }

  /**
   * A sized string at cursor i: its size as a 64-bit hex number, then that
   * many characters, then one separator character that is skipped. A size
   * beyond the end of the line fails with the cursor after the size.
   */
  function ReadSizedAt(s: string, i: nat): (r: Parsed<string>)
    requires i <= |s|
    ensures r.next <= |s|
  {
    var size := ReadHexAt(s, i, U64);
    match size.value
    case None => Parsed(None, i)
    case Some(n) =>
      if n > |s| - size.next then Parsed(None, size.next)
      else
        var e := size.next + n;
        Parsed(Some(s[size.next..e]), if e != |s| then e + 1 else e)
  }

  /** An unsized string at cursor i: the non-empty token up to the next space, which is skipped. */
  function ReadTokenAt(s: string, i: nat): (r: Parsed<string>)
    requires i <= |s|
    ensures r.next <= |s|
    ensures r.value.Some? ==> r.value.value != [] && ' ' !in r.value.value
    ensures r.value.None? <==> i == |s| || s[i] == ' '
  {
    var j := TokenEnd(s, i);
    if j == i then Parsed(None, i)
    else Parsed(Some(s[i..j]), if j < |s| then j + 1 else j)
  }

  /** n hex numbers read one after the other from cursor i, and the final cursor. */
  function ReadHexes(s: string, i: nat, n: nat, w: Width): Parsed<seq<nat>>
    requires i <= |s|
    decreases n
  {
    if n == 0 then Parsed(Some([]), i)
    else
      var first := ReadHexAt(s, i, w);
      match first.value
      case None => Parsed(None, first.next)
      case Some(v) =>
        var more := ReadHexes(s, first.next, n - 1, w);
        match more.value
        case None => more
        case Some(vs) => Parsed(Some([v] + vs), more.next)
  }

  /**
   * The digit loop of readHex: from start, accumulate digits until a space or
   * the end of the line; any other character fails.
   */
  method ScanHex(s: string, start: nat, m: nat) returns (ok: bool, hex: nat, j: nat)
    requires start <= |s| && m > 0
    ensures ok <==> HexRun(s, start) == |s| || s[HexRun(s, start)] == ' '
    ensures ok ==> j == HexRun(s, start) && AllLowerHex(s[start..j]) && hex == WrapHex(s[start..j], m)
  {
    j := start;
    hex := 0;
    while j < |s| && s[j] != ' '
      invariant start <= j <= |s| && HexRun(s, start) == HexRun(s, j)
      invariant AllLowerHex(s[start..j]) && hex == WrapHex(s[start..j], m)
      decreases |s| - j
    {
      var c := s[j];
      var d: nat;
      if '0' <= c <= '9' {
        d := c as int - '0' as int;
      } else if 'a' <= c <= 'f' {
        d := c as int - 'a' as int + 10;
      } else {
        return false, 0, j;
      }
      assert s[start..j + 1] == s[start..j] + [c];
      WrapHexSnoc(s[start..j], c, m);
      hex := hex * 16 % m;
      hex := (hex + d) % m;
      j := j + 1;
    }
    ok := true;
  }

  /** The istream a LineReader reads from: the characters not consumed yet, and good(). */
  class InputStream {
    var rest: string
    var good: bool

    constructor(contents: string)
      ensures rest == contents && good
    {
      rest := contents;
      good := true;
    }
  }

  class LineReader {
    var expectSizedStrings: bool
    var line: string
    /** m_it, as a position in the line. */
    var it: nat

    ghost predicate Valid()
      reads this
    {
      it <= |line|
    }

    constructor()
      ensures Valid() && !expectSizedStrings && line == [] && it == 0
    {
      expectSizedStrings := false;
      line := [];
      it := 0;
    }

    method SetExpectedSizedStrings(sized: bool)
      modifies this
      ensures expectSizedStrings == sized && line == old(line) && it == old(it)
    {
      expectSizedStrings := sized;
    }

    /**
     * getLine: fails only if the stream is no longer good; otherwise the next
     * line (without its '\n') becomes current and the cursor skips the mode
     * character and its space, or goes to the end of a line of at most two
     * characters. std::getline clears good() when it reaches the end of the
     * input without a '\n'.
     */
    method GetLine(input: InputStream) returns (ok: bool)
      requires Valid()
      modifies this, input
      ensures Valid() && expectSizedStrings == old(expectSizedStrings)
      ensures ok == old(input.good)
      ensures !ok ==> line == old(line) && it == old(it) && input.rest == old(input.rest) && !input.good
      ensures ok ==> var n := LineEnd(old(input.rest));
        line == old(input.rest)[..n] && it == (if |line| > 2 then 2 else |line|) &&
        (n < |old(input.rest)| ==> input.rest == old(input.rest)[n + 1..] && input.good) &&
        (n == |old(input.rest)| ==> input.rest == [] && !input.good)
    {
      if !input.good {
        return false;
      }
      var n := LineEnd(input.rest);
      line := input.rest[..n];
      if n < |input.rest| {
        input.rest := input.rest[n + 1..];
      } else {
        input.rest := [];
        input.good := false;
      }
      if |line| > 2 {
        it := 2;
      } else {
        it := |line|;
      }
      ok := true;
    }

    /** mode(): '#' (a comment) for an empty line, else its first character. */
    function Mode(): (c: char)
      reads this
      ensures line == [] ==> c == '#'
      ensures line != [] ==> c == line[0]
    {
      if line == [] then '#' else line[0]
    }

    /** readHex into an unsigned integer of width w; `hex *= 16; hex += d` wraps at the width. */
    method ReadHex(w: Width) returns (ok: bool, value: nat)
      requires Valid()
      modifies this
      ensures Valid() && line == old(line) && expectSizedStrings == old(expectSizedStrings)
      ensures ReadHexAt(line, old(it), w) == Parsed(if ok then Some(value) else None, it)
    {
      if it == |line| {
        return false, 0;
      }
      var digits, hex, j := ScanHex(line, it, Limit(w));
      if !digits {
        return false, 0;
      }
      if j < |line| {
        j := j + 1;
      }
      value := hex;
      it := j;
      ok := true;
    }

    /** operator>>(std::string&): a sized string or a space-delimited token, depending on the file version. */
    method ReadString() returns (ok: bool, str: string)
      requires Valid()
      modifies this
      ensures Valid() && line == old(line) && expectSizedStrings == old(expectSizedStrings)
      ensures expectSizedStrings ==> ReadSizedAt(line, old(it)) == Parsed(if ok then Some(str) else None, it)
      ensures !expectSizedStrings ==> ReadTokenAt(line, old(it)) == Parsed(if ok then Some(str) else None, it)
    {
      if expectSizedStrings {
        var start := it;
        var read, size := ReadHex(U64);
        if !read || size > |line| - it {
          return false, [];
        }
        str := line[it..it + size];
        it := it + size;
        if it != |line| {
          it := it + 1;
        }
        return true, str;
      }
      var j := it;
      while j < |line| && line[j] != ' '
        invariant it <= j <= |line| && TokenEnd(line, it) == TokenEnd(line, j)
        decreases |line| - j
      {
        j := j + 1;
      }
      if j != it {
        str := line[it..j];
        if j < |line| && line[j] == ' ' {
          j := j + 1;
        }
        it := j;
        return true, str;
      }
      return false, [];
    }
  }

  /** No line break in s. */
  predicate NoNewline(s: string)
  {
    forall k :: 0 <= k < |s| ==> s[k] != '\n'
  }

  lemma NoNewlineAppend(a: string, b: string)
    requires NoNewline(a) && NoNewline(b)
    ensures NoNewline(a + b)
  {
    forall k | 0 <= k < |a + b| ensures (a + b)[k] != '\n' {
      if k >= |a| {
        assert (a + b)[k] == b[k - |a|];
      }
    }
  }

  lemma NoNewlineInHex(n: nat)
    ensures NoNewline(Hex(n))
  {
    var h := Hex(n);
    forall k | 0 <= k < |h| ensures h[k] != '\n' {
      assert IsLowerHexDigit(h[k]);
    }
  }

  /** The hex fields of a line contain no newline. */
  lemma {:induction false} NoNewlineInTerms(values: seq<nat>)
    ensures NoNewline(LineWriter.HexTerms(values))
    decreases |values|
  {
    if values != [] {
      NoNewlineInTerms(values[..|values| - 1]);
      NoNewlineInHex(values[|values| - 1]);
      NoNewlineAppend(LineWriter.HexTerms(values[..|values| - 1]), Hex(values[|values| - 1]));
      NoNewlineAppend(LineWriter.HexTerms(values[..|values| - 1]) + Hex(values[|values| - 1]), [' ']);
    }
  }

  /** Text without '\n' followed by '\n' and anything: its first line is that text. */
  lemma {:induction false} LineEndAt(body: string, more: string)
    requires NoNewline(body)
    ensures LineEnd(body + ['\n'] + more) == |body|
    decreases |body|
  {
    if body != [] {
      assert (body + ['\n'] + more)[1..] == body[1..] + ['\n'] + more;
      assert body[0] != '\n';
      LineEndAt(body[1..], more);
    }
  }

  /** No wrap-around happens while reading digits whose value fits the width. */
  lemma {:induction false} WrapHexExact(s: string, m: nat)
    requires AllLowerHex(s) && m > 0 && HexValue(s) < m
    ensures WrapHex(s, m) == HexValue(s)
    decreases |s|
  {
    if s != [] {
      var init := s[..|s| - 1];
      AllLowerHexSlice(s, 0, |s| - 1);
      var x, d := HexValue(init), DigitValue(s[|s| - 1]);
      assert HexValue(s) == x * 16 + d;
      assert x < m;
      WrapHexExact(init, m);
      assert WrapHex(s, m) == (x * 16 % m + d) % m;
      ModSmall(x * 16, m);
      ModSmall(x * 16 + d, m);
    }
  }

  lemma ModSmall(a: nat, m: nat)
    requires a < m
    ensures a % m == a
  {
  }

  lemma {:induction false} HexRunTail(s: string, k: nat, e: nat)
    requires k <= e <= |s|
    requires forall j :: k <= j < e ==> IsLowerHexDigit(s[j])
    requires e < |s| ==> !IsLowerHexDigit(s[e])
    ensures HexRun(s, k) == e
    decreases e - k
  {
    if k < e {
      HexRunTail(s, k + 1, e);
    }
  }

  /** readHex inverts writeHexNumber: Hex(v) at i, followed by a space or the end, reads back as v. */
  lemma ReadHexOfHex(s: string, i: nat, v: nat, w: Width)
    requires v < Limit(w) && i + |Hex(v)| <= |s| && s[i..i + |Hex(v)|] == Hex(v)
    requires i + |Hex(v)| == |s| || s[i + |Hex(v)|] == ' '
    ensures ReadHexAt(s, i, w) == Parsed(Some(v), if i + |Hex(v)| == |s| then |s| else i + |Hex(v)| + 1)
  {
    var h := Hex(v);
    var e := i + |h|;
    forall j | i <= j < e ensures IsLowerHexDigit(s[j]) {
      assert s[j] == h[j - i];
    }
    HexRunTail(s, i, e);
    HexValueOfHex(v);
    WrapHexExact(h, Limit(w));
  }

  /** The last field of HexTerms, with its space. */
  lemma TermsBack(values: seq<nat>)
    requires values != []
    ensures LineWriter.HexTerms(values) == LineWriter.HexTerms(values[..|values| - 1]) + (Hex(values[|values| - 1]) + [' '])
  {
  }

  /** The first field of HexTerms, peeled from the front. */
  lemma {:induction false} TermsFront(values: seq<nat>)
    requires values != []
    ensures LineWriter.HexTerms(values) == Hex(values[0]) + [' '] + LineWriter.HexTerms(values[1..])
    decreases |values|
  {
    if |values| > 1 {
      var init, tail := values[..|values| - 1], values[1..];
      var h, mid, l := Hex(values[0]) + [' '], LineWriter.HexTerms(init[1..]), Hex(values[|values| - 1]) + [' '];
      TermsFront(init);
      assert init[0] == values[0];
      TermsBack(values);
      assert init[1..] == tail[..|tail| - 1] && tail[|tail| - 1] == values[|values| - 1];
      TermsBack(tail);
      AppendAssoc(h, mid, l);
    } else {
      assert values[1..] == [];
      assert values[..0] == [];
    }
  }

  /**
   * Reading the fields "h1 ... hk hlast" from cursor i gives the values
   * back, with the cursor at the end of the line.
   */
  lemma {:induction false} ReadTerms(s: string, i: nat, init: seq<nat>, last: nat)
    requires LineWriter.AllU64(init) && last < UINT64_LIMIT
    requires i <= |s| && s[i..] == LineWriter.HexTerms(init) + Hex(last)
    ensures ReadHexes(s, i, |init| + 1, U64) == Parsed(Some(init + [last]), |s|)
    decreases |init|
  {
    if init == [] {
      ReadLast(s, i, last);
      assert init + [last] == [last];
    } else {
      var tail := init[1..];
      var rest := LineWriter.HexTerms(tail) + Hex(last);
      TermsFront(init);
      AppendAssoc(Hex(init[0]) + [' '], LineWriter.HexTerms(tail), Hex(last));
      var next := ReadField(s, i, init[0], rest);
      ReadTerms(s, next, tail, last);
      assert |tail| + 1 == |tail + [last]| && |init| + 1 == |tail + [last]| + 1;
      ReadHexesCons(s, i, init[0], next, tail + [last], |s|);
      assert [init[0]] + (tail + [last]) == init + [last];
    }
  }

  /** A field followed by a space and the rest reads back, leaving the cursor at the rest. */
  lemma ReadField(s: string, i: nat, v: nat, rest: string) returns (next: nat)
    requires v < UINT64_LIMIT && i <= |s| && s[i..] == Hex(v) + [' '] + rest
    ensures next <= |s| && s[next..] == rest && ReadHexAt(s, i, U64) == Parsed(Some(v), next)
  {
    SplitField(s, i, Hex(v), rest);
    ReadHexOfHex(s, i, v, U64);
    next := i + |Hex(v)| + 1;
  }

  /** The last field alone reads back as a one-element sequence. */
  lemma ReadLast(s: string, i: nat, last: nat)
    requires last < UINT64_LIMIT && i <= |s| && s[i..] == LineWriter.HexTerms([]) + Hex(last)
    ensures ReadHexes(s, i, 1, U64) == Parsed(Some([last]), |s|)
  {
    assert LineWriter.HexTerms([]) == [];
    var h := Hex(last);
    assert s[i..] == h;
    assert i + |h| == |s| && s[i..i + |h|] == h;
    ReadHexOfHex(s, i, last, U64);
    assert ReadHexAt(s, i, U64) == Parsed(Some(last), |s|);
    ReadHexesCons(s, i, last, |s|, [], |s|);
    assert [last] + [] == [last];
  }

  /** One successful read followed by n more. */
  lemma ReadHexesCons(s: string, i: nat, v: nat, next: nat, vs: seq<nat>, e: nat)
    requires i <= |s| && ReadHexAt(s, i, U64) == Parsed(Some(v), next)
    requires ReadHexes(s, next, |vs|, U64) == Parsed(Some(vs), e)
    ensures ReadHexes(s, i, |vs| + 1, U64) == Parsed(Some([v] + vs), e)
  {
  }

  /** A field h, its space and the rest, found at position i of s. */
  lemma SplitField(s: string, i: nat, h: string, rest: string)
    requires i <= |s| && s[i..] == h + [' '] + rest
    ensures i + |h| < |s| && s[i..i + |h|] == h && s[i + |h|] == ' ' && s[i + |h| + 1..] == rest
  {
    assert s[i..][..|h|] == h;
    assert s[i..][|h|] == ' ';
    assert s[i..][|h| + 1..] == rest;
  }

  /**
   * A line written by writeHexLine reads back: getLine takes exactly the line
   * without its '\n', the mode is the type character, and readHex, called
   * once per value, returns the values in order and ends at the end of the line.
   */
  lemma HexLineRoundTrip(kind: char, values: seq<nat>, more: string)
    requires |values| >= 1 && LineWriter.AllU64(values) && kind != '\n'
    ensures var text := LineWriter.HexLine(kind, values) + more;
      var n := LineEnd(text);
      n == |LineWriter.HexLine(kind, values)| - 1 && text[n + 1..] == more &&
      text[0] == kind &&
      ReadHexes(text[..n], 2, |values|, U64) == Parsed(Some(values), n)
  {
    var init, last := values[..|values| - 1], values[|values| - 1];
    var fields := LineWriter.HexTerms(init) + Hex(last);
    var body := [kind, ' '] + fields;
    assert LineWriter.HexLine(kind, values) == body + ['\n'];
    NoNewlineInTerms(init);
    NoNewlineInHex(last);
    NoNewlineAppend(LineWriter.HexTerms(init), Hex(last));
    NoNewlineAppend([kind, ' '], fields);
    LineEndAt(body, more);
    var text := body + ['\n'] + more;
    assert text[..|body|] == body;
    assert text[|body| + 1..] == more;
    assert body[2..] == fields;
    ReadTerms(body, 2, init, last);
    assert init + [last] == values;
  }

  /** A sized string "size str" reads back as str, the separator after it skipped. */
  lemma ReadSizedOfSized(s: string, i: nat, str: string)
    requires |str| < UINT64_LIMIT
    requires i + |Hex(|str|)| + 1 + |str| <= |s| && s[i..i + |Hex(|str|)|] == Hex(|str|)
    requires s[i + |Hex(|str|)|] == ' ' && s[i + |Hex(|str|)| + 1..i + |Hex(|str|)| + 1 + |str|] == str
    ensures var e := i + |Hex(|str|)| + 1 + |str|;
      ReadSizedAt(s, i) == Parsed(Some(str), if e == |s| then e else e + 1)
  {
    ReadHexOfHex(s, i, |str|, U64);
  }

  /** A token without spaces followed by a space or the end reads back as itself. */
  lemma ReadTokenOfToken(s: string, i: nat, token: string)
    requires token != [] && ' ' !in token && i + |token| <= |s| && s[i..i + |token|] == token
    requires i + |token| == |s| || s[i + |token|] == ' '
    ensures ReadTokenAt(s, i) == Parsed(Some(token), if i + |token| == |s| then |s| else i + |token| + 1)
  {
    forall j | i <= j < i + |token| ensures s[j] != ' ' {
      assert s[j] == token[j - i];
    }
    TokenEndAt(s, i, i + |token|);
  }

  lemma {:induction false} TokenEndAt(s: string, k: nat, e: nat)
    requires k <= e <= |s|
    requires forall j :: k <= j < e ==> s[j] != ' '
    requires e < |s| ==> s[e] == ' '
    ensures TokenEnd(s, k) == e
    decreases e - k
  {
    if k < e {
      TokenEndAt(s, k + 1, e);
    }
  }
}
