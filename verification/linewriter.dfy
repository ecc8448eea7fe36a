/**
 * LineWriter: the buffered, signal-safe writer of heaptrack's text format.
 * Lines are assembled in a fixed buffer of PIPE_BUF characters and handed to
 * the file descriptor by flush. The descriptor is modelled by the sequence of
 * characters written to it so far, and the outcome of each ::write call is a
 * parameter of the operation that issues it.
 */
module LineWriter {
  import opened Common

  /** BUFFER_CAPACITY = PIPE_BUF (4096 on Linux). */
  const BUFFER_CAPACITY: nat := 4096

  /** The descriptor value of a closed writer. */
  const CLOSED: int := -1

  /** The values written as "h1 h2 ... hk " – each followed by one space. */
  function HexTerms(values: seq<nat>): (s: string)
    decreases |values|
  {
    if values == [] then [] else HexTerms(values[..|values| - 1]) + Hex(values[|values| - 1]) + [' ']
  }

  /** The text of writeHexLine(type, v1, ..., vn): "type v1 ... vn\n" in lower-case hex. */
  function HexLine(kind: char, values: seq<nat>): (s: string)
    requires |values| >= 1
  {
    [kind, ' '] + HexTerms(values[..|values| - 1]) + (Hex(values[|values| - 1]) + ['\n'])
  }

  /** totalMaxChars: the worst-case line for n arguments of up to 64 bits. */
  function MaxLineChars(n: nat): nat
  {
    2 + n * 16 + n + 2
  }

  predicate AllU64(values: seq<nat>)
  {
    forall i :: 0 <= i < |values| ==> values[i] < UINT64_LIMIT
  }

  lemma {:induction false} HexTermsLength(values: seq<nat>)
    requires AllU64(values)
    ensures |HexTerms(values)| <= 17 * |values|
    decreases |values|
  {
    if values != [] {
      HexTermsLength(values[..|values| - 1]);
      HexLengthBound(values[|values| - 1]);
    }
  }

  /** A hex line of 64-bit values never exceeds the worst case reserved for it. */
  lemma HexLineFits(kind: char, values: seq<nat>)
    requires |values| >= 1 && AllU64(values)
    ensures |HexLine(kind, values)| <= MaxLineChars(|values|)
  {
    HexTermsLength(values[..|values| - 1]);
    HexLengthBound(values[|values| - 1]);
  }

  /**
   * writeHexNumber: the digits of `value` written backwards into
   * buf[pos .. pos + requiredBufSize], where requiredBufSize is
   * max(1, (usedBits + 3) / 4) and usedBits = numBits - clz(value); the
   * result is the position after the last digit.
   */
  /**
   * requiredBufSize = max(1, (usedBits + 3) / 4), with usedBits = numBits -
   * clz(value): exactly the number of hex digits of the value, at most 16.
   */
  function RequiredBufSize(value: nat): (n: nat)
    requires value < UINT64_LIMIT
    ensures n == |Hex(value)| && 1 <= n <= 16
  {
    HexLengthBound(value);
    HexLengthFromBits(value);
    var usedBits := BitLength(value);
    if (usedBits + 3) / 4 < 1 then 1 else (usedBits + 3) / 4
  }

  /** The last hex digit of v is its remainder by 16, the others are the digits of v / 16. */
  lemma HexStep(v: nat)
    requires v >= 16
    ensures Hex(v) == Hex(v / 16) + [HexDigit(v % 16)] && |Hex(v / 16)| == |Hex(v)| - 1
  {
  }

  method WriteHexNumber(buf: array<char>, pos: nat, value: nat, ghost before: string) returns (end: nat)
    requires value < UINT64_LIMIT && pos + 16 <= buf.Length && buf[..pos] == before
    modifies buf
    ensures end == pos + RequiredBufSize(value) && buf[..end] == before + Hex(value)
  {
    end := pos + RequiredBufSize(value);
    ghost var digits := Hex(value);
    var out := end - 1;
    var v := value;
    while v >= 16
      invariant pos <= out < end && Hex(v) == digits[..out - pos + 1]
      invariant forall j :: out < j < end ==> buf[j] == digits[j - pos]
      invariant buf[..pos] == before
      decreases v
    {
      HexStep(v);
      var rest := v % 16;
      v := v / 16;
      buf[out] := HexDigit(rest);
      out := out - 1;
    }
    buf[out] := HexDigit(v);
    assert buf[..end] == before + digits;
  }

  /** One number of writeHexNumbers followed by its separator: a space, or the closing newline. */
  method WriteHexField(buf: array<char>, pos: nat, value: nat, sep: char, ghost before: string) returns (end: nat)
    requires value < UINT64_LIMIT && pos + 17 <= buf.Length && buf[..pos] == before
    modifies buf
    ensures pos < end <= pos + 17 && buf[..end] == before + (Hex(value) + [sep])
  {
    var mid := WriteHexNumber(buf, pos, value, before);
    buf[mid] := sep;
    end := mid + 1;
    assert buf[..end] == buf[..mid] + [sep];
  }

  /** writeHexNumbers for all but the last number: each is followed by a space. */
  method WriteHexTerms(buf: array<char>, pos: nat, values: seq<nat>, ghost before: string) returns (end: nat)
    requires AllU64(values) && pos + 17 * |values| <= buf.Length && buf[..pos] == before
    modifies buf
    ensures pos <= end <= pos + 17 * |values| && buf[..end] == before + HexTerms(values)
  {
    end := pos;
    var k := 0;
    while k < |values|
      invariant 0 <= k <= |values| && pos <= end <= pos + 17 * k
      invariant buf[..end] == before + HexTerms(values[..k])
    {
      ghost var terms := HexTerms(values[..k]);
      end := WriteHexField(buf, end, values[k], ' ', before + terms);
      assert values[..k + 1][..k] == values[..k];
      assert HexTerms(values[..k + 1]) == terms + (Hex(values[k]) + [' ']);
      k := k + 1;
    }
    assert values[..k] == values;
  }

  /**
   * The body of writeHexLine after the space check: the type character, a
   * space, the numbers separated by spaces (writeHexNumbers) and a newline,
   * written into buf from `pos`; the result is the position after the line.
   */
  method WriteLine(buf: array<char>, pos: nat, kind: char, values: seq<nat>) returns (end: nat)
    requires |values| >= 1 && AllU64(values) && pos + MaxLineChars(|values|) <= buf.Length
    modifies buf
    ensures pos <= end <= buf.Length && buf[..end] == old(buf[..pos]) + HexLine(kind, values)
  {
    ghost var before := buf[..pos];
    var n := |values| - 1;
    buf[pos] := kind;
    buf[pos + 1] := ' ';
    assert buf[..pos + 2] == before + [kind, ' '];
    end := WriteHexTerms(buf, pos + 2, values[..n], before + [kind, ' ']);
    ghost var terms := HexTerms(values[..n]);
    end := WriteHexField(buf, end, values[n], '\n', before + [kind, ' '] + terms);
    AppendAssoc(before, [kind, ' '] + terms, Hex(values[n]) + ['\n']);
  }

  class LineWriter {
    /** The file descriptor; CLOSED once closed. */
    var fd: int
    /** Number of characters pending in the buffer. */
    var bufferSize: nat
    const buffer: array<char>
    /** Everything handed to the descriptor so far. */
    var file: string

    ghost predicate Valid()
      reads this
    {
      buffer.Length == BUFFER_CAPACITY && bufferSize <= BUFFER_CAPACITY
    }

    /** What the writer has produced: the descriptor's contents, then the pending buffer. */
    ghost function Output(): string
      reads this, buffer
      requires Valid()
    {
      file + buffer[..bufferSize]
    }

    constructor(fd: int)
      ensures Valid() && fresh(buffer) && this.fd == fd && bufferSize == 0 && file == []
      ensures Output() == []
    {
      this.fd := fd;
      bufferSize := 0;
      buffer := new char[BUFFER_CAPACITY](_ => '\0');
      file := [];
    }

    function AvailableSpace(): (n: nat)
      reads this
      requires Valid()
      ensures bufferSize + n == BUFFER_CAPACITY
    {
      BUFFER_CAPACITY - bufferSize
    }

    function CanWrite(): (b: bool)
      reads this
      ensures b <==> fd != CLOSED
    {
      fd != CLOSED
    }

    /** close(): the descriptor is released; pending characters stay in the buffer. */
    method Close()
      requires Valid()
      modifies this
      ensures Valid() && fd == CLOSED && bufferSize == old(bufferSize) && file == old(file)
      ensures Output() == old(Output())
    {
      if fd != CLOSED {
        fd := CLOSED;
      }
    }

    /**
     * flush(): hands the pending characters to the descriptor. `written` is
     * whether the ::write call succeeds. A closed writer fails, an empty
     * buffer succeeds without a write, and only a success empties the buffer.
     */
    method Flush(written: bool) returns (ok: bool)
      requires Valid()
      modifies this
      ensures Valid() && fd == old(fd) && Output() == old(Output())
      ensures ok <==> old(fd) != CLOSED && (old(bufferSize) == 0 || written)
      ensures ok ==> bufferSize == 0 && file == old(file) + old(buffer[..bufferSize])
      ensures !ok ==> bufferSize == old(bufferSize) && file == old(file)
    {
      if !CanWrite() {
        return false;
      } else if bufferSize == 0 {
        return true;
      }
      if !written {
        return false;
      }
      file := file + buffer[..bufferSize];
      bufferSize := 0;
      ok := true;
    }

    /**
     * write(std::string): appended to the buffer when it fits; otherwise the
     * buffer is flushed first, and a line longer than the whole buffer goes
     * straight to the descriptor. `flushed` and `direct` are the outcomes of
     * the two ::write calls that may be issued.
     */
    method WriteString(line: string, flushed: bool, direct: bool) returns (ok: bool)
      requires Valid()
      modifies this, buffer
      ensures Valid() && fd == old(fd)
      ensures ok ==> Output() == old(Output()) + line
      ensures !ok ==> Output() == old(Output())
      ensures ok <==> (|line| <= old(AvailableSpace()) ||
        (old(fd) != CLOSED && (old(bufferSize) == 0 || flushed) && (|line| <= BUFFER_CAPACITY || direct)))
    {
      if AvailableSpace() < |line| {
        ok := Flush(flushed);
        if !ok {
          return;
        }
        if AvailableSpace() < |line| {
          if direct {
            file := file + line;
          }
          return direct;
        }
      }
      Append(line);
      ok := true;
    }

    /** memcpy(out(), line, length); bufferSize += length. */
    method Append(line: string)
      requires Valid() && |line| <= AvailableSpace()
      modifies this, buffer
      ensures Valid() && fd == old(fd) && file == old(file)
      ensures bufferSize == old(bufferSize) + |line|
      ensures Output() == old(Output()) + line
    {
      forall i | 0 <= i < |line| {
        buffer[bufferSize + i] := line[i];
      }
      assert buffer[..bufferSize + |line|] == old(buffer[..bufferSize]) + line;
      bufferSize := bufferSize + |line|;
    }

    /**
     * writeHexLine(type, v1, ..., vn): flushes first when the worst-case
     * line might not fit, then writes "type v1 ... vn\n".
     */
    method WriteHexLine(kind: char, values: seq<nat>, flushed: bool) returns (ok: bool)
      requires Valid() && |values| >= 1 && AllU64(values)
      requires MaxLineChars(|values|) < BUFFER_CAPACITY
      modifies this, buffer
      ensures Valid() && fd == old(fd)
      ensures ok ==> Output() == old(Output()) + HexLine(kind, values)
      ensures !ok ==> Output() == old(Output())
      ensures ok <==> (MaxLineChars(|values|) <= old(AvailableSpace()) ||
        (old(fd) != CLOSED && (old(bufferSize) == 0 || flushed)))
    {
      if MaxLineChars(|values|) > AvailableSpace() {
        ok := Flush(flushed);
        if !ok {
          return;
        }
      }
      HexLineFits(kind, values);
      Fill(kind, values);
      ok := true;
    }

    /** The unconditional part of writeHexLine: the line is built in the buffer. */
    method Fill(kind: char, values: seq<nat>)
      requires Valid() && |values| >= 1 && AllU64(values)
      requires MaxLineChars(|values|) <= AvailableSpace()
      modifies this, buffer
      ensures Valid() && fd == old(fd) && file == old(file)
      ensures Output() == old(Output()) + HexLine(kind, values)
    {
      var end := WriteLine(buffer, bufferSize, kind, values);
      bufferSize := end;
    }
  }
}
