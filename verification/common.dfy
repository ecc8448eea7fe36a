/**
 * Shared vocabulary of the heaptrack model: optional values, bytes, and the
 * lower-case hexadecimal and decimal renderings every trace line is made of.
 */
module Common {

  datatype Option<T> = None | Some(value: T)

  function GetOr<T>(o: Option<T>, default: T): T
  {
    match o
    case Some(v) => v
    case None => default
  }

  /** 2^64 and 2^32: the ranges of uint64_t and uint32_t. */
  const UINT64_LIMIT: nat := 0x1_0000_0000_0000_0000
  const UINT32_LIMIT: nat := 0x1_0000_0000

  type byte = x: nat | x < 256

  predicate IsLowerHexDigit(c: char)
  {
    '0' <= c <= '9' || 'a' <= c <= 'f'
  }

  /** The digit table "0123456789abcdef". */
  function HexDigit(d: nat): (c: char)
    requires d < 16
    ensures IsLowerHexDigit(c)
  {
    if d < 10 then ('0' as int + d) as char else ('a' as int + d - 10) as char
  }

  function DigitValue(c: char): (d: nat)
    requires IsLowerHexDigit(c)
    ensures d < 16 && HexDigit(d) == c
  {
    if c <= '9' then c as int - '0' as int else c as int - 'a' as int + 10
  }

  lemma DigitValueOfHexDigit(d: nat)
    requires d < 16
    ensures DigitValue(HexDigit(d)) == d
  {
  }

  predicate AllLowerHex(s: string)
  {
    forall i :: 0 <= i < |s| ==> IsLowerHexDigit(s[i])
  }

  /**
   * Lower-case hexadecimal without prefix and without leading zeros; zero is "0".
   * This is the rendering of printf's "%x" and of LineWriter::writeHexNumber.
   */
  function Hex(n: nat): (s: string)
    ensures 1 <= |s| && AllLowerHex(s)
    ensures |s| > 1 ==> s[0] != '0'
    decreases n
  {
    if n < 16 then [HexDigit(n)] else Hex(n / 16) + [HexDigit(n % 16)]
  }

  /** The value of a string of lower-case hex digits, most significant first. */
  function HexValue(s: string): nat
    requires AllLowerHex(s)
  {
    if s == [] then 0 else HexValue(s[..|s| - 1]) * 16 + DigitValue(s[|s| - 1])
  }

  lemma {:induction false} HexValueOfHex(n: nat)
    ensures HexValue(Hex(n)) == n
    decreases n
  {
    if n >= 16 {
      HexValueOfHex(n / 16);
      var s := Hex(n);
      assert s[..|s| - 1] == Hex(n / 16);
      DigitValueOfHexDigit(n % 16);
    } else {
      DigitValueOfHexDigit(n);
    }
  }

  /** Number of significant bits: 64 minus the leading zero count of a 64-bit value. */
  function BitLength(n: nat): (b: nat)
    ensures n == 0 <==> b == 0
  {
    if n == 0 then 0 else 1 + BitLength(n / 2)
  }

  /**
   * The digit count the hex writer reserves, max(1, (usedBits + 3) / 4), is
   * exactly the length of the hex rendering.
   */
  lemma {:induction false} HexLengthFromBits(n: nat)
    ensures |Hex(n)| == if BitLength(n) == 0 then 1 else (BitLength(n) + 3) / 4
    decreases n
  {
    if n >= 16 {
      HexLengthFromBits(n / 16);
      var half, quarter, eighth := n / 2, n / 4, n / 8;
      assert quarter == half / 2 && eighth == quarter / 2 && n / 16 == eighth / 2;
      assert BitLength(n) == 1 + BitLength(half);
      assert BitLength(half) == 1 + BitLength(quarter);
      assert BitLength(quarter) == 1 + BitLength(eighth);
      assert BitLength(eighth) == 1 + BitLength(n / 16);
    } else {
      BitLengthOfDigit(n);
    }
  }

  /** A single hex digit uses at most four bits. */
  lemma BitLengthOfDigit(n: nat)
    requires n < 16
    ensures BitLength(n) <= 4
  {
    var half, quarter, eighth := n / 2, n / 4, n / 8;
    assert quarter == half / 2 && eighth == quarter / 2 && eighth / 2 == 0;
    assert BitLength(eighth) <= 1;
    assert BitLength(quarter) <= 2;
    assert BitLength(half) <= 3;
  }

  function Pow16(k: nat): (p: nat)
    ensures p >= 1
  {
    if k == 0 then 1 else 16 * Pow16(k - 1)
  }

  /** A value below 16^k has at most k hex digits (and always at least one). */
  lemma {:induction false} HexLengthBelow(n: nat, k: nat)
    requires n < Pow16(k)
    ensures |Hex(n)| <= if k == 0 then 1 else k
    decreases k
  {
    if n >= 16 {
      assert k >= 2;
      HexLengthBelow(n / 16, k - 1);
    }
  }

  /** A 64-bit value has at most 16 hex digits (2^64 == 16^16). */
  lemma HexLengthBound(n: nat)
    requires n < UINT64_LIMIT
    ensures |Hex(n)| <= 16
  {
    assert Pow16(4) == 0x1_0000 by {
      assert Pow16(1) == 16 && Pow16(2) == 0x100 && Pow16(3) == 0x1000;
    }
    assert Pow16(8) == 0x1_0000_0000 by {
      assert Pow16(5) == 0x10_0000 && Pow16(6) == 0x100_0000 && Pow16(7) == 0x1000_0000;
    }
    assert Pow16(12) == 0x1_0000_0000_0000 by {
      assert Pow16(9) == 0x10_0000_0000 && Pow16(10) == 0x100_0000_0000 && Pow16(11) == 0x1000_0000_0000;
    }
    assert Pow16(16) == UINT64_LIMIT by {
      assert Pow16(13) == 0x10_0000_0000_0000 && Pow16(14) == 0x100_0000_0000_0000;
      assert Pow16(15) == 0x1000_0000_0000_0000;
    }
    HexLengthBelow(n, 16);
  }

  /** Decimal rendering of a natural number ("%d", QString::number). */
  function Dec(n: nat): (s: string)
    ensures 1 <= |s| && forall i :: 0 <= i < |s| ==> '0' <= s[i] <= '9'
    decreases n
  {
    if n < 10 then [('0' as int + n) as char] else Dec(n / 10) + [('0' as int + n % 10) as char]
  }

  /** Decimal rendering of a signed integer, with a leading '-' for negatives. */
  function SignedDec(n: int): (s: string)
    ensures 1 <= |s|
  {
    if n < 0 then "-" + Dec(-n) else Dec(n)
  }

  /** Python's "%x" on a possibly negative integer. */
  function SignedHex(n: int): (s: string)
    ensures 1 <= |s|
  {
    if n < 0 then "-" + Hex(-n) else Hex(n)
  }

  /** Depth change over s: one up per '<', one down per '>'. */
  function Net(s: string): int
  {
    if s == [] then 0
    else Net(s[..|s| - 1]) + (if s[|s| - 1] == '<' then 1 else if s[|s| - 1] == '>' then -1 else 0)
  }

  /** A bracket body: no prefix closes more than it opened, and the whole closes all it opened. */
  predicate Nested(s: string)
  {
    Net(s) == 0 && forall k :: 0 <= k <= |s| ==> Net(s[..k]) >= 0
  }

  /** Concatenation regroups freely. */
  lemma AppendAssoc<T>(a: seq<T>, b: seq<T>, c: seq<T>)
    ensures a + b + c == a + (b + c)
  {
  }
}
