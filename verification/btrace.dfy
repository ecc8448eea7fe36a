/**
 * Btrace: the build-id helpers of heaptrack's libbacktrace glue — a build id
 * of up to 20 bytes written as lower-case hex text and read back from hex
 * text of either case.
 */
module Btrace {
  import opened Common

  /** get_hex_value: the value of a hex digit of either case, or -1. */
  function GetHexValue(ch: char): (v: int)
    ensures -1 <= v < 16
    ensures v >= 0 <==> '0' <= ch <= '9' || 'a' <= ch <= 'f' || 'A' <= ch <= 'F'
  {
    if 'A' <= ch <= 'F' then 10 + (ch as int - 'A' as int)
    else if 'a' <= ch <= 'f' then 10 + (ch as int - 'a' as int)
    else if '0' <= ch <= '9' then ch as int - '0' as int
    else -1
  }

  /** get_hex_value reads back each digit HexDigit writes, and upper case like lower case. */
  lemma GetHexValueOfDigit(d: nat)
    requires d < 16
    ensures GetHexValue(HexDigit(d)) == d
    ensures d >= 10 ==> GetHexValue(('A' as int + d - 10) as char) == d
  {
  }

  /** The character at i of a C string, its terminating NUL past the end. */
  function CharAt(str: string, i: nat): char
  {
    if i < |str| then str[i] else '\0'
  }

  /** The byte spelled by the k-th pair of characters, or -1 if either is not a hex digit. */
  function PairAt(str: string, k: nat): (v: int)
    ensures -1 <= v < 256
  {
    var hi, lo := GetHexValue(CharAt(str, 2 * k)), GetHexValue(CharAt(str, 2 * k + 1));
    if hi < 0 || lo < 0 then -1 else hi * 16 + lo
  }

  /**
   * The bytes btrace_uuid_str_to_uuid reads from pair k on: it stops after
   * 20 bytes, at the end of the string, or at the first pair that is not
   * two hex digits.
   */
  function ParseFrom(str: string, k: nat): (bytes: seq<byte>)
    ensures |bytes| <= if k < 20 then 20 - k else 0
    decreases 20 - k
  {
    if k >= 20 || 2 * k >= |str| || PairAt(str, k) < 0 then []
    else [PairAt(str, k) as byte] + ParseFrom(str, k + 1)
  }

  /**
   * btrace_uuid_str_to_uuid: fills uuid with the bytes read and returns how
   * many there are; the rest of uuid is left alone.
   */
  method UuidStrToUuid(uuid: array<byte>, str: string) returns (len: nat)
    requires uuid.Length == 20 && '\0' !in str
    modifies uuid
    ensures len <= 20 && uuid[..len] == ParseFrom(str, 0)
    ensures uuid[len..] == old(uuid[len..])
  {
    len := 0;
    while len < 20 && len * 2 < |str|
      invariant len <= 20 && uuid[..len] + ParseFrom(str, len) == ParseFrom(str, 0)
      invariant forall j :: len <= j < 20 ==> uuid[j] == old(uuid[j])
    {
      var val0 := GetHexValue(CharAt(str, 2 * len));
      var val1 := GetHexValue(CharAt(str, 2 * len + 1));
      if val0 < 0 || val1 < 0 {
        assert PairAt(str, len) < 0;
        break;
      }
      ghost var done := uuid[..len];
      assert val0 * 16 + val1 == PairAt(str, len);
      ParsedOneMore(str, len, done);
      uuid[len] := val0 * 16 + val1;
      assert uuid[..len + 1] == done + [PairAt(str, len) as byte];
      len := len + 1;
    }
    assert ParseFrom(str, len) == [];
    assert uuid[..len] + [] == uuid[..len];
    assert uuid[len..] == old(uuid[len..]);
  }

  /** Reading pair k extends the bytes read so far by one. */
  lemma ParsedOneMore(str: string, k: nat, done: seq<byte>)
    requires k < 20 && 2 * k < |str| && PairAt(str, k) >= 0
    requires done + ParseFrom(str, k) == ParseFrom(str, 0)
    ensures (done + [PairAt(str, k) as byte]) + ParseFrom(str, k + 1) == ParseFrom(str, 0)
  {
    assert ParseFrom(str, k) == [PairAt(str, k) as byte] + ParseFrom(str, k + 1);
    Regroup(done, PairAt(str, k) as byte, ParseFrom(str, k + 1));
  }

  lemma Regroup<T>(a: seq<T>, x: T, r: seq<T>)
    ensures a + [x] + r == a + ([x] + r)
  {
  }

  /** Two lower-case hex digits per byte, high nibble first. */
  function Encode(bytes: seq<byte>): (s: string)
    ensures |s| == 2 * |bytes|
  {
    seq(2 * |bytes|, i requires 0 <= i < 2 * |bytes| =>
      if i % 2 == 0 then HexDigit(bytes[i / 2] / 16) else HexDigit(bytes[i / 2] % 16))
  }

  lemma EncodePair(bytes: seq<byte>, k: nat)
    requires k < |bytes|
    ensures PairAt(Encode(bytes), k) == bytes[k]
  {
    var s := Encode(bytes);
    assert (2 * k) / 2 == k && (2 * k) % 2 == 0;
    assert (2 * k + 1) / 2 == k && (2 * k + 1) % 2 == 1;
    GetHexValueOfDigit(bytes[k] / 16);
    GetHexValueOfDigit(bytes[k] % 16);
  }

  /** Reading the encoding of a build id from pair k on gives its bytes from k on. */
  lemma {:induction false} ParseEncodeFrom(bytes: seq<byte>, k: nat)
    requires |bytes| <= 20 && k <= |bytes|
    ensures ParseFrom(Encode(bytes), k) == bytes[k..]
    decreases |bytes| - k
  {
    if k < |bytes| {
      EncodePair(bytes, k);
      ParseEncodeFrom(bytes, k + 1);
      assert bytes[k..] == [bytes[k]] + bytes[k + 1..];
    }
  }

  /** A build id of at most 20 bytes written by btrace_uuid_to_str reads back as itself. */
  lemma ParseEncode(bytes: seq<byte>)
    requires |bytes| <= 20
    ensures ParseFrom(Encode(bytes), 0) == bytes
  {
    ParseEncodeFrom(bytes, 0);
  }

  /** The text is cut after 20 bytes. */
  lemma ParseStopsAtTwenty(bytes: seq<byte>)
    requires |bytes| > 20
    ensures ParseFrom(Encode(bytes), 0) == bytes[..20]
  {
    var b := bytes[..20];
    forall k | 0 <= k < 20 ensures PairAt(Encode(bytes), k) == PairAt(Encode(b), k) {
      EncodePair(bytes, k);
      EncodePair(b, k);
    }
    ParseSameUpTo(Encode(bytes), Encode(b), 0);
    ParseEncode(b);
  }

  lemma {:induction false} ParseSameUpTo(s: string, t: string, k: nat)
    requires |s| >= 40 && |t| >= 40
    requires forall j :: 0 <= j < 20 ==> PairAt(s, j) == PairAt(t, j)
    ensures ParseFrom(s, k) == ParseFrom(t, k)
    decreases 20 - k
  {
    if k < 20 {
      ParseSameUpTo(s, t, k + 1);
    }
  }

  /** The number of bytes btrace_uuid_to_str encodes: len clamped to [0, limit]. */
  function Clamp(len: int, limit: nat): (n: nat)
    ensures n <= limit && (0 <= len <= limit ==> n == len)
  {
    if len < 0 then 0 else if len > limit then limit else len
  }

  /** The characters btrace_uuid_to_str as written stores, NUL included: it clamps len to 40. */
  function StoredAsWritten(uuid: seq<byte>, len: int): (s: string)
    requires Clamp(len, 40) <= |uuid|
    ensures |s| == 2 * Clamp(len, 40) + 1
  {
    Encode(uuid[..Clamp(len, 40)]) + ['\0']
  }

  /** With 21 bytes the written text and its NUL need 43 characters, two more than the 41-character buffer. */
  lemma StoredAsWrittenOverflows(uuid: seq<byte>)
    requires |uuid| == 21
    ensures |StoredAsWritten(uuid, 21)| == 43 > 41
  {
  }

  /**
   * btrace_uuid_to_str with the clamp the 41-character buffer needs (20
   * bytes): the hex text of the first len bytes, then a NUL.
   */
  method UuidToStr(uuidStr: array<char>, uuid: seq<byte>, len: int)
    requires uuidStr.Length == 41 && Clamp(len, 20) <= |uuid|
    modifies uuidStr
    ensures var n := Clamp(len, 20);
      uuidStr[..2 * n] == Encode(uuid[..n]) && uuidStr[2 * n] == '\0'
    ensures var n := Clamp(len, 20); uuidStr[2 * n + 1..] == old(uuidStr[2 * n + 1..])
  {
    var n := Clamp(len, 20);
    var i := 0;
    while i < n
      invariant i <= n
      invariant forall j :: 0 <= j < 2 * i ==> uuidStr[j] == Encode(uuid[..n])[j]
      invariant uuidStr[2 * i..] == old(uuidStr[2 * i..])
    {
      var c := uuid[i];
      uuidStr[2 * i] := HexDigit(c / 16);
      uuidStr[2 * i + 1] := HexDigit(c % 16);
      assert (2 * i) / 2 == i && (2 * i) % 2 == 0;
      assert (2 * i + 1) / 2 == i && (2 * i + 1) % 2 == 1;
      i := i + 1;
    }
    uuidStr[2 * n] := '\0';
  }

  /** The corrected rendering always fits the buffer, NUL included. */
  lemma UuidToStrFits(len: int)
    ensures 2 * Clamp(len, 20) + 1 <= 41
  {
  }
}
