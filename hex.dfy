/**
 * The hexadecimal codec of `SecurityAide` (CICOPersistent/tool/security/SecurityAide.swift):
 * `hexString` renders every byte as two lowercase digits (`%02x`), `hexData` strips one
 * optional `0x` prefix and parses the rest two digits at a time, giving up on the first
 * chunk that is not a base-16 byte.
 */
module Hex {
  import opened Wrappers

  newtype byte = x: int | 0 <= x < 256

  /** The lowercase digit of a nibble, as the `%02x` format prints it. */
  function Digit(n: int): (c: char)
    requires 0 <= n < 16
    ensures IsLowerHexDigit(c)
  {
    if n < 10 then (48 + n) as char else (87 + n) as char
  }

  predicate IsLowerHexDigit(c: char) {
    '0' <= c <= '9' || 'a' <= c <= 'f'
  }

  /** The value of one base-16 digit in either case; None for any other character. */
  function DigitValue(c: char): (v: Option<int>)
    ensures v.Some? ==> 0 <= v.value < 16
    ensures v.Some? <==> ('0' <= c <= '9' || 'a' <= c <= 'f' || 'A' <= c <= 'F')
  {
    if '0' <= c <= '9' then Some(c as int - 48)
    else if 'a' <= c <= 'f' then Some(c as int - 87)
    else if 'A' <= c <= 'F' then Some(c as int - 55)
    else None
  }

  lemma DigitValueOfDigit(n: int)
    requires 0 <= n < 16
    ensures DigitValue(Digit(n)) == Some(n)
  {
  }

  /** `UInt8(chunk, radix: 16)` for a two-character chunk made of hex digits. */
  function ParseByte(hi: char, lo: char): (b: Option<byte>)
    ensures b.Some? <==> DigitValue(hi).Some? && DigitValue(lo).Some?
    ensures b.Some? ==> b.value as int == 16 * DigitValue(hi).value + DigitValue(lo).value
  {
    match (DigitValue(hi), DigitValue(lo))
    case (Some(h), Some(l)) => Some((16 * h + l) as byte)
    case _ => None
  }

  /** `hexString`: the bytes joined as two-digit lowercase hex, in byte order. */
  function HexString(data: seq<byte>): (s: string)
    ensures |s| == 2 * |data|
  {
    if data == [] then []
    else [Digit(data[0] as int / 16), Digit(data[0] as int % 16)] + HexString(data[1..])
  }

  /** Byte `i` occupies characters `2i` and `2i+1` of the rendering: high nibble first. */
  lemma {:induction false} HexStringAt(data: seq<byte>, i: int)
    requires 0 <= i < |data|
    ensures HexString(data)[2 * i] == Digit(data[i] as int / 16)
    ensures HexString(data)[2 * i + 1] == Digit(data[i] as int % 16)
  {
    if i > 0 {
      HexStringAt(data[1..], i - 1);
    }
  }

  /** Every character `hexString` emits is a lowercase hex digit. */
  lemma {:induction false} HexStringIsLowercase(data: seq<byte>)
    ensures forall k :: 0 <= k < |HexString(data)| ==> IsLowerHexDigit(HexString(data)[k])
  {
    forall k | 0 <= k < |HexString(data)|
      ensures IsLowerHexDigit(HexString(data)[k])
    {
      HexStringAt(data, k / 2);
    }
  }

  /** The string `hexData` goes on to parse: exactly one leading "0x" removed, if present. */
  function Stripped(s: string): (f: string)
    ensures |s| >= 2 && s[0] == '0' && s[1] == 'x' ==> f == s[2..]
    ensures !(|s| >= 2 && s[0] == '0' && s[1] == 'x') ==> f == s
  {
    if |s| >= 2 && s[..2] == "0x" then s[2..] else s
  }

  /** Chunk `i` of `f` (characters `2i`, `2i+1`) parsed as one byte. */
  function Chunk(f: string, i: int): Option<byte>
    requires 0 <= i && 2 * i + 1 < |f|
  {
    ParseByte(f[2 * i], f[2 * i + 1])
  }

  predicate AllChunksParse(f: string)
    requires |f| % 2 == 0
  {
    forall i :: 0 <= i < |f| / 2 ==> Chunk(f, i).Some?
  }

  /**
   * What `hexData` returns, stated without its loop: None for an empty or odd-length
   * payload or for any chunk that is not a byte, else chunk `i` as byte `i`.
   */
  function Decode(s: string): (r: Option<seq<byte>>)
    ensures r.Some? <==> |Stripped(s)| > 0 && |Stripped(s)| % 2 == 0 && AllChunksParse(Stripped(s))
    ensures r.Some? ==> |r.value| == |Stripped(s)| / 2
    ensures r.Some? ==> forall i :: 0 <= i < |r.value| ==> Chunk(Stripped(s), i) == Some(r.value[i])
  {
    var f := Stripped(s);
    if |f| == 0 || |f| % 2 != 0 then None
    else if AllChunksParse(f) then Some(seq(|f| / 2, i requires 0 <= i < |f| / 2 => Chunk(f, i).value))
    else None
  }

  /** `hexData`: strip the prefix, check the length, then parse chunk by chunk. */
  method HexData(hexString: string) returns (data: Option<seq<byte>>)
    ensures data == Decode(hexString)
  {
    var fixedHexString := hexString;
    if |fixedHexString| >= 2 && fixedHexString[..2] == "0x" {
      fixedHexString := fixedHexString[2..];
    }
    assert fixedHexString == Stripped(hexString);
    if !(|fixedHexString| > 0 && |fixedHexString| % 2 == 0) {
      return None;
    }
    var length := |fixedHexString| / 2;
    var bytes: seq<byte> := [];
    for index := 0 to length
      invariant |bytes| == index
      invariant forall j :: 0 <= j < index ==> Chunk(fixedHexString, j) == Some(bytes[j])
    {
      var byte := ParseByte(fixedHexString[index * 2], fixedHexString[index * 2 + 1]);
      if byte.None? {
        assert Chunk(fixedHexString, index).None?;
        return None;
      }
      bytes := bytes + [byte.value];
    }
    assert AllChunksParse(fixedHexString);
    data := Some(bytes);
    assert Decode(hexString).Some?;
    assert Decode(hexString).value == bytes;
  }

  /** `hexString` output never starts with "0x": its second character is a digit. */
  lemma {:induction false} HexStringHasNoPrefix(data: seq<byte>)
    ensures Stripped(HexString(data)) == HexString(data)
  {
    if data != [] {
      HexStringAt(data, 0);
    }
  }

  /** Chunk `i` of the rendering parses back to byte `i`. */
  lemma ChunkOfHexString(data: seq<byte>, i: int)
    requires 0 <= i < |data|
    ensures Chunk(HexString(data), i) == Some(data[i])
  {
    var b := data[i] as int;
    HexStringAt(data, i);
    DigitValueOfDigit(b / 16);
    DigitValueOfDigit(b % 16);
    assert 16 * (b / 16) + b % 16 == b;
  }

  /** Round trip: decoding the rendering of non-empty data gives the data back. */
  lemma {:induction false} RoundTrip(data: seq<byte>)
    requires |data| > 0
    ensures Decode(HexString(data)) == Some(data)
  {
    var s := HexString(data);
    assert AllChunksParse(s) && |s| == 2 * |data| by {
      forall i | 0 <= i < |data|
        ensures Chunk(s, i).Some?
      {
        ChunkOfHexString(data, i);
      }
    }
    HexStringHasNoPrefix(data);
    var r := Decode(s);
    assert r.Some? && |r.value| == |data|;
    forall i | 0 <= i < |data| ensures r.value[i] == data[i] {
      ChunkOfHexString(data, i);
    }
    assert r.value == data;
  }

  /** The empty rendering is rejected: `hexData(hexString([]))` is nil. */
  lemma EmptyIsRejected()
    ensures Decode(HexString([])) == None
  {
  }

  /** A "0x" prefix is stripped before decoding, so the prefixed rendering round-trips too. */
  lemma PrefixedRoundTrip(data: seq<byte>)
    requires |data| > 0
    ensures Decode("0x" + HexString(data)) == Some(data)
  {
    var h := HexString(data);
    assert ("0x" + h)[..2] == "0x" && ("0x" + h)[2..] == h;
    HexStringHasNoPrefix(data);
    RoundTrip(data);
  }

  /** Only a lowercase "0x" is a prefix: after "0X" the first chunk is not a byte. */
  lemma UppercasePrefixIsRejected(data: seq<byte>)
    ensures Decode("0X" + HexString(data)) == None
  {
    var f := "0X" + HexString(data);
    assert f[..2] != "0x" by { assert f[1] == 'X'; }
    assert Chunk(f, 0).None? by { assert f[1] == 'X'; }
  }

  /** Exactly one prefix is stripped: a second "0x" is payload, and its "x" is not a digit. */
  lemma SecondPrefixIsRejected(data: seq<byte>)
    ensures Decode("0x0x" + HexString(data)) == None
  {
    var s := "0x0x" + HexString(data);
    assert s[..2] == "0x";
    var f := s[2..];
    assert f == "0x" + HexString(data);
    assert Chunk(f, 0).None? by { assert f[1] == 'x'; }
  }
}
