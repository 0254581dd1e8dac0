/**
 * `urlencoding::encode`: the query is taken as its UTF-8 bytes; the
 * unreserved characters of section 2.3 of RFC 3986 (ASCII letters, digits,
 * '-', '.', '_', '~') are kept as they are and every other byte is written as
 * '%' followed by two upper-case hexadecimal digits.
 */
module UrlEncoding {
  import opened Wrappers

  newtype byte = x: int | 0 <= x < 256

  /** The UTF-8 encoding of one Unicode scalar value (section 3 of RFC 3629). */
  function Utf8(c: char): (r: seq<byte>)
    ensures 1 <= |r| <= 4
    ensures |r| == 1 <==> c as int < 0x80
    ensures |r| == 1 ==> r[0] as int == c as int
    ensures |r| > 1 ==> forall k :: 0 <= k < |r| ==> r[k] >= 0x80
  {
    var n := c as int;
    if n < 0x80 then [n as byte]
    else if n < 0x800 then [(0xC0 + n / 64) as byte, (0x80 + n % 64) as byte]
    else if n < 0x10000 then
      [(0xE0 + n / 4096) as byte, (0x80 + (n / 64) % 64) as byte, (0x80 + n % 64) as byte]
    else
      [(0xF0 + n / 262144) as byte, (0x80 + (n / 4096) % 64) as byte,
       (0x80 + (n / 64) % 64) as byte, (0x80 + n % 64) as byte]
  }

  /** `str::as_bytes`. */
  function Utf8Bytes(s: string): seq<byte> {
    if s == [] then [] else Utf8(s[0]) + Utf8Bytes(s[1..])
  }

  predicate IsUnreservedChar(c: char) {
    ('0' <= c <= '9') || ('A' <= c <= 'Z') || ('a' <= c <= 'z') || c == '-' || c == '.' || c == '_' || c == '~'
  }

  predicate IsUnreservedByte(b: byte) {
    IsUnreservedChar(b as int as char)
  }

  /** The upper-case hexadecimal digit of `v`. */
  function HexDigit(v: nat): (c: char)
    requires v < 16
    ensures IsHexDigit(c)
    ensures ('0' <= c <= '9') <==> v < 10
  {
    if v < 10 then ('0' as int + v) as char else ('A' as int + v - 10) as char
  }

  predicate IsHexDigit(c: char) {
    ('0' <= c <= '9') || ('A' <= c <= 'F')
  }

  /** The value of an upper-case hexadecimal digit. */
  function HexValue(c: char): (v: nat)
    requires IsHexDigit(c)
    ensures v < 16 && HexDigit(v) == c
  {
    if c <= '9' then c as int - '0' as int else c as int - 'A' as int + 10
  }

  /** How one byte is written in the output. */
  function EncodeByte(b: byte): string {
    if IsUnreservedByte(b) then [b as int as char]
    else ['%', HexDigit((b / 16) as nat), HexDigit((b % 16) as nat)]
  }

  function PercentEncode(bs: seq<byte>): string {
    if bs == [] then [] else EncodeByte(bs[0]) + PercentEncode(bs[1..])
  }

  /** `urlencoding::encode`: what it writes decodes back to the text's UTF-8 bytes. */
  function Encode(s: string): (r: string)
    ensures PercentDecode(r) == Some(Utf8Bytes(s))
  {
    DecodeEncode(Utf8Bytes(s));
    PercentEncode(Utf8Bytes(s))
  }

  /** A character that may appear in an encoded query: nothing that ends or splits a query parameter. */
  predicate IsQuerySafe(c: char) {
    IsUnreservedChar(c) || c == '%'
  }

  /**
   * The inverse of `PercentEncode`: reads back a byte per unreserved
   * character and per '%'-escape; anything else is rejected.
   */
  function PercentDecode(s: string): (r: Option<seq<byte>>)
    decreases |s|
  {
    if s == [] then Some([])
    else if s[0] == '%' then
      if |s| >= 3 && IsHexDigit(s[1]) && IsHexDigit(s[2]) then
        match PercentDecode(s[3..])
        case Some(rest) => Some([(HexValue(s[1]) * 16 + HexValue(s[2])) as byte] + rest)
        case None => None
      else None
    else if IsUnreservedChar(s[0]) then
      match PercentDecode(s[1..])
      case Some(rest) => Some([s[0] as int as byte] + rest)
      case None => None
    else None
  }

  /** Decoding what was encoded gives back the very bytes. */
  lemma {:induction false} DecodeEncode(bs: seq<byte>)
    ensures PercentDecode(PercentEncode(bs)) == Some(bs)
  {
    if bs != [] {
      var b := bs[0];
      var rest := PercentEncode(bs[1..]);
      var s := EncodeByte(b) + rest;
      DecodeEncode(bs[1..]);
      assert PercentEncode(bs) == s;
      assert bs == [b] + bs[1..];
      if IsUnreservedByte(b) {
        assert s[0] == b as int as char && s[1..] == rest;
      } else {
        assert s[0] == '%' && s[1] == HexDigit((b / 16) as nat) && s[2] == HexDigit((b % 16) as nat) && s[3..] == rest;
        assert HexValue(s[1]) == (b / 16) as int && HexValue(s[2]) == (b % 16) as int;
        assert (HexValue(s[1]) * 16 + HexValue(s[2])) as byte == b;
        assert PercentDecode(s) == Some([b] + bs[1..]);
      }
    }
  }

  /** Every character of an encoding is unreserved or '%': no space, '&', '#' or '=' survives. */
  lemma {:induction false} EncodedIsQuerySafe(bs: seq<byte>)
    ensures forall k :: 0 <= k < |PercentEncode(bs)| ==> IsQuerySafe(PercentEncode(bs)[k])
  {
    if bs != [] {
      EncodedIsQuerySafe(bs[1..]);
      var e := EncodeByte(bs[0]);
      assert forall k :: 0 <= k < |e| ==> IsQuerySafe(e[k]);
    }
  }

  /** A query made only of unreserved characters is left exactly as it is. */
  lemma {:induction false} EncodeKeepsUnreserved(s: string)
    requires forall k :: 0 <= k < |s| ==> IsUnreservedChar(s[k])
    ensures Encode(s) == s
  {
    if s != [] {
      EncodeKeepsUnreserved(s[1..]);
      assert Utf8(s[0]) == [s[0] as int as byte];
    }
  }
}
