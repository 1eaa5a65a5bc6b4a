/** `encodeURIComponent` (ECMA-262 6th edition, section 18.2.6.5): every
    character outside the unreserved set is written as the percent-encoded
    bytes of its UTF-8 form (section 2.1 of RFC 3986, upper-case hex). The
    synthesizer uses it for header values in Kodi URLs and in the
    N_m3u8DL-CLI `--header` argument. */
module UriComponent {

  /** The characters `encodeURIComponent` leaves alone. */
  predicate IsUnreserved(c: char) {
    || 'A' <= c <= 'Z'
    || 'a' <= c <= 'z'
    || '0' <= c <= '9'
    || c in "-_.!~*'()"
  }

  predicate IsUpperHex(c: char) {
    '0' <= c <= '9' || 'A' <= c <= 'F'
  }

  /** The characters an encoded string can contain. */
  predicate IsEncodedChar(c: char) {
    IsUnreserved(c) || c == '%' || IsUpperHex(c)
  }

  function HexDigit(n: nat): (r: char)
    requires n < 16
    ensures IsUpperHex(r)
  {
    "0123456789ABCDEF"[n]
  }

  function HexValue(c: char): (r: nat)
    requires IsUpperHex(c)
    ensures r < 16
  {
    if c <= '9' then c as int - '0' as int else c as int - 'A' as int + 10
  }

  lemma HexRoundTrip(n: nat)
    requires n < 16
    ensures HexValue(HexDigit(n)) == n
  {
  }

  /** The UTF-8 encoding of one Unicode scalar value. */
  function Utf8(c: char): (r: seq<nat>)
    ensures 1 <= |r| <= 4
    ensures forall k :: 0 <= k < |r| ==> r[k] < 256
    ensures c as int < 0x80 ==> r == [c as int]
  {
    var cp := c as int;
    if cp < 0x80 then [cp]
    else if cp < 0x800 then [0xC0 + cp / 64, 0x80 + cp % 64]
    else if cp < 0x10000 then [0xE0 + cp / 4096, 0x80 + (cp / 64) % 64, 0x80 + cp % 64]
    else [0xF0 + cp / 262144, 0x80 + (cp / 4096) % 64, 0x80 + (cp / 64) % 64, 0x80 + cp % 64]
  }

  function PercentByte(b: nat): (r: string)
    requires b < 256
    ensures |r| == 3 && r[0] == '%' && IsUpperHex(r[1]) && IsUpperHex(r[2])
  {
    ['%', HexDigit(b / 16), HexDigit(b % 16)]
  }

  function PercentBytes(bs: seq<nat>): (r: string)
    requires forall k :: 0 <= k < |bs| ==> bs[k] < 256
    ensures forall i :: 0 <= i < |r| ==> IsEncodedChar(r[i])
  {
    if bs == [] then [] else PercentByte(bs[0]) + PercentBytes(bs[1..])
  }

  function EncodeChar(c: char): (r: string)
    ensures forall i :: 0 <= i < |r| ==> IsEncodedChar(r[i])
  {
    if IsUnreserved(c) then [c] else PercentBytes(Utf8(c))
  }

  function Encode(s: string): (r: string)
    ensures forall i :: 0 <= i < |r| ==> IsEncodedChar(r[i])
  {
    if s == [] then [] else EncodeChar(s[0]) + Encode(s[1..])
  }

  /** An encoded value is safe inside a double-quoted argument and inside the
      `|name=value&name=value` suffix of a Kodi URL. */
  lemma EncodedIsInert(s: string)
    ensures '"' !in Encode(s) && '|' !in Encode(s) && '&' !in Encode(s)
    ensures ' ' !in Encode(s) && '=' !in Encode(s)
  {
    var r := Encode(s);
    forall i | 0 <= i < |r|
      ensures r[i] != '"' && r[i] != '|' && r[i] != '&' && r[i] != ' ' && r[i] != '='
    {
      EncodedCharIsInert(r[i]);
    }
  }

  lemma EncodedCharIsInert(c: char)
    requires IsEncodedChar(c)
    ensures c != '"' && c != '|' && c != '&' && c != ' ' && c != '='
  {
  }

  /** Percent-decoding of single-byte escapes; other text is copied. */
  function DecodeAscii(s: string): string
    decreases |s|
  {
    if s == [] then []
    else if |s| >= 3 && s[0] == '%' && IsUpperHex(s[1]) && IsUpperHex(s[2]) then
      [(HexValue(s[1]) * 16 + HexValue(s[2])) as char] + DecodeAscii(s[3..])
    else [s[0]] + DecodeAscii(s[1..])
  }

  predicate IsAscii(s: string) {
    forall i :: 0 <= i < |s| ==> s[i] as int < 0x80
  }

  /** Decoding an encoded ASCII string gives the string back. */
  lemma {:induction false} DecodeEncode(s: string)
    requires IsAscii(s)
    ensures DecodeAscii(Encode(s)) == s
    decreases |s|
  {
    if s != [] {
      DecodeEncode(s[1..]);
      DecodeEncodedHead(s[0], Encode(s[1..]));
      assert s == [s[0]] + s[1..];
    }
  }

  /** One encoded ASCII character in front decodes back to itself. */
  lemma DecodeEncodedHead(c: char, rest: string)
    requires c as int < 0x80
    ensures DecodeAscii(EncodeChar(c) + rest) == [c] + DecodeAscii(rest)
  {
    if IsUnreserved(c) {
      assert c != '%';
      assert ([c] + rest)[1..] == rest;
    } else {
      var b := c as int;
      assert Utf8(c) == [b];
      assert PercentBytes([b]) == PercentByte(b) + PercentBytes([]);
      var e := PercentByte(b);
      HexRoundTrip(b / 16);
      HexRoundTrip(b % 16);
      assert (e + rest)[3..] == rest;
      assert (e + rest)[0] == '%' && (e + rest)[1] == e[1] && (e + rest)[2] == e[2];
    }
  }
}
