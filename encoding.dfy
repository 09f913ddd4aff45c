/**
  Byte-level encodings the redactors apply to a SHA-256 digest: the URL-safe
  base64 alphabet of section 5 of RFC 4648 (comprehend.py) and lowercase
  hexadecimal (presidio_redact.py). SHA-256 itself (FIPS 180-4) is not
  modelled: every caller receives it as a function parameter of type `Sha256`,
  whose only promise is the digest length.
*/
module Encoding {

  import opened Wrappers

  newtype byte = x: int | 0 <= x < 256

  /** A SHA-256 digest: exactly 32 bytes. */
  type Digest = d: seq<byte> | |d| == 32 witness seq(32, _ => 0)

  /** `hashlib.sha256(s.encode()).digest()`, supplied by the caller. */
  type Sha256 = string -> Digest

  // ---------------------------------------------------------------------------
  // URL-safe base64 (RFC 4648, section 5)
  // ---------------------------------------------------------------------------

  /** The 64 characters of the URL-safe alphabet: `A-Z a-z 0-9 - _`. */
  predicate IsUrlSafeChar(c: char) {
    ('A' <= c <= 'Z') || ('a' <= c <= 'z') || ('0' <= c <= '9') || c == '-' || c == '_'
  }

  /** Character for the 6-bit value `v`, by the table of RFC 4648 section 5. */
  function Sextet(v: nat): (c: char)
    requires v < 64
    ensures IsUrlSafeChar(c)
    ensures SextetValue(c) == v
  {
    if v < 26 then ('A' as int + v) as char
    else if v < 52 then ('a' as int + (v - 26)) as char
    else if v < 62 then ('0' as int + (v - 52)) as char
    else if v == 62 then '-'
    else '_'
  }

  /** Inverse of `Sextet` on the alphabet. */
  function SextetValue(c: char): (v: nat)
    requires IsUrlSafeChar(c)
    ensures v < 64
  {
    if 'A' <= c <= 'Z' then c as int - 'A' as int
    else if 'a' <= c <= 'z' then c as int - 'a' as int + 26
    else if '0' <= c <= '9' then c as int - '0' as int + 52
    else if c == '-' then 62
    else 63
  }

  /** Number of `=` characters that end the encoding of `n` bytes. */
  function Padding(n: nat): nat {
    (3 - n % 3) % 3
  }

  /** The four characters for the bytes `b0 b1 b2`, with `=` for missing ones. */
  function EncodeGroup(b0: byte, b1: Option<byte>, b2: Option<byte>): (g: string)
    requires b1.None? ==> b2.None?
    ensures |g| == 4
    ensures IsUrlSafeChar(g[0]) && IsUrlSafeChar(g[1])
    ensures g[2] == '=' <==> b1.None?
    ensures g[3] == '=' <==> b2.None?
    ensures g[2] != '=' ==> IsUrlSafeChar(g[2])
    ensures g[3] != '=' ==> IsUrlSafeChar(g[3])
  {
    var x0 := b0 as nat;
    var x1 := if b1.Some? then b1.value as nat else 0;
    var x2 := if b2.Some? then b2.value as nat else 0;
    [ Sextet(x0 / 4),
      Sextet(x0 % 4 * 16 + x1 / 16),
      if b1.None? then '=' else Sextet(x1 % 16 * 4 + x2 / 64),
      if b2.None? then '=' else Sextet(x2 % 64) ]
  }

  lemma EncodedLength(n: nat)
    requires n >= 3
    ensures 4 * ((n + 2) / 3) == 4 + 4 * ((n - 3 + 2) / 3)
    ensures Padding(n) == Padding(n - 3)
  {
  }

  /**
    `base64.urlsafe_b64encode(bs).decode()`: every 3 bytes become 4 alphabet
    characters; a final group of 1 or 2 bytes is padded with `=` to 4.
  */
  function Base64Url(bs: seq<byte>): (r: string)
    ensures |r| == 4 * ((|bs| + 2) / 3)
    ensures forall i :: 0 <= i < |r| - Padding(|bs|) ==> IsUrlSafeChar(r[i])
    ensures forall i :: |r| - Padding(|bs|) <= i < |r| ==> r[i] == '='
    decreases |bs|
  {
    if |bs| == 0 then ""
    else if |bs| == 1 then EncodeGroup(bs[0], None, None)
    else if |bs| == 2 then EncodeGroup(bs[0], Some(bs[1]), None)
    else
      EncodedLength(|bs|);
      EncodeGroup(bs[0], Some(bs[1]), Some(bs[2])) + Base64Url(bs[3..])
  }

  /** Characters that may appear anywhere in a URL-safe base64 text. */
  predicate IsBase64UrlChar(c: char) {
    IsUrlSafeChar(c) || c == '='
  }

  /** A 4-character group as `EncodeGroup` produces it: `=` only at the end. */
  predicate IsGroup(g: string) {
    |g| == 4 && IsUrlSafeChar(g[0]) && IsUrlSafeChar(g[1]) &&
    (g[2] == '=' ==> g[3] == '=') &&
    (g[2] != '=' ==> IsUrlSafeChar(g[2])) &&
    (g[3] != '=' ==> IsUrlSafeChar(g[3]))
  }

  /** Decodes one 4-character group. */
  function DecodeGroup(g: string): (bs: seq<byte>)
    requires IsGroup(g)
    ensures |bs| == if g[2] == '=' then 1 else if g[3] == '=' then 2 else 3
  {
    var v0, v1 := SextetValue(g[0]), SextetValue(g[1]);
    var x0 := (v0 * 4 + v1 / 16) as byte;
    if g[2] == '=' then [x0]
    else
      var v2 := SextetValue(g[2]);
      var x1 := (v1 % 16 * 16 + v2 / 4) as byte;
      if g[3] == '=' then [x0, x1]
      else
        var v3 := SextetValue(g[3]);
        [x0, x1, (v2 % 4 * 64 + v3) as byte]
  }

  /** Well-formed URL-safe base64 text: whole groups, padding only in the last one. */
  predicate IsBase64UrlText(s: string)
    decreases |s|
  {
    s == [] || (|s| >= 4 && IsGroup(s[..4]) && (|s| > 4 ==> s[3] != '=') && IsBase64UrlText(s[4..]))
  }

  /** Decoder for `Base64Url`, the partner of the encoder. */
  function Base64UrlDecode(s: string): (bs: seq<byte>)
    requires IsBase64UrlText(s)
    decreases |s|
  {
    if s == [] then [] else DecodeGroup(s[..4]) + Base64UrlDecode(s[4..])
  }

  lemma GroupRoundTrip(b0: byte, b1: Option<byte>, b2: Option<byte>)
    requires b1.None? ==> b2.None?
    ensures IsGroup(EncodeGroup(b0, b1, b2))
    ensures DecodeGroup(EncodeGroup(b0, b1, b2))
         == [b0] + (if b1.Some? then [b1.value] else []) + (if b2.Some? then [b2.value] else [])
  {
    var g := EncodeGroup(b0, b1, b2);
    var x0 := b0 as nat;
    var x1 := if b1.Some? then b1.value as nat else 0;
    var x2 := if b2.Some? then b2.value as nat else 0;
    assert SextetValue(g[0]) == x0 / 4;
    assert SextetValue(g[1]) == x0 % 4 * 16 + x1 / 16;
    assert x0 / 4 * 4 + (x0 % 4 * 16 + x1 / 16) / 16 == x0;
    if b1.Some? {
      assert SextetValue(g[2]) == x1 % 16 * 4 + x2 / 64;
      assert (x0 % 4 * 16 + x1 / 16) % 16 * 16 + (x1 % 16 * 4 + x2 / 64) / 4 == x1;
      if b2.Some? {
        assert SextetValue(g[3]) == x2 % 64;
        assert (x1 % 16 * 4 + x2 / 64) % 4 * 64 + x2 % 64 == x2;
      }
    }
  }

  /** A full group in front of well-formed text decodes group by group. */
  lemma DecodeFullGroupFirst(g: string, t: string)
    requires IsGroup(g) && g[3] != '='
    requires IsBase64UrlText(t)
    ensures IsBase64UrlText(g + t)
    ensures Base64UrlDecode(g + t) == DecodeGroup(g) + Base64UrlDecode(t)
  {
    assert (g + t)[..4] == g && (g + t)[4..] == t;
  }

  /** A single group is well-formed text on its own. */
  lemma DecodeLastGroup(g: string)
    requires IsGroup(g)
    ensures IsBase64UrlText(g)
    ensures Base64UrlDecode(g) == DecodeGroup(g)
  {
    assert g[..4] == g && g[4..] == [];
  }

  /** The round trip for a final group of one or two bytes. */
  lemma ShortRoundTrip(bs: seq<byte>)
    requires 1 <= |bs| <= 2
    ensures IsBase64UrlText(Base64Url(bs))
    ensures Base64UrlDecode(Base64Url(bs)) == bs
  {
    var b1: Option<byte> := if |bs| == 2 then Some(bs[1]) else None;
    var g := EncodeGroup(bs[0], b1, None);
    assert Base64Url(bs) == g;
    GroupRoundTrip(bs[0], b1, None);
    DecodeLastGroup(g);
  }

  /** Decoding the encoding of any byte string gives the bytes back. */
  lemma {:induction false} Base64UrlRoundTrip(bs: seq<byte>)
    ensures IsBase64UrlText(Base64Url(bs))
    ensures Base64UrlDecode(Base64Url(bs)) == bs
    decreases |bs|
  {
    if 1 <= |bs| <= 2 {
      ShortRoundTrip(bs);
    } else if |bs| >= 3 {
      var g := EncodeGroup(bs[0], Some(bs[1]), Some(bs[2]));
      var t := Base64Url(bs[3..]);
      GroupRoundTrip(bs[0], Some(bs[1]), Some(bs[2]));
      Base64UrlRoundTrip(bs[3..]);
      DecodeFullGroupFirst(g, t);
      assert Base64Url(bs) == g + t;
      assert bs == [bs[0], bs[1], bs[2]] + bs[3..];
    }
  }

  /** A SHA-256 digest encodes to 44 characters: 43 of the alphabet and one `=`. */
  lemma DigestTokenShape(d: Digest)
    ensures |Base64Url(d)| == 44
    ensures forall i :: 0 <= i < 43 ==> IsUrlSafeChar(Base64Url(d)[i])
    ensures Base64Url(d)[43] == '='
  {
  }

  // ---------------------------------------------------------------------------
  // Lowercase hexadecimal (`hexdigest()`)
  // ---------------------------------------------------------------------------

  predicate IsLowerHex(c: char) {
    ('0' <= c <= '9') || ('a' <= c <= 'f')
  }

  function HexDigit(v: nat): (c: char)
    requires v < 16
    ensures IsLowerHex(c)
    ensures HexValue(c) == v
  {
    if v < 10 then ('0' as int + v) as char else ('a' as int + (v - 10)) as char
  }

  function HexValue(c: char): (v: nat)
    requires IsLowerHex(c)
    ensures v < 16
  {
    if '0' <= c <= '9' then c as int - '0' as int else c as int - 'a' as int + 10
  }

  /** `bytes.hex()`: two lowercase digits per byte, high nibble first. */
  function Hex(bs: seq<byte>): (r: string)
    ensures |r| == 2 * |bs|
    ensures forall i :: 0 <= i < |r| ==> IsLowerHex(r[i])
    decreases |bs|
  {
    if bs == [] then "" else [HexDigit(bs[0] as nat / 16), HexDigit(bs[0] as nat % 16)] + Hex(bs[1..])
  }

  /** Each byte is recovered from its two digits. */
  lemma {:induction false} HexDigitsOfByte(bs: seq<byte>, k: nat)
    requires k < |bs|
    ensures HexValue(Hex(bs)[2 * k]) * 16 + HexValue(Hex(bs)[2 * k + 1]) == bs[k] as int
    decreases k
  {
    if k > 0 {
      HexDigitsOfByte(bs[1..], k - 1);
      assert Hex(bs)[2 * k] == Hex(bs[1..])[2 * (k - 1)];
      assert Hex(bs)[2 * k + 1] == Hex(bs[1..])[2 * (k - 1) + 1];
    }
  }

  /** The first `2k` hex digits are the hex of the first `k` bytes. */
  lemma {:induction false} HexPrefix(bs: seq<byte>, k: nat)
    requires k <= |bs|
    ensures Hex(bs)[..2 * k] == Hex(bs[..k])
    decreases k
  {
    if k > 0 {
      HexPrefix(bs[1..], k - 1);
      assert bs[..k][1..] == bs[1..][..k - 1];
    }
  }
}
