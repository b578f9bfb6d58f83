/**
 * The Wompi integrity signature: the text that is hashed, its UTF-8 encoding and the
 * lowercase hexadecimal rendering of the SHA-256 digest. The digest itself is a parameter
 * (`sha256`), so nothing here depends on how SHA-256 (FIPS 180-4) is computed.
 */
module Integrity {
  import opened Wrappers
  import opened Text

  newtype byte = x: int | 0 <= x < 256

  /** A SHA-256 digest is 32 bytes. */
  type Digest = d: seq<byte> | |d| == 32 witness seq(32, _ => 0 as byte)

  /** The lowercase hexadecimal digit for 0..15. */
  function HexDigit(d: nat): (c: char)
    requires d < 16
    ensures IsLowerHex(c)
  {
    if d < 10 then ('0' as int + d) as char else ('a' as int + d - 10) as char
  }

  predicate IsLowerHex(c: char) {
    '0' <= c <= '9' || 'a' <= c <= 'f'
  }

  /** The value of a lowercase hexadecimal digit; any other character reads as 0. */
  function HexValue(c: char): (d: nat)
    ensures d < 16
  {
    if '0' <= c <= '9' then c as int - '0' as int
    else if 'a' <= c <= 'f' then c as int - 'a' as int + 10
    else 0
  }

  lemma HexValueOfDigit(d: nat)
    requires d < 16
    ensures HexValue(HexDigit(d)) == d
  {
  }

  /** `n.toString(16)`: base 16, lowercase, no leading zeros. */
  function ToHex(n: nat): (s: string)
    ensures |s| >= 1 && forall i :: 0 <= i < |s| ==> IsLowerHex(s[i])
    ensures n < 16 <==> |s| == 1
  {
    if n < 16 then [HexDigit(n)] else ToHex(n / 16) + [HexDigit(n % 16)]
  }

  /** `s.padStart(width, fill)` for a one-character fill. */
  function PadStart(s: string, width: nat, fill: char): (r: string)
    ensures |r| == if |s| >= width then |s| else width
    ensures r[|r| - |s|..] == s
    ensures forall i :: 0 <= i < |r| - |s| ==> r[i] == fill
  {
    if |s| >= width then s else seq(width - |s|, _ => fill) + s
  }

  /** One byte as `b.toString(16).padStart(2, '0')`: its high and its low hex digit. */
  function HexByte(b: byte): (r: string)
    ensures r == [HexDigit(b as nat / 16), HexDigit(b as nat % 16)]
  {
    var digits := ToHex(b as nat);
    if b < 16 then
      assert digits == [HexDigit(b as nat)];
      PadStart(digits, 2, '0')
    else
      assert ToHex(b as nat / 16) == [HexDigit(b as nat / 16)];
      PadStart(digits, 2, '0')
  }

  /** `bytes.map(b => b.toString(16).padStart(2, '0')).join('')`. */
  function HexEncode(bytes: seq<byte>): (r: string)
    ensures |r| == 2 * |bytes|
  {
    if |bytes| == 0 then "" else HexByte(bytes[0]) + HexEncode(bytes[1..])
  }

  /** Every character of an encoding is a lowercase hex digit. */
  lemma {:induction false} HexEncodeIsLowerHex(bytes: seq<byte>)
    ensures forall k :: 0 <= k < |HexEncode(bytes)| ==> IsLowerHex(HexEncode(bytes)[k])
  {
    if |bytes| > 0 {
      HexEncodeIsLowerHex(bytes[1..]);
      var head := HexByte(bytes[0]);
      var rest := HexEncode(bytes[1..]);
      var r := HexEncode(bytes);
      assert r == head + rest;
      forall k | 0 <= k < |r| ensures IsLowerHex(r[k]) {
        if k < 2 {
          assert r[k] == head[k];
        } else {
          assert r[k] == rest[k - 2];
        }
      }
    }
  }

  /** Reads lowercase hex text back into bytes, two digits per byte; an odd last digit is dropped. */
  function HexDecode(s: string): (r: seq<byte>)
    ensures |r| == |s| / 2
  {
    if |s| < 2 then []
    else [(HexValue(s[0]) * 16 + HexValue(s[1])) as byte] + HexDecode(s[2..])
  }

  /** The hex rendering loses nothing: decoding it gives the bytes back. */
  lemma {:induction false} HexRoundTrip(bytes: seq<byte>)
    ensures HexDecode(HexEncode(bytes)) == bytes
  {
    if |bytes| > 0 {
      HexRoundTrip(bytes[1..]);
      DecodeByteCons(bytes[0], bytes[1..], HexEncode(bytes[1..]));
      assert bytes == [bytes[0]] + bytes[1..];
    }
  }

  /** A lowercase hex digit is the digit of its own value. */
  lemma DigitOfHexValue(c: char)
    requires IsLowerHex(c)
    ensures HexDigit(HexValue(c)) == c
  {
  }

  /** The byte made of a high and a low digit renders as those two digits. */
  lemma PairDigits(hi: nat, lo: nat)
    requires hi < 16 && lo < 16
    ensures HexByte((hi * 16 + lo) as byte) == [HexDigit(hi), HexDigit(lo)]
  {
    var n := hi * 16 + lo;
    assert n / 16 == hi && n % 16 == lo;
  }

  /** Lowercase hex text of even length is the encoding of what it decodes to. */
  lemma {:induction false} HexEncodeOfDecode(s: string)
    requires |s| % 2 == 0
    requires forall k :: 0 <= k < |s| ==> IsLowerHex(s[k])
    ensures HexEncode(HexDecode(s)) == s
  {
    if |s| >= 2 {
      var rest := s[2..];
      assert forall k :: 0 <= k < |rest| ==> IsLowerHex(rest[k]) by {
        forall k | 0 <= k < |rest| ensures IsLowerHex(rest[k]) {
          assert rest[k] == s[k + 2];
        }
      }
      HexEncodeOfDecode(rest);
      EncodeLeadingPair(s);
      assert s == s[..2] + rest;
    }
  }

  /** The first two digits of hex text come back in front when it is decoded and encoded again. */
  lemma EncodeLeadingPair(s: string)
    requires |s| >= 2 && IsLowerHex(s[0]) && IsLowerHex(s[1])
    ensures HexEncode(HexDecode(s)) == s[..2] + HexEncode(HexDecode(s[2..]))
  {
    var b := (HexValue(s[0]) * 16 + HexValue(s[1])) as byte;
    var tail := HexDecode(s[2..]);
    assert HexDecode(s) == [b] + tail;
    EncodeCons(b, tail);
    LeadingPairByte(s);
  }

  /** Rendering a byte in front of others renders it in front of their rendering. */
  lemma EncodeCons(b: byte, tail: seq<byte>)
    ensures HexEncode([b] + tail) == HexByte(b) + HexEncode(tail)
  {
    assert ([b] + tail)[1..] == tail;
  }

  /** Two lowercase hex characters, read as a byte and rendered again, are themselves. */
  lemma LeadingPairByte(s: string)
    requires |s| >= 2 && IsLowerHex(s[0]) && IsLowerHex(s[1])
    ensures HexByte((HexValue(s[0]) * 16 + HexValue(s[1])) as byte) == s[..2]
  {
    PairDigits(HexValue(s[0]), HexValue(s[1]));
    DigitOfHexValue(s[0]);
    DigitOfHexValue(s[1]);
    assert s[..2] == [s[0], s[1]];
  }


  /** A byte's two digits in front of hex text decode to that byte in front of the text's bytes. */
  lemma DecodeByteCons(b: byte, tail: seq<byte>, rest: string)
    requires HexDecode(rest) == tail
    ensures HexDecode(HexByte(b) + rest) == [b] + tail
  {
    var n := b as nat;
    var hi, lo := HexDigit(n / 16), HexDigit(n % 16);
    HexValueOfDigit(n / 16);
    HexValueOfDigit(n % 16);
    DecodeCons(hi, lo, rest);
    assert (HexValue(hi) * 16 + HexValue(lo)) as byte == b;
  }

  /** Decoding two digits in front of hex text decodes each in turn. */
  lemma DecodeCons(hi: char, lo: char, rest: string)
    ensures HexDecode([hi, lo] + rest) == [(HexValue(hi) * 16 + HexValue(lo)) as byte] + HexDecode(rest)
  {
    var s := [hi, lo] + rest;
    assert s[2..] == rest;
  }

  /** The UTF-8 encoding of one Unicode scalar value, as `TextEncoder` produces it. */
  function Utf8Char(c: char): (r: seq<byte>)
    ensures 1 <= |r| <= 4
    ensures c as int < 0x80 <==> |r| == 1
    ensures c as int < 0x80 ==> r == [c as int as byte]
  {
    var n := c as int;
    if n < 0x80 then [n as byte]
    else if n < 0x800 then [(0xC0 + n / 64) as byte, (0x80 + n % 64) as byte]
    else if n < 0x10000 then [(0xE0 + n / 4096) as byte, (0x80 + (n / 64) % 64) as byte, (0x80 + n % 64) as byte]
    else [(0xF0 + n / 262144) as byte, (0x80 + (n / 4096) % 64) as byte, (0x80 + (n / 64) % 64) as byte, (0x80 + n % 64) as byte]
  }

  /** `new TextEncoder().encode(s)`. */
  function Utf8Encode(s: string): (r: seq<byte>)
    ensures |s| <= |r| <= 4 * |s|
  {
    if |s| == 0 then [] else Utf8Char(s[0]) + Utf8Encode(s[1..])
  }

  predicate IsAscii(s: string) {
    forall i :: 0 <= i < |s| ==> s[i] as int < 0x80
  }

  /** Text made only of ASCII characters encodes to one byte per character, the character's code. */
  lemma {:induction false} Utf8Ascii(s: string)
    requires IsAscii(s)
    ensures |Utf8Encode(s)| == |s|
    ensures forall i :: 0 <= i < |s| ==> Utf8Encode(s)[i] == s[i] as int as byte
  {
    if |s| > 0 {
      Utf8Ascii(s[1..]);
    }
  }

  /** Encoding is compositional: the encoding of `a + b` is that of `a` followed by that of `b`. */
  lemma {:induction false} Utf8Append(a: string, b: string)
    ensures Utf8Encode(a + b) == Utf8Encode(a) + Utf8Encode(b)
  {
    if |a| == 0 {
      assert a + b == b;
    } else {
      assert (a + b)[1..] == a[1..] + b;
      Utf8Append(a[1..], b);
    }
  }

  /** The text that is hashed: reference, amount in cents, currency and integrity secret, run together. */
  function SignatureInput(reference: string, amountInCents: nat, currency: string, secret: string): string {
    reference + NatToString(amountInCents) + currency + secret
  }

  /** With the reference, currency and secret fixed, the hashed text determines the amount. */
  lemma SignatureInputDeterminesAmount(reference: string, a: nat, b: nat, currency: string, secret: string)
    requires SignatureInput(reference, a, currency, secret) == SignatureInput(reference, b, currency, secret)
    ensures a == b
  {
    var s := SignatureInput(reference, a, currency, secret);
    var n := |reference|;
    assert |NatToString(a)| == |NatToString(b)|;
    assert s[n..n + |NatToString(a)|] == NatToString(a);
    assert SignatureInput(reference, b, currency, secret)[n..n + |NatToString(b)|] == NatToString(b);
    NatToStringInjective(a, b);
  }

  /** generateIntegritySignature: the hex rendering of the SHA-256 digest of the UTF-8 bytes of the input. */
  function IntegritySignature(sha256: seq<byte> -> Digest, reference: string, amountInCents: nat,
                              currency: string, secret: string): (sig: string)
    ensures |sig| == 64
    ensures forall k :: 0 <= k < |sig| ==> IsLowerHex(sig[k])
    ensures HexDecode(sig) == sha256(Utf8Encode(SignatureInput(reference, amountInCents, currency, secret)))
  {
    var digest := sha256(Utf8Encode(SignatureInput(reference, amountInCents, currency, secret)));
    HexRoundTrip(digest);
    HexEncodeIsLowerHex(digest);
    HexEncode(digest)
  }

  /**
   * verifyWebhookSignature(payload, signature): the payload's digest, rendered as hex, compared
   * with the given signature. `None` is an absent (undefined) signature, which equals no string.
   */
  function VerifySignature(sha256: seq<byte> -> Digest, payload: string, signature: Option<string>): (ok: bool)
    ensures signature.None? ==> !ok
    ensures ok ==> |signature.value| == 64 && (forall k :: 0 <= k < 64 ==> IsLowerHex(signature.value[k]))
    ensures ok ==> HexDecode(signature.value) == sha256(Utf8Encode(payload))
    ensures (&& signature.Some? && |signature.value| == 64
             && (forall k :: 0 <= k < 64 ==> IsLowerHex(signature.value[k]))
             && HexDecode(signature.value) == sha256(Utf8Encode(payload))) ==> ok
  {
    HexRoundTrip(sha256(Utf8Encode(payload)));
    HexEncodeIsLowerHex(sha256(Utf8Encode(payload)));
    match signature
    case None => false
    case Some(given) =>
      if |given| == 64 && forall k :: 0 <= k < 64 ==> IsLowerHex(given[k]) then
        HexEncodeOfDecode(given);
        HexEncode(sha256(Utf8Encode(payload))) == given
      else
        HexEncode(sha256(Utf8Encode(payload))) == given
  }
}
