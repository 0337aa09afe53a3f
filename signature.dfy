/**
 * `signRequestBody`: the signature GitHub sends in `x-hub-signature` is
 * `sha1=` followed by the lowercase hexadecimal HMAC-SHA1 (RFC 2104) of the
 * raw body under the shared secret. The keyed hash itself is a parameter of
 * type `Mac`; only its output length, 20 bytes, is relied on.
 */
module Signature {
  import opened Wrappers

  newtype byte = x: int | 0 <= x < 256

  /** An HMAC-SHA1 digest: 20 bytes. */
  type Digest = d: seq<byte> | |d| == 20 witness seq(20, _ => 0)

  /** The keyed hash: (key, UTF-8 body) to digest. */
  type Mac = (string, string) -> Digest

  const Prefix: string := "sha1="

  /** The lowercase hex digit of a value below 16, as `digest('hex')` writes it. */
  function HexChar(n: nat): char
    requires n < 16
  {
    if n < 10 then ('0' as int + n) as char else ('a' as int + n - 10) as char
  }

  predicate IsLowerHexDigit(c: char) {
    '0' <= c <= '9' || 'a' <= c <= 'f'
  }

  /** Two lowercase hex digits, high nibble first, as `digest('hex')` writes a byte. */
  function HexByte(b: byte): (r: string)
    ensures |r| == 2 && HexValue(r[0]).Some? && HexValue(r[1]).Some?
    ensures HexValue(r[0]).value * 16 + HexValue(r[1]).value == b as int
  {
    DigitRoundTrip(b as int / 16);
    DigitRoundTrip(b as int % 16);
    [HexChar(b as int / 16), HexChar(b as int % 16)]
  }

  /** Every digit `HexChar` writes reads back as its value. */
  lemma DigitRoundTrip(n: nat)
    requires n < 16
    ensures HexValue(HexChar(n)) == Some(n)
  {
  }

  /** The `digest('hex')` encoding of a byte string. */
  function Hex(d: seq<byte>): (r: string)
    ensures |r| == 2 * |d|
    ensures forall i :: 0 <= i < |r| ==> IsLowerHexDigit(r[i])
  {
    if d == [] then "" else HexByte(d[0]) + Hex(d[1..])
  }

  /** The value of a lowercase hex digit. */
  function HexValue(c: char): (r: Option<nat>)
    ensures r.Some? <==> IsLowerHexDigit(c)
    ensures r.Some? ==> r.value < 16 && HexChar(r.value) == c
  {
    if '0' <= c <= '9' then Some(c as int - '0' as int)
    else if 'a' <= c <= 'f' then Some(c as int - 'a' as int + 10)
    else None
  }

  /** Reads back what `Hex` writes; anything else, including uppercase digits
      and odd lengths, is `None`. */
  function Unhex(s: string): Option<seq<byte>>
  {
    if s == [] then Some([])
    else if |s| == 1 || HexValue(s[0]).None? || HexValue(s[1]).None? || Unhex(s[2..]).None? then None
    else Some([(HexValue(s[0]).value * 16 + HexValue(s[1]).value) as byte] + Unhex(s[2..]).value)
  }

  /** The digest a signature header carries, when it is written as
      `signRequestBody` writes signatures. */
  function ParseSignature(s: string): Option<Digest>
  {
    if |s| == |Prefix| + 40 && s[..|Prefix|] == Prefix then
      match Unhex(s[|Prefix|..])
      case Some(d) => if |d| == 20 then Some(d) else None
      case None => None
    else None
  }

  /** Reading back one encoded byte in front of any text. */
  lemma UnhexCons(b: byte, t: string)
    ensures Unhex(HexByte(b) + t)
         == if Unhex(t).Some? then Some([b] + Unhex(t).value) else None
  {
    var pair := HexByte(b);
    var s := pair + t;
    assert s[0] == pair[0] && s[1] == pair[1] && s[2..] == t;
    var hi, lo := HexValue(s[0]).value, HexValue(s[1]).value;
    assert (hi * 16 + lo) as byte == b;
    if Unhex(t).Some? {
      assert Unhex(s) == Some([b] + Unhex(t).value);
    } else {
      assert Unhex(s) == None;
    }
  }

  lemma {:induction false} UnhexHex(d: seq<byte>)
    ensures Unhex(Hex(d)) == Some(d)
  {
    if d != [] {
      UnhexCons(d[0], Hex(d[1..]));
      UnhexHex(d[1..]);
      assert [d[0]] + d[1..] == d;
    }
  }

  /** A byte assembled from two digits splits back into them. */
  lemma HexByteOfDigits(hi: nat, lo: nat)
    requires hi < 16 && lo < 16
    ensures (hi * 16 + lo) / 16 == hi && (hi * 16 + lo) % 16 == lo
    ensures HexByte((hi * 16 + lo) as byte) == [HexChar(hi), HexChar(lo)]
  {
  }

  lemma {:induction false} HexUnhex(s: string, d: seq<byte>)
    requires Unhex(s) == Some(d)
    ensures Hex(d) == s
  {
    if s != [] {
      assert |s| >= 2;
      var hi, lo, rest := HexValue(s[0]).value, HexValue(s[1]).value, Unhex(s[2..]).value;
      HexByteOfDigits(hi, lo);
      assert d == [(hi * 16 + lo) as byte] + rest;
      HexUnhex(s[2..], rest);
      assert s == [s[0], s[1]] + s[2..];
    }
  }

  /** The signature the handler computes: `sha1=` and 40 lowercase hex digits
      that read back as the HMAC of the body under the key. */
  function SignRequestBody(mac: Mac, key: string, body: string): (r: string)
    ensures |r| == 45 && r[..5] == "sha1="
    ensures ParseSignature(r) == Some(mac(key, body))
  {
    var d := mac(key, body);
    UnhexHex(d);
    var r := Prefix + Hex(d);
    assert r[|Prefix|..] == Hex(d);
    r
  }

  /** `ParseSignature` accepts exactly the strings `sha1=` + `Hex(d)`. */
  lemma ParseSignatureCanonical(s: string, d: Digest)
    ensures ParseSignature(s) == Some(d) <==> s == Prefix + Hex(d)
  {
    if ParseSignature(s) == Some(d) {
      HexUnhex(s[|Prefix|..], d);
      assert s == s[..|Prefix|] + s[|Prefix|..];
    }
    if s == Prefix + Hex(d) {
      UnhexHex(d);
      assert s[|Prefix|..] == Hex(d);
    }
  }

  /** The comparison `signature !== calculatedSig` succeeds exactly when the
      claimed signature carries the HMAC of the body under the secret, spelled
      with lowercase hex digits. */
  lemma SignatureMatches(mac: Mac, secret: string, body: string, claimed: string)
    ensures claimed == SignRequestBody(mac, secret, body)
       <==> ParseSignature(claimed) == Some(mac(secret, body))
  {
    ParseSignatureCanonical(claimed, mac(secret, body));
  }

  /** Two secrets give the same signature for a body exactly when their HMACs
      of that body are equal; whether they are is a property of HMAC-SHA1. */
  lemma SignatureDeterminesDigest(mac: Mac, secret1: string, secret2: string, body: string)
    ensures SignRequestBody(mac, secret1, body) == SignRequestBody(mac, secret2, body)
       <==> mac(secret1, body) == mac(secret2, body)
  {
  }
}
