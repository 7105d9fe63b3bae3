/**
 * Project keys: `generate_key` encodes the 16 bytes of a version-4 UUID with the
 * URL- and filename-safe base64 alphabet of section 5 of RFC 4648 and strips the
 * trailing `=` padding.
 */
module Keys {

  type Byte = b: int | 0 <= b < 256

  const Pad: char := '='

  /** The characters of the URL-safe alphabet: A-Z, a-z, 0-9, '-' and '_'. */
  predicate IsUrlSafeChar(c: char)
  {
    ('A' <= c <= 'Z') || ('a' <= c <= 'z') || ('0' <= c <= '9') || c == '-' || c == '_'
  }

  predicate AllUrlSafe(s: string)
  {
    forall i :: 0 <= i < |s| ==> IsUrlSafeChar(s[i])
  }

  /** The alphabet character for the 6-bit value `n` (table 2 of RFC 4648, with '-' and '_' for 62 and 63). */
  function Digit(n: int): (c: char)
    requires 0 <= n < 64
    ensures IsUrlSafeChar(c) && c != Pad && c != ','
  {
    if n < 26 then (65 + n) as char
    else if n < 52 then (97 + n - 26) as char
    else if n < 62 then (48 + n - 52) as char
    else if n == 62 then '-'
    else '_'
  }

  /** Digit is the inverse of reading the character back as a 6-bit value. */
  function DigitValue(c: char): (n: int)
    requires IsUrlSafeChar(c)
    ensures 0 <= n < 64 && Digit(n) == c
  {
    if 'A' <= c <= 'Z' then c as int - 65
    else if 'a' <= c <= 'z' then c as int - 97 + 26
    else if '0' <= c <= '9' then c as int - 48 + 52
    else if c == '-' then 62
    else 63
  }

  /** Three bytes, read as 24 bits, become four 6-bit digits. */
  function EncodeGroup(b0: Byte, b1: Byte, b2: Byte): (g: string)
    ensures |g| == 4 && AllUrlSafe(g)
  {
    [Digit(b0 / 4), Digit(b0 % 4 * 16 + b1 / 16), Digit(b1 % 16 * 4 + b2 / 64), Digit(b2 % 64)]
  }

  /** A last group of one or two bytes is zero-filled and padded to four characters with '='. */
  function EncodeLast(last: seq<Byte>): (g: string)
    requires 1 <= |last| <= 2
    ensures |g| == 4 && AllUrlSafe(g[..4 - PadCount(|last|)])
    ensures forall i :: 4 - PadCount(|last|) <= i < 4 ==> g[i] == Pad
  {
    if |last| == 1 then [Digit(last[0] / 4), Digit(last[0] % 4 * 16), Pad, Pad]
    else [Digit(last[0] / 4), Digit(last[0] % 4 * 16 + last[1] / 16), Digit(last[1] % 16 * 4), Pad]
  }

  /** `base64.urlsafe_b64encode`: every 3 bytes become 4 characters; a short last group is padded. */
  function Encode(bytes: seq<Byte>): (s: string)
    ensures |s| == if |bytes| % 3 == 0 then |bytes| / 3 * 4 else (|bytes| / 3 + 1) * 4
    decreases |bytes|
  {
    if |bytes| == 0 then ""
    else if |bytes| < 3 then EncodeLast(bytes)
    else EncodeGroup(bytes[0], bytes[1], bytes[2]) + Encode(bytes[3..])
  }

  /** The number of '=' characters Encode appends for `n` input bytes. */
  function PadCount(n: nat): nat
  {
    (3 - n % 3) % 3
  }

  /** Alphabet characters followed by `k` padding characters. */
  predicate DigitsThenPadding(s: string, k: nat)
  {
    |s| >= k && AllUrlSafe(s[..|s| - k]) && forall i :: |s| - k <= i < |s| ==> s[i] == Pad
  }

  /** Putting four alphabet characters in front keeps the shape. */
  lemma PrependDigits(head: string, tail: string, k: nat)
    requires |head| == 4 && AllUrlSafe(head) && DigitsThenPadding(tail, k)
    ensures DigitsThenPadding(head + tail, k)
  {
    var s := head + tail;
    forall i | 0 <= i < |s| - k
      ensures IsUrlSafeChar(s[i])
    {
      if i < 4 {
        assert s[i] == head[i];
      } else {
        assert s[i] == tail[..|tail| - k][i - 4];
      }
    }
    forall i | |s| - k <= i < |s|
      ensures s[i] == Pad
    {
      assert s[i] == tail[i - 4];
    }
  }

  lemma EncodeLastIsDigitsThenPadding(bytes: seq<Byte>)
    requires 1 <= |bytes| < 3
    ensures DigitsThenPadding(Encode(bytes), PadCount(|bytes|))
  {
    assert Encode(bytes) == EncodeLast(bytes);
  }

  lemma EncodeStep(bytes: seq<Byte>)
    requires |bytes| >= 3 && DigitsThenPadding(Encode(bytes[3..]), PadCount(|bytes| - 3))
    ensures DigitsThenPadding(Encode(bytes), PadCount(|bytes|))
  {
    var head, tail := EncodeGroup(bytes[0], bytes[1], bytes[2]), Encode(bytes[3..]);
    var k := PadCount(|bytes|);
    PadCountStep(|bytes|);
    EncodeUnfold(bytes);
    PrependDigits(head, tail, k);
  }

  lemma PadCountStep(n: nat)
    requires n >= 3
    ensures PadCount(n) == PadCount(n - 3)
  {
  }

  lemma EncodeUnfold(bytes: seq<Byte>)
    requires |bytes| >= 3
    ensures Encode(bytes) == EncodeGroup(bytes[0], bytes[1], bytes[2]) + Encode(bytes[3..])
  {
  }

  /** Every encoding is alphabet characters followed by exactly PadCount padding characters. */
  lemma {:induction false} EncodeIsDigitsThenPadding(bytes: seq<Byte>)
    ensures DigitsThenPadding(Encode(bytes), PadCount(|bytes|))
    decreases |bytes|
  {
    if |bytes| == 0 {
    } else if |bytes| < 3 {
      EncodeLastIsDigitsThenPadding(bytes);
    } else {
      EncodeIsDigitsThenPadding(bytes[3..]);
      EncodeStep(bytes);
    }
  }

  /** `str.rstrip(c)`: removes every trailing occurrence of `c`. */
  function RStrip(s: string, c: char): (t: string)
    ensures |t| <= |s| && t == s[..|t|]
    ensures t == [] || t[|t| - 1] != c
    ensures forall i :: |t| <= i < |s| ==> s[i] == c
  {
    if |s| > 0 && s[|s| - 1] == c then RStrip(s[..|s| - 1], c) else s
  }

  /** Stripping the padding from digits followed by padding gives back the digits. */
  lemma {:induction false} RStripPadding(s: string, n: nat)
    requires n <= |s|
    requires forall i :: n <= i < |s| ==> s[i] == Pad
    requires n == 0 || s[n - 1] != Pad
    ensures RStrip(s, Pad) == s[..n]
    decreases |s|
  {
    if |s| > n {
      RStripPadding(s[..|s| - 1], n);
      assert s[..|s| - 1][..n] == s[..n];
    }
  }

  /** `uuid4().bytes`: 16 random bytes with the version (4) and RFC 4122 variant bits set. */
  function Uuid4Bytes(random: seq<Byte>): (u: seq<Byte>)
    requires |random| == 16
    ensures |u| == 16
    ensures u[6] / 16 == 4 && u[8] / 64 == 2
    ensures u[6] % 16 == random[6] % 16 && u[8] % 64 == random[8] % 64
    ensures forall i :: 0 <= i < 16 && i != 6 && i != 8 ==> u[i] == random[i]
  {
    random[6 := random[6] % 16 + 64][8 := random[8] % 64 + 128]
  }

  /** `generate_key`: fits the 22-character primary key column and uses only alphabet characters. */
  function GenerateKey(random: seq<Byte>): (key: string)
    requires |random| == 16
    ensures |key| == 22 && AllUrlSafe(key)
    ensures Pad !in key && ',' !in key
  {
    var encoded := Encode(Uuid4Bytes(random));
    EncodeIsDigitsThenPadding(Uuid4Bytes(random));
    RStripPadding(encoded, 22);
    RStrip(encoded, Pad)
  }

  lemma DigitInjective(n: int, m: int)
    requires 0 <= n < 64 && 0 <= m < 64 && Digit(n) == Digit(m)
    ensures n == m
  {
  }

  lemma EncodeGroupInjective(b0: Byte, b1: Byte, b2: Byte, c0: Byte, c1: Byte, c2: Byte)
    requires EncodeGroup(b0, b1, b2) == EncodeGroup(c0, c1, c2)
    ensures b0 == c0 && b1 == c1 && b2 == c2
  {
    var g, h := EncodeGroup(b0, b1, b2), EncodeGroup(c0, c1, c2);
    assert g[0] == h[0] && g[1] == h[1] && g[2] == h[2] && g[3] == h[3];
    DigitInjective(b0 / 4, c0 / 4);
    DigitInjective(b0 % 4 * 16 + b1 / 16, c0 % 4 * 16 + c1 / 16);
    DigitInjective(b1 % 16 * 4 + b2 / 64, c1 % 16 * 4 + c2 / 64);
    DigitInjective(b2 % 64, c2 % 64);
  }

  lemma EncodeLastInjective(last: seq<Byte>, other: seq<Byte>)
    requires 1 <= |last| <= 2 && |other| == |last| && EncodeLast(last) == EncodeLast(other)
    ensures last == other
  {
    var g, h := EncodeLast(last), EncodeLast(other);
    assert g[0] == h[0] && g[1] == h[1] && g[2] == h[2];
    DigitInjective(last[0] / 4, other[0] / 4);
    if |last| == 1 {
      DigitInjective(last[0] % 4 * 16, other[0] % 4 * 16);
    } else {
      DigitInjective(last[0] % 4 * 16 + last[1] / 16, other[0] % 4 * 16 + other[1] / 16);
      DigitInjective(last[1] % 16 * 4, other[1] % 16 * 4);
    }
  }

  /** Equal encodings of equally long inputs come from equal bytes. */
  lemma {:induction false} EncodeInjective(bytes: seq<Byte>, other: seq<Byte>)
    requires |bytes| == |other| && Encode(bytes) == Encode(other)
    ensures bytes == other
    decreases |bytes|
  {
    if 1 <= |bytes| < 3 {
      EncodeLastInjective(bytes, other);
    } else if |bytes| >= 3 {
      var g, h := EncodeGroup(bytes[0], bytes[1], bytes[2]), EncodeGroup(other[0], other[1], other[2]);
      assert Encode(bytes) == g + Encode(bytes[3..]) && Encode(other) == h + Encode(other[3..]);
      assert g == Encode(bytes)[..4] && h == Encode(other)[..4];
      EncodeGroupInjective(bytes[0], bytes[1], bytes[2], other[0], other[1], other[2]);
      assert Encode(bytes[3..]) == Encode(bytes)[4..] == Encode(other)[4..] == Encode(other[3..]);
      EncodeInjective(bytes[3..], other[3..]);
      assert bytes == bytes[..3] + bytes[3..] && other == other[..3] + other[3..];
    }
  }

  /** A key determines its UUID: two keys are equal only when the two UUIDs are. */
  lemma KeyDeterminesUuid(random1: seq<Byte>, random2: seq<Byte>)
    requires |random1| == 16 && |random2| == 16
    requires GenerateKey(random1) == GenerateKey(random2)
    ensures Uuid4Bytes(random1) == Uuid4Bytes(random2)
  {
    var u1, u2 := Uuid4Bytes(random1), Uuid4Bytes(random2);
    var e1, e2 := Encode(u1), Encode(u2);
    EncodeIsDigitsThenPadding(u1);
    EncodeIsDigitsThenPadding(u2);
    RStripPadding(e1, 22);
    RStripPadding(e2, 22);
    assert e1[..22] == e2[..22];
    assert e1 == e1[..22] + [Pad, Pad] && e2 == e2[..22] + [Pad, Pad];
    EncodeInjective(u1, u2);
  }
}
