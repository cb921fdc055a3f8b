/** The lower-case hexadecimal rendering of an MD5 digest that the document
    store uses as the key of a database row. The digest itself is an oracle;
    what is modelled is the Java loop that turns its signed bytes into text
    through Integer.toHexString. */
module Hex {

  /** A Java `byte`: a signed 8-bit integer. */
  newtype int8 = x: int | -128 <= x < 128

  /** An MD5 digest always has 16 bytes (RFC 1321). */
  type Digest = s: seq<int8> | |s| == 16
    witness [0, 0, 0, 0, 0, 0, 0, 0, 0, 0, 0, 0, 0, 0, 0, 0]

  predicate IsHexChar(c: char) {
    '0' <= c <= '9' || 'a' <= c <= 'f'
  }

  /** The lower-case hexadecimal digit of a value below 16. */
  function Digit(d: nat): (c: char)
    requires d < 16
    ensures IsHexChar(c)
  {
    if d < 10 then ('0' as int + d) as char else ('a' as int + d - 10) as char
  }

  lemma DigitInjective(d: nat, e: nat)
    requires d < 16 && e < 16
    ensures Digit(d) == Digit(e) ==> d == e
  {
  }

  /** The hexadecimal digits of `n`, most significant first, without leading
      zeros ("0" for zero). */
  function HexOf(n: nat): (s: string)
    ensures 1 <= |s|
    ensures s[|s| - 1] == Digit(n % 16)
    decreases n
  {
    if n < 16 then [Digit(n)] else HexOf(n / 16) + [Digit(n % 16)]
  }

  /** A number below 16^k has at most k hex digits, all of them hex characters. */
  lemma {:induction false} HexOfBounded(n: nat, k: nat)
    requires 1 <= k && n < Pow16(k)
    ensures |HexOf(n)| <= k
    ensures forall j :: 0 <= j < |HexOf(n)| ==> IsHexChar(HexOf(n)[j])
  {
    if n >= 16 {
      assert n / 16 < Pow16(k - 1);
      HexOfBounded(n / 16, k - 1);
    }
  }

  function Pow16(k: nat): (p: nat)
    ensures p >= 1
  {
    if k == 0 then 1 else 16 * Pow16(k - 1)
  }

  /** Java's Integer.toHexString: the 32-bit argument read as unsigned. */
  function ToHexString(i: int): (s: string)
    requires -0x8000_0000 <= i < 0x8000_0000
    ensures 1 <= |s| <= 8
    ensures forall k :: 0 <= k < |s| ==> IsHexChar(s[k])
    ensures s[|s| - 1] == Digit((i % 0x1_0000_0000) % 16)
  {
    HexOfBounded(if i < 0 then i + 0x1_0000_0000 else i, 8);
    HexOf(if i < 0 then i + 0x1_0000_0000 else i)
  }

  /** `b & 0xff`: the byte read as unsigned. */
  function Octet(b: int8): (o: nat)
    ensures o < 256
    ensures b >= 0 ==> o == b as int
    ensures b < 0 ==> o == b as int + 256
  {
    (b as int) % 256
  }

  /** The two characters that stand for one byte in the rendered digest. */
  function Pair(b: int8): string {
    [Digit(Octet(b) / 16), Digit(Octet(b) % 16)]
  }

  /** The last two digits of a number of at least two digits are its last
      two base-16 digits. */
  lemma HexOfLastTwo(n: nat)
    requires n >= 16
    ensures |HexOf(n)| >= 2
    ensures HexOf(n)[|HexOf(n)| - 2..] == [Digit((n / 16) % 16), Digit(n % 16)]
  {
    var t := HexOf(n / 16);
    assert HexOf(n) == t + [Digit(n % 16)];
  }

  /** A number of at least 16^k has more than k hex digits. */
  lemma {:induction false} HexOfLong(n: nat, k: nat)
    requires n >= Pow16(k)
    ensures |HexOf(n)| >= k + 1
  {
    if k > 0 {
      HexOfLong(n / 16, k - 1);
    }
  }

  /** Integer.toHexString of a negative byte is eight digits long ("ffffff80"
      and so on); its last two are the digits of `b & 0xff`. */
  lemma NegativeByteHex(b: int8)
    requires b < 0
    ensures |ToHexString(b as int)| == 8
    ensures ToHexString(b as int)[|ToHexString(b as int)| - 2..] == Pair(b)
  {
    var n := b as int + 0x1_0000_0000;
    assert Pow16(7) == 0x1000_0000;
    HexOfLong(n, 7);
    HexOfLastTwo(n);
    var o := Octet(b);
    assert n == o + 16 * 268435440;
    assert n % 16 == o % 16;
    assert n / 16 == o / 16 + 268435440;
    assert (n / 16) % 16 == o / 16;
  }

  /** Integer.toHexString of a byte from 16 to 127 is exactly two digits. */
  lemma TwoDigitByteHex(b: int8)
    requires b >= 16
    ensures ToHexString(b as int) == Pair(b)
  {
    var n := b as int;
    assert HexOf(n) == HexOf(n / 16) + [Digit(n % 16)];
    assert HexOf(n / 16) == [Digit(n / 16)];
  }

  /** What Integer.toHexString makes of any byte: one digit exactly for the
      bytes 0 to 15, otherwise at least two whose last two render `b & 0xff`. */
  lemma ByteToHexString(b: int8)
    ensures var hex := ToHexString(b as int);
      && (|hex| == 1 <==> 0 <= b < 16)
      && (|hex| == 1 ==> hex == [Digit(b as int)])
      && (|hex| != 1 ==> |hex| >= 2 && hex[|hex| - 2..] == Pair(b))
  {
    if b < 0 {
      NegativeByteHex(b);
    } else if b >= 16 {
      TwoDigitByteHex(b);
    }
  }

  /** One step of the rendering loop: the string that Integer.toHexString
      gives for the sign-extended byte, zero-padded when it has one character
      and cut to its last two characters otherwise. Whatever the sign of the
      byte, this is exactly the two-digit hex of `b & 0xff`. */
  function ByteHex(b: int8): (s: string)
    ensures s == Pair(b)
  {
    var hex := ToHexString(b as int);
    ByteToHexString(b);
    if |hex| == 1 then ['0', hex[|hex| - 1]] else hex[|hex| - 2..]
  }

  /** The reference rendering: two lower-case hex digits per byte, in order. */
  function HexDigits(d: seq<int8>): (s: string)
    ensures |s| == 2 * |d|
    ensures forall k :: 0 <= k < |s| ==> IsHexChar(s[k])
  {
    if d == [] then [] else HexDigits(d[..|d| - 1]) + Pair(d[|d| - 1])
  }

  /** The characters at 2i and 2i+1 are the high and low digit of byte i. */
  lemma {:induction false} HexDigitsAt(d: seq<int8>, i: nat)
    requires i < |d|
    ensures HexDigits(d)[2 * i] == Digit(Octet(d[i]) / 16)
    ensures HexDigits(d)[2 * i + 1] == Digit(Octet(d[i]) % 16)
  {
    var front := d[..|d| - 1];
    assert HexDigits(d) == HexDigits(front) + Pair(d[|d| - 1]);
    if i < |d| - 1 {
      HexDigitsAt(front, i);
    }
  }

  /** Different digests give different keys: the rendering loses nothing. */
  lemma HexDigitsInjective(d: seq<int8>, e: seq<int8>)
    requires |d| == |e|
    requires HexDigits(d) == HexDigits(e)
    ensures d == e
  {
    forall i | 0 <= i < |d|
      ensures d[i] == e[i]
    {
      HexDigitsAt(d, i);
      HexDigitsAt(e, i);
      DigitInjective(Octet(d[i]) / 16, Octet(e[i]) / 16);
      DigitInjective(Octet(d[i]) % 16, Octet(e[i]) % 16);
      assert Octet(d[i]) == Octet(e[i]);
    }
  }

  /** The loop of the source's MD5 helper over the digest bytes, appending
      to a string builder. */
  method Md5Hex(digest: seq<int8>) returns (hash: string)
    ensures hash == HexDigits(digest)
  {
    hash := "";
    var i := 0;
    while i < |digest|
      invariant 0 <= i <= |digest|
      invariant hash == HexDigits(digest[..i])
    {
      var hex := ToHexString(digest[i] as int);
      if |hex| == 1 {
        hash := hash + ['0'] + [hex[|hex| - 1]];
      } else {
        hash := hash + hex[|hex| - 2..];
      }
      assert hash == HexDigits(digest[..i]) + ByteHex(digest[i]);
      assert digest[..i + 1][..i] == digest[..i];
      i := i + 1;
    }
    assert digest[..|digest|] == digest;
  }

  /** A digest renders to a 32-character lower-case hex key. */
  lemma DigestKeyShape(d: Digest)
    ensures |HexDigits(d)| == 32
    ensures forall k :: 0 <= k < 32 ==> IsHexChar(HexDigits(d)[k])
  {
  }
}
