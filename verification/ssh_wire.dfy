/**
 * The SSH wire encoding of an `ssh-rsa` public key (section 6.6 of RFC
 * 4253): three length-prefixed fields, the algorithm name as a "string"
 * and the exponent and modulus as "mpint"s (section 5 of RFC 4251), each
 * preceded by its length as a four-byte big-endian integer.
 *
 * Bytes are Java `byte`s read as values in 0..255. Base64 around the key
 * and the key factory after it are not part of this model.
 */
module SshWire {
  import opened JavaTypes

  type Byte = b: int | 0 <= b < 256

  // ---------------------------------------------------------------------
  // Two's-complement big-endian integers
  // ---------------------------------------------------------------------

  /**
   * The value of a non-empty big-endian two's-complement byte string, as
   * `new BigInteger(bytes)` and `ByteBuffer.getInt` read it: the first
   * byte carries the sign.
   */
  function Twos(b: seq<Byte>): (x: int)
    requires |b| > 0
    decreases |b|
  {
    if |b| == 1 then (if b[0] >= 128 then b[0] - 256 else b[0])
    else Twos(b[..|b| - 1]) * 256 + b[|b| - 1]
  }

  /**
   * `BigInteger.toByteArray`: the shortest two's-complement big-endian
   * byte string of `x`, always at least one byte.
   */
  function ToByteArray(x: int): (b: seq<Byte>)
    ensures |b| > 0
    ensures x >= 0 ==> b[0] < 128
    ensures x < 0 ==> b[0] >= 128
    decreases if x >= 0 then x else -x
  {
    if -128 <= x < 128 then [x % 256]
    else ToByteArray(x / 256) + [x % 256]
  }

  /** Reading back what `toByteArray` wrote gives the number again. */
  lemma {:induction false} TwosToByteArray(x: int)
    ensures Twos(ToByteArray(x)) == x
    decreases if x >= 0 then x else -x
  {
    if !(-128 <= x < 128) {
      var b := ToByteArray(x);
      assert b[..|b| - 1] == ToByteArray(x / 256);
      TwosToByteArray(x / 256);
    }
  }

  /** The four bytes `write` emits for a length: `(n >>> shift) & 0xFF` for shifts 24, 16, 8, 0. */
  function LengthBytes(n: nat): (b: seq<Byte>)
    requires n <= IntMax
    ensures |b| == 4
  {
    [(n / 0x100_0000) % 256, (n / 0x1_0000) % 256, (n / 0x100) % 256, n % 256]
  }

  /** `getInt` reads a length written by `write` back unchanged. */
  lemma LengthBytesRead(n: nat)
    requires n <= IntMax
    ensures Twos(LengthBytes(n)) == n
  {
    var b := LengthBytes(n);
    assert b[..3][..2] == b[..2] && b[..2][..1] == b[..1];
    assert Twos(b[..1]) == n / 0x100_0000;
    assert Twos(b[..2]) == n / 0x1_0000;
    assert Twos(b[..3]) == n / 0x100;
  }

  // ---------------------------------------------------------------------
  // Fields
  // ---------------------------------------------------------------------

  /** `write`: a field is its length as four big-endian bytes followed by its bytes. */
  function Write(b: seq<Byte>): (w: seq<Byte>)
    requires |b| <= IntMax
    ensures |w| == 4 + |b| && w[4..] == b
  {
    LengthBytes(|b|) + b
  }

  /**
   * `readBytes` at `pos`: the signed four-byte length there, then that many
   * bytes; the result carries the position after them. `None` is an
   * exception: a length or body past the end of the buffer, or a
   * negative length.
   */
  function ReadBytes(buf: seq<Byte>, pos: int): (r: Option<(seq<Byte>, int)>)
    ensures r.Some? ==> 0 <= pos && pos + 4 + |r.value.0| == r.value.1 <= |buf|
                        && r.value.0 == buf[pos + 4..r.value.1]
    ensures r.Some? ==> Twos(buf[pos..pos + 4]) == |r.value.0|
    ensures r.None? ==> pos < 0 || pos + 4 > |buf| || Twos(buf[pos..pos + 4]) < 0
                        || pos + 4 + Twos(buf[pos..pos + 4]) > |buf|
  {
    if pos < 0 || pos + 4 > |buf| then None
    else
      var len := Twos(buf[pos..pos + 4]);
      if len < 0 || pos + 4 + len > |buf| then None
      else Some((buf[pos + 4..pos + 4 + len], pos + 4 + len))
  }

  /** A field written by `write` reads back whole, wherever it sits in the buffer. */
  lemma ReadWrite(before: seq<Byte>, b: seq<Byte>, after: seq<Byte>)
    requires |b| <= IntMax
    ensures ReadBytes(before + Write(b) + after, |before|) == Some((b, |before| + 4 + |b|))
  {
    var buf := before + Write(b) + after;
    var pos := |before|;
    assert buf[pos..pos + 4] == LengthBytes(|b|);
    LengthBytesRead(|b|);
    assert buf[pos + 4..pos + 4 + |b|] == b;
  }

  /** `readMpint`: an empty field is zero, any other is read as a two's-complement number. */
  function ReadMpint(buf: seq<Byte>, pos: int): (r: Option<(int, int)>)
    ensures r.Some? <==> ReadBytes(buf, pos).Some?
    ensures r.Some? && ReadBytes(buf, pos).value.0 == [] ==> r.value.0 == 0
    ensures r.Some? ==> r.value.1 == ReadBytes(buf, pos).value.1
  {
    var field := ReadBytes(buf, pos);
    if field.None? then None
    else Some((if |field.value.0| == 0 then 0 else Twos(field.value.0), field.value.1))
  }

  /** The character US-ASCII decoding gives a byte: itself below 128, U+FFFD otherwise. */
  function AsciiChar(b: Byte): (c: char)
    ensures b < 128 ==> c as int == b
    ensures b >= 128 ==> c == '\U{FFFD}'
  {
    if b < 128 then b as char else '\U{FFFD}'
  }

  function DecodeAscii(b: seq<Byte>): (s: string)
    ensures |s| == |b| && forall i | 0 <= i < |b| :: s[i] == AsciiChar(b[i])
  {
    if b == [] then "" else [AsciiChar(b[0])] + DecodeAscii(b[1..])
  }

  /** `getBytes("US-ASCII")`: a character outside ASCII becomes `?`. */
  function EncodeAscii(s: string): (b: seq<Byte>)
    ensures |b| == |s| && forall i | 0 <= i < |s| :: b[i] == AsciiByte(s[i])
  {
    if s == [] then [] else [AsciiByte(s[0])] + EncodeAscii(s[1..])
  }

  function AsciiByte(c: char): (b: Byte)
    ensures b < 128
    ensures c as int < 128 ==> b == c as int
  {
    if c as int < 128 then c as int else '?' as int
  }

  predicate IsAscii(s: string)
  {
    forall i | 0 <= i < |s| :: s[i] as int < 128
  }

  /** ASCII text survives encoding and decoding. */
  lemma AsciiRoundTrip(s: string)
    requires IsAscii(s)
    ensures DecodeAscii(EncodeAscii(s)) == s
  {
    var t := DecodeAscii(EncodeAscii(s));
    assert forall i | 0 <= i < |s| :: t[i] == s[i];
  }

  /** `readString`: the field's bytes decoded as US-ASCII; an empty field is the empty string. */
  function ReadString(buf: seq<Byte>, pos: int): (r: Option<(string, int)>)
    ensures r.Some? <==> ReadBytes(buf, pos).Some?
    ensures r.Some? ==> |r.value.0| == |ReadBytes(buf, pos).value.0| && r.value.1 == ReadBytes(buf, pos).value.1
  {
    var field := ReadBytes(buf, pos);
    if field.None? then None
    else Some((if |field.value.0| == 0 then "" else DecodeAscii(field.value.0), field.value.1))
  }

  // ---------------------------------------------------------------------
  // Keys
  // ---------------------------------------------------------------------

  const KeyType := "ssh-rsa"

  /** An RSA public key as read from the wire: its algorithm name, exponent and modulus. */
  datatype KeyFields = KeyFields(algorithm: string, exponent: int, modulus: int)

  /** Every field of the encoded key fits a Java array. */
  predicate Encodable(e: int, n: int)
  {
    |ToByteArray(e)| <= IntMax && |ToByteArray(n)| <= IntMax
  }

  /** `encodeRSAPublicKey` before Base64: the name, the exponent, the modulus. */
  function EncodeKey(e: int, n: int): (w: seq<Byte>)
    requires Encodable(e, n)
    ensures |w| == 4 + |KeyType| + 4 + |ToByteArray(e)| + 4 + |ToByteArray(n)|
  {
    Write(EncodeAscii(KeyType)) + Write(ToByteArray(e)) + Write(ToByteArray(n))
  }

  /**
   * `convertEncodedRSAPublicKey` after Base64: name, exponent and modulus
   * read in that order; bytes after the modulus are ignored and the name
   * is not checked. `None` is the caught exception, which leaves the key
   * null.
   */
  function ParseKey(buf: seq<Byte>): (r: Option<KeyFields>)
    ensures r.Some? <==> ReadString(buf, 0).Some?
                         && ReadMpint(buf, ReadString(buf, 0).value.1).Some?
                         && ReadMpint(buf, ReadMpint(buf, ReadString(buf, 0).value.1).value.1).Some?
    ensures r.Some? ==> r.value.algorithm == ReadString(buf, 0).value.0
  {
    match ReadString(buf, 0)
    case None => None
    case Some((name, p1)) =>
      match ReadMpint(buf, p1)
      case None => None
      case Some((e, p2)) =>
        match ReadMpint(buf, p2)
        case None => None
        case Some((n, _)) => Some(KeyFields(name, e, n))
  }

  /** A name written as a US-ASCII field reads back as the same text. */
  lemma ReadWrittenString(before: seq<Byte>, s: string, after: seq<Byte>)
    requires IsAscii(s) && |s| <= IntMax
    ensures var r := ReadString(before + Write(EncodeAscii(s)) + after, |before|);
            r.Some? && r.value.0 == s && r.value.1 == |before| + 4 + |s|
  {
    var b := EncodeAscii(s);
    ReadWrite(before, b, after);
    AsciiRoundTrip(s);
  }

  /** A number written with `toByteArray` reads back as the same number. */
  lemma ReadWrittenMpint(before: seq<Byte>, x: int, after: seq<Byte>)
    requires |ToByteArray(x)| <= IntMax
    ensures ReadMpint(before + Write(ToByteArray(x)) + after, |before|) == Some((x, |before| + 4 + |ToByteArray(x)|))
  {
    ReadWrite(before, ToByteArray(x), after);
    TwosToByteArray(x);
  }

  /** A key encoded by this node parses back to the same name, exponent and modulus. */
  lemma ParseEncodedKey(e: int, n: int, trailing: seq<Byte>)
    requires Encodable(e, n)
    ensures ParseKey(EncodeKey(e, n) + trailing) == Some(KeyFields(KeyType, e, n))
  {
    var name, eb, nb := Write(EncodeAscii(KeyType)), Write(ToByteArray(e)), Write(ToByteArray(n));
    var buf := EncodeKey(e, n) + trailing;
    assert buf == [] + name + (eb + nb + trailing);
    ReadWrittenString([], KeyType, eb + nb + trailing);
    assert buf == name + eb + (nb + trailing);
    ReadWrittenMpint(name, e, nb + trailing);
    assert buf == name + eb + nb + trailing;
    ReadWrittenMpint(name + eb, n, trailing);
  }
}
