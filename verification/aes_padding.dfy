/**
 * The framing around the AES cipher on the client channel: `aesEncrypt`
 * ends the JSON text with a newline and pads it with random alphanumeric
 * characters to a whole number of 16-unit blocks; `aesDecrypt` cuts the
 * decrypted text at the last newline that follows a closing brace.
 *
 * Java strings are sequences of UTF-16 code units; here a string is a
 * sequence of Unicode scalar values, so a character above U+FFFF counts
 * as two units of `length()`. The random generator is a parameter: the
 * successive values `nextInt(62)` returns.
 */
module AesPadding {
  import opened JavaTypes

  /** The cipher's block size in bytes. */
  const BlockSize: nat := 16

  /** The characters padding is drawn from: `a`-`z`, `A`-`Z`, `1`-`9`, then `0`. */
  const CharList: string := Run('a', 26) + Run('A', 26) + Run('1', 9) + "0"

  /** `n` consecutive characters starting at `first`. */
  function Run(first: char, n: nat): (s: string)
    requires first as int + n < 0xD800
    ensures |s| == n && forall i | 0 <= i < n :: s[i] as int == first as int + i
    decreases n
  {
    if n == 0 then [] else [first] + Run((first as int + 1) as char, n - 1)
  }

  /** Java `String.length()`: UTF-16 code units. */
  function JavaLength(s: string): (n: nat)
    ensures n >= |s|
  {
    if s == [] then 0 else (if s[0] as int < 0x1_0000 then 1 else 2) + JavaLength(s[1..])
  }

  /** `length()` counts exactly the UTF-16 units the string holds. */
  lemma {:induction false} JavaLengthCountsUnits(s: string)
    ensures JavaLength(s) == |Utf16Units(s)|
  {
    if s != [] {
      JavaLengthCountsUnits(s[1..]);
    }
  }

  /** The length of `getBytes("UTF-8")`. */
  function Utf8Length(s: string): (n: nat)
    ensures n >= |s|
  {
    if s == [] then 0
    else
      var c := s[0] as int;
      (if c < 0x80 then 1 else if c < 0x800 then 2 else if c < 0x1_0000 then 3 else 4) + Utf8Length(s[1..])
  }

  lemma {:induction false} JavaLengthAppend(a: string, b: string)
    ensures JavaLength(a + b) == JavaLength(a) + JavaLength(b)
  {
    if a != [] {
      assert (a + b)[0] == a[0] && (a + b)[1..] == a[1..] + b;
      JavaLengthAppend(a[1..], b);
    } else {
      assert a + b == b;
    }
  }

  lemma {:induction false} Utf8LengthAppend(a: string, b: string)
    ensures Utf8Length(a + b) == Utf8Length(a) + Utf8Length(b)
  {
    if a != [] {
      assert (a + b)[0] == a[0] && (a + b)[1..] == a[1..] + b;
      Utf8LengthAppend(a[1..], b);
    } else {
      assert a + b == b;
    }
  }

  predicate IsAscii(s: string)
  {
    forall i | 0 <= i < |s| :: s[i] as int < 0x80
  }

  /** Plain ASCII text has as many code units and as many UTF-8 bytes as characters. */
  lemma {:induction false} AsciiLengths(s: string)
    requires IsAscii(s)
    ensures JavaLength(s) == |s| && Utf8Length(s) == |s|
  {
    if s != [] {
      assert IsAscii(s[1..]) by {
        forall i | 0 <= i < |s| - 1 ensures s[1..][i] as int < 0x80 {
          assert s[1..][i] == s[i + 1];
        }
      }
      AsciiLengths(s[1..]);
    }
  }

  // ---------------------------------------------------------------------
  // Padding
  // ---------------------------------------------------------------------

  /** Characters needed to reach the next block boundary, none when already on one. */
  function PaddingLength(n: nat): (k: nat)
    ensures k < BlockSize && (n + k) % BlockSize == 0
    ensures n % BlockSize == 0 <==> k == 0
  {
    if n % BlockSize > 0 then BlockSize - n % BlockSize else 0
  }

  /** The length of the character list. */
  const CharCount: nat := 62

  lemma CharListLength()
    ensures |CharList| == CharCount
  {
  }

  /** A value of `nextInt(CharList.length())`. */
  predicate Draw(r: int)
  {
    0 <= r < CharCount
  }

  /** `getRandomNumber`: zero stays zero, any other draw is lowered by one. */
  function RandomIndex(r: int): (i: nat)
    requires Draw(r)
    ensures i < CharCount - 1
    ensures i == 0 <==> r <= 1
  {
    if r - 1 == -1 then r else r - 1
  }

  predicate Alphanumeric(c: char)
  {
    ('a' <= c <= 'z') || ('A' <= c <= 'Z') || ('0' <= c <= '9')
  }

  /** `generatePadding`: one character of the list per draw. */
  function GeneratePadding(draws: seq<int>): (pad: string)
    requires forall k | 0 <= k < |draws| :: Draw(draws[k])
    ensures |pad| == |draws|
    ensures forall k | 0 <= k < |pad| :: Alphanumeric(pad[k])
  {
    if draws == [] then ""
    else
      CharListLength();
      var c := CharList[RandomIndex(draws[0])];
      assert Alphanumeric(c) by {
        CharListAlphanumeric();
      }
      [c] + GeneratePadding(draws[1..])
  }

  lemma CharListAlphanumeric()
    ensures forall i | 0 <= i < |CharList| :: Alphanumeric(CharList[i])
  {
  }

  /** Padding is plain ASCII. */
  lemma PaddingAscii(draws: seq<int>)
    requires forall k | 0 <= k < |draws| :: Draw(draws[k])
    ensures IsAscii(GeneratePadding(draws))
  {
    var pad := GeneratePadding(draws);
    forall i | 0 <= i < |pad| ensures pad[i] as int < 0x80 {
      assert Alphanumeric(pad[i]);
    }
  }

  /** The random source holds enough draws for any padding. */
  predicate Source(draws: seq<int>)
  {
    |draws| >= BlockSize && forall k | 0 <= k < |draws| :: Draw(draws[k])
  }

  /**
   * The plaintext `aesEncrypt` hands the cipher: the message, a newline,
   * and padding up to a multiple of 16 code units.
   */
  function Plaintext(message: string, draws: seq<int>): (t: string)
    requires Source(draws)
    ensures JavaLength(t) % BlockSize == 0
    ensures |message| + 1 <= |t| && t[..|message| + 1] == message + "\n"
    ensures forall k | |message| + 1 <= k < |t| :: Alphanumeric(t[k])
  {
    var complete := message + "\n";
    var pad := GeneratePadding(draws[..PaddingLength(JavaLength(complete))]);
    PadMeasures(draws, JavaLength(complete));
    JavaLengthPadded(complete, pad);
    Framed(message, pad);
    complete + pad
  }

  /** Padding counted in code units, or in bytes, reaches a block boundary in that measure. */
  lemma JavaLengthPadded(complete: string, pad: string)
    requires JavaLength(pad) == PaddingLength(JavaLength(complete))
    ensures JavaLength(complete + pad) % BlockSize == 0
  {
    JavaLengthAppend(complete, pad);
    Aligned(JavaLength(complete));
  }

  lemma Utf8LengthPadded(complete: string, pad: string)
    requires Utf8Length(pad) == PaddingLength(Utf8Length(complete))
    ensures Utf8Length(complete + pad) % BlockSize == 0
  {
    Utf8LengthAppend(complete, pad);
    Aligned(Utf8Length(complete));
  }

  lemma Aligned(n: nat)
    ensures (n + PaddingLength(n)) % BlockSize == 0
  {
  }

  /** The padding for `n` units measures the same in code units and in bytes: its length. */
  lemma PadMeasures(draws: seq<int>, n: nat)
    requires Source(draws)
    ensures var pad := GeneratePadding(draws[..PaddingLength(n)]);
            JavaLength(pad) == PaddingLength(n) && Utf8Length(pad) == PaddingLength(n)
  {
    var ds := draws[..PaddingLength(n)];
    PaddingAscii(ds);
    AsciiLengths(GeneratePadding(ds));
  }

  /** The message, a newline, then the padding. */
  lemma Framed(message: string, pad: string)
    requires forall k | 0 <= k < |pad| :: Alphanumeric(pad[k])
    ensures var t := message + "\n" + pad;
            && |message| + 1 <= |t| && t[..|message| + 1] == message + "\n"
            && forall k | |message| + 1 <= k < |t| :: Alphanumeric(t[k])
  {
    var t := message + "\n" + pad;
    assert t[..|message| + 1] == message + "\n";
    forall k | |message| + 1 <= k < |t| ensures Alphanumeric(t[k]) {
      assert t[k] == pad[k - |message| - 1];
    }
  }

  /**
   * `AES/ECB/NoPadding` accepts the UTF-8 bytes of the plaintext only in
   * whole blocks; otherwise it throws and `aesEncrypt` returns the empty
   * string.
   */
  predicate Encryptable(t: string)
  {
    Utf8Length(t) % BlockSize == 0
  }

  /** For ASCII messages the padding is right: code units and bytes agree. */
  lemma AsciiMessageEncryptable(message: string, draws: seq<int>)
    requires Source(draws) && IsAscii(message)
    ensures Encryptable(Plaintext(message, draws))
  {
    var t := Plaintext(message, draws);
    forall i | 0 <= i < |t| ensures t[i] as int < 0x80 {
      if i < |message| + 1 {
        assert t[i] == (message + "\n")[i];
      } else {
        assert Alphanumeric(t[i]);
      }
    }
    AsciiLengths(t);
  }

  /** Past the message and its newline, every character is one code unit and one byte. */
  lemma FramedLengths(message: string, t: string)
    requires |message| + 1 <= |t| && t[..|message| + 1] == message + "\n"
    requires forall k | |message| + 1 <= k < |t| :: Alphanumeric(t[k])
    ensures JavaLength(t) == JavaLength(message + "\n") + (|t| - |message| - 1)
    ensures Utf8Length(t) == Utf8Length(message + "\n") + (|t| - |message| - 1)
  {
    var n := |message| + 1;
    var tail := t[n..];
    assert t == t[..n] + tail;
    assert IsAscii(tail) by {
      forall i | 0 <= i < |tail| ensures tail[i] as int < 0x80 {
        assert tail[i] == t[i + n];
        assert Alphanumeric(t[i + n]);
      }
    }
    AsciiLengths(tail);
    JavaLengthAppend(t[..n], tail);
    Utf8LengthAppend(t[..n], tail);
  }

  /**
   * A message with one non-ASCII character is padded by its code units
   * and leaves the cipher a byte string one byte past a block boundary.
   */
  lemma NonAsciiNotEncryptable(draws: seq<int>)
    requires Source(draws)
    ensures !Encryptable(Plaintext("\U{E9}}", draws))
  {
    ShortLengths();
    MisalignedWhenMeasuresDiffer("\U{E9}}", draws);
  }

  /**
   * Whenever the message and its newline differ in code units and in
   * bytes by other than a whole number of blocks, the padded plaintext is
   * refused by the cipher.
   */
  lemma MisalignedWhenMeasuresDiffer(message: string, draws: seq<int>)
    requires Source(draws)
    requires (Utf8Length(message + "\n") - JavaLength(message + "\n")) % BlockSize != 0
    ensures !Encryptable(Plaintext(message, draws))
  {
    var t := Plaintext(message, draws);
    FramedLengths(message, t);
    var d := Utf8Length(message + "\n") - JavaLength(message + "\n");
    var q := JavaLength(t) / BlockSize;
    assert Utf8Length(t) == d + BlockSize * q;
    BlockShift(d, q);
  }

  lemma BlockShift(d: int, q: int)
    ensures (d + BlockSize * q) % BlockSize == d % BlockSize
  {
  }

  /** `é}` and a newline: three code units, four bytes. */
  lemma ShortLengths()
    ensures JavaLength("\U{E9}}\n") == 3 && Utf8Length("\U{E9}}\n") == 4
  {
    var h := "\U{E9}}\n";
    assert h[1..] == "}\n" && h[1..][1..] == "\n" && h[1..][1..][1..] == [];
    assert JavaLength(h[1..][1..]) == 1 && Utf8Length(h[1..][1..]) == 1;
  }

  /** The plaintext with the padding counted in UTF-8 bytes, which is what the cipher measures. */
  function PlaintextCorrected(message: string, draws: seq<int>): (t: string)
    requires Source(draws)
    ensures Encryptable(t)
    ensures |message| + 1 <= |t| && t[..|message| + 1] == message + "\n"
    ensures forall k | |message| + 1 <= k < |t| :: Alphanumeric(t[k])
  {
    var complete := message + "\n";
    var pad := GeneratePadding(draws[..PaddingLength(Utf8Length(complete))]);
    PadMeasures(draws, Utf8Length(complete));
    Utf8LengthPadded(complete, pad);
    Framed(message, pad);
    complete + pad
  }

  // ---------------------------------------------------------------------
  // Trimming
  // ---------------------------------------------------------------------

  /** Position `i` holds a newline right after a closing brace. */
  predicate Closes(s: string, i: int)
    requires 1 <= i < |s|
  {
    s[i] == '\n' && s[i - 1] == '}'
  }

  /** The largest `i` in `[1, k)` where `s` closes, if any. */
  function LastClose(s: string, k: nat): (r: Option<nat>)
    requires k <= |s|
    ensures r.Some? ==> 1 <= r.value < k && Closes(s, r.value)
    ensures r.Some? ==> forall j | r.value < j < k :: !Closes(s, j)
    ensures r.None? ==> forall j | 1 <= j < k :: !Closes(s, j)
  {
    if k <= 1 then None
    else if Closes(s, k - 1) then Some(k - 1)
    else LastClose(s, k - 1)
  }

  /**
   * The payload `aesDecrypt` keeps: everything before the last newline
   * that follows a closing brace, or nothing when there is none.
   */
  function Unpadded(s: string): (r: string)
    ensures (exists i | 1 <= i < |s| :: Closes(s, i)) ==>
              exists i | 1 <= i < |s| :: Closes(s, i) && r == s[..i] && forall j | i < j < |s| :: !Closes(s, j)
    ensures (forall i | 1 <= i < |s| :: !Closes(s, i)) ==> r == ""
  {
    match LastClose(s, |s|)
    case None => ""
    case Some(i) => s[..i]
  }

  /** The loop of `aesDecrypt`, scanning down from the end; it keeps what `Unpadded` describes. */
  method Trim(s: string) returns (r: string)
    ensures r == Unpadded(s)
  {
    var newlineIndex := 0;
    var i := |s| - 1;
    while i > 0
      invariant 0 <= i < |s| || (i == -1 && s == [])
      invariant newlineIndex == 0
      invariant LastClose(s, |s|) == LastClose(s, if i < 0 then 0 else i + 1)
    {
      if s[i] == '\n' && s[i - 1] == '}' {
        newlineIndex := i;
        break;
      }
      i := i - 1;
    }
    r := s[..newlineIndex];
  }

  /**
   * A JSON object ends in a closing brace, so the payload survives the
   * padding: decrypting the plaintext gives back the message.
   */
  lemma UnpadPlaintext(message: string, draws: seq<int>)
    requires Source(draws) && |message| > 0 && message[|message| - 1] == '}'
    ensures Unpadded(Plaintext(message, draws)) == message
  {
    var t := Plaintext(message, draws);
    UnpadFramed(message, t);
  }

  /** The same holds with the corrected padding. */
  lemma UnpadPlaintextCorrected(message: string, draws: seq<int>)
    requires Source(draws) && |message| > 0 && message[|message| - 1] == '}'
    ensures Unpadded(PlaintextCorrected(message, draws)) == message
  {
    UnpadFramed(message, PlaintextCorrected(message, draws));
  }

  /** Any text framed as message, newline, alphanumeric tail unpads to the message. */
  lemma UnpadFramed(message: string, t: string)
    requires |message| > 0 && message[|message| - 1] == '}'
    requires |message| + 1 <= |t| && t[..|message| + 1] == message + "\n"
    requires forall k | |message| + 1 <= k < |t| :: Alphanumeric(t[k])
    ensures Unpadded(t) == message
  {
    var n := |message|;
    assert t[n] == '\n' && t[n - 1] == '}' by {
      assert t[n] == t[..n + 1][n] && t[n - 1] == t[..n + 1][n - 1];
    }
    assert Closes(t, n);
    forall j | n < j < |t| ensures !Closes(t, j) {
      assert Alphanumeric(t[j]);
    }
    assert t[..n] == message by {
      assert t[..n] == t[..n + 1][..n];
    }
  }
}
