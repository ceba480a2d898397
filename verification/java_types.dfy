/**
 * Java primitive widths and the few casts the node performs on them.
 * Dafny integers are unbounded, so every narrowing or wrapping step of the
 * Java code is written out here once and used everywhere else.
 */
module JavaTypes {

  const IntMin: int := -0x8000_0000
  const IntMax: int := 0x7FFF_FFFF
  const LongMin: int := -0x8000_0000_0000_0000
  const LongMax: int := 0x7FFF_FFFF_FFFF_FFFF

  /** Values of a Java `int`. */
  type Int32 = x: int | -0x8000_0000 <= x < 0x8000_0000

  /** Values of a Java `long`. */
  type Int64 = x: int | -0x8000_0000_0000_0000 <= x < 0x8000_0000_0000_0000

  /** A Java reference that may be null. */
  datatype Option<+T> = None | Some(value: T)

  /**
   * The `(int)` cast of a `long`: keeps the low 32 bits and reads them as a
   * two's-complement `int`.
   */
  function LongToInt(x: Int64): (r: Int32)
    ensures IntMin <= x <= IntMax ==> r == x
    ensures (x - r) % 0x1_0000_0000 == 0
  {
    var low := x % 0x1_0000_0000;
    if low <= IntMax then low else low - 0x1_0000_0000
  }

  /** The result of a Java `long` addition or subtraction whose exact value is `x`. */
  function WrapLong(x: int): (r: Int64)
    ensures LongMin <= x <= LongMax ==> r == x
    ensures (x - r) % 0x1_0000_0000_0000_0000 == 0
  {
    var low := x % 0x1_0000_0000_0000_0000;
    if low <= LongMax then low else low - 0x1_0000_0000_0000_0000
  }

  /** The result of a Java `int` operation whose exact value is `x`. */
  function WrapInt(x: int): (r: Int32)
    ensures IntMin <= x <= IntMax ==> r == x
    ensures (x - r) % 0x1_0000_0000 == 0
  {
    var low := x % 0x1_0000_0000;
    if low <= IntMax then low else low - 0x1_0000_0000
  }

  /** The UTF-16 code units of one character: itself, or a surrogate pair beyond the basic plane. */
  function CharUnits(c: char): (us: seq<int>)
    ensures |us| == (if c as int < 0x1_0000 then 1 else 2)
    ensures forall i | 0 <= i < |us| :: 0 <= us[i] < 0x1_0000
    ensures c as int < 0x1_0000 ==> us == [c as int]
    ensures |us| == 2 ==>
              && 0xD800 <= us[0] < 0xDC00 <= us[1] < 0xE000
              && (us[0] - 0xD800) * 0x400 + (us[1] - 0xDC00) + 0x1_0000 == c as int
  {
    var v := c as int;
    if v < 0x1_0000 then [v]
    else [0xD800 + (v - 0x1_0000) / 0x400, 0xDC00 + (v - 0x1_0000) % 0x400]
  }

  /** The `char` values a Java `String` holds for `s`. */
  function Utf16Units(s: string): (us: seq<int>)
    ensures |us| >= |s|
    ensures forall i | 0 <= i < |us| :: 0 <= us[i] < 0x1_0000
  {
    if s == [] then [] else CharUnits(s[0]) + Utf16Units(s[1..])
  }

  function Min(a: int, b: int): (r: int)
    ensures r <= a && r <= b
    ensures r == a || r == b
  {
    if a <= b then a else b
  }
}
