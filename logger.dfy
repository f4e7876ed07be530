/**
 * The kernel logger (util/logger.h, util/logger.cpp): `printFormat` with
 * `%c %s %d %i %u %b %x` specifiers, decimal and hexadecimal conversion of
 * 32- and 64-bit numbers, a "next number is hexadecimal" flag that a `%x`
 * sets and a printed number clears, a recursion depth and a spinlock that
 * only the outermost call takes and releases.
 *
 * The output device is reduced to whether one is attached and the sequence
 * of characters it has received so far.
 */
module Logging {
  import opened Machine

  /* ---------------------------------------------------------------------- */
  /* Argument values and logger state                                        */
  /* ---------------------------------------------------------------------- */

  /** One argument of `printFormat`, tagged with the `print` overload it selects. */
  datatype Arg =
    | Character(c: char)
    | Text(s: string)
    | Unsigned32(u: nat)
    | Unsigned64(u: nat)
    | Signed32(i: int)
    | Signed64(i: int)
    | Boolean(b: bool)

  predicate IsI32(x: int) { -0x8000_0000 <= x < 0x8000_0000 }
  predicate IsI64(x: int) { -0x8000_0000_0000_0000 <= x < 0x8000_0000_0000_0000 }

  /** Every number argument fits the width of its C++ type. */
  predicate ArgFits(a: Arg)
  {
    match a
    case Unsigned32(u) => IsU32(u)
    case Unsigned64(u) => IsU64(u)
    case Signed32(i) => IsI32(i)
    case Signed64(i) => IsI64(i)
    case _ => true
  }

  predicate ArgsFit(args: seq<Arg>)
  {
    forall k :: 0 <= k < |args| ==> ArgFits(args[k])
  }

  /**
   * The logger's static state: whether a backing device is attached, the
   * hexadecimal flag, the recursion depth of `printFormat`, whether the
   * logger spinlock is held, and everything the device has received.
   */
  datatype LogState = LogState(attached: bool, hex: bool, depth: nat, locked: bool, output: seq<char>)

  /** Only the output may have grown, and the hexadecimal flag may have changed. */
  predicate Appends(s: LogState, r: LogState)
  {
    r == s.(output := r.output, hex := r.hex) && s.output <= r.output
    && (!s.attached ==> r.output == s.output)
  }

  /* ---------------------------------------------------------------------- */
  /* Digits                                                                  */
  /* ---------------------------------------------------------------------- */

  function Base(hex: bool): nat { if hex then 16 else 10 }

  /** `hexadecimalTranslation` or `decimalTranslation`. */
  function Translation(hex: bool): (t: string)
    ensures |t| == Base(hex)
  {
    if hex then "0123456789abcdef" else "0123456789"
  }

  /** A character of the translation table of the base. */
  predicate IsDigit(c: char, hex: bool) { '0' <= c <= '9' || (hex && 'a' <= c <= 'f') }

  predicate AllDigits(t: string, hex: bool)
  {
    forall k :: 0 <= k < |t| ==> IsDigit(t[k], hex)
  }

  lemma AppendAssociative(a: string, b: string, c: string)
    ensures (a + b) + c == a + (b + c)
  {
  }

  /** The position of a digit character in the translation table. */
  function DigitOf(c: char): nat
  {
    if '0' <= c <= '9' then c as int - '0' as int
    else if 'a' <= c <= 'f' then c as int - 'a' as int + 10
    else 0
  }

  /** The digits of `v`, most significant first, without leading zeros (none for 0). */
  function Digits(v: nat, hex: bool): string
    decreases v
  {
    if v == 0 then [] else Digits(v / Base(hex), hex) + [Translation(hex)[v % Base(hex)]]
  }

  /** The last digit of a non-zero number, and the shorter number before it. */
  lemma DigitsStep(v: nat, hex: bool)
    requires v > 0
    ensures v / Base(hex) < v
    ensures Digits(v, hex) == Digits(v / Base(hex), hex) + [Translation(hex)[v % Base(hex)]]
  {
    if hex {
      assert v / 16 < v;
    } else {
      assert v / 10 < v;
    }
  }

  /** The number a digit string denotes: the inverse of `Digits`. */
  function Value(text: string, hex: bool): nat
  {
    if |text| == 0 then 0
    else Value(text[..|text| - 1], hex) * Base(hex) + DigitOf(text[|text| - 1])
  }

  function Pow(b: nat, n: nat): nat
  {
    if n == 0 then 1 else b * Pow(b, n - 1)
  }

  /** The widths the conversion buffers are sized for. */
  lemma PowFacts()
    ensures Pow(16, 8) == U32Modulus && U32Modulus <= Pow(10, 10)
    ensures Pow(16, 16) == U64Modulus && U64Modulus <= Pow(10, 20)
  {
    assert Pow(16, 4) == 0x1_0000;
    assert Pow(16, 8) == 0x1_0000 * 0x1_0000 by { PowAdd(16, 4, 4); }
    assert Pow(16, 16) == Pow(16, 8) * Pow(16, 8) by { PowAdd(16, 8, 8); }
    assert Pow(10, 5) == 100000;
    assert Pow(10, 10) == 100000 * 100000 by { PowAdd(10, 5, 5); }
    assert Pow(10, 20) == Pow(10, 10) * Pow(10, 10) by { PowAdd(10, 10, 10); }
  }

  lemma {:induction false} PowAdd(b: nat, m: nat, n: nat)
    ensures Pow(b, m + n) == Pow(b, m) * Pow(b, n)
    decreases m
  {
    if m > 0 {
      PowAdd(b, m - 1, n);
      assert Pow(b, m + n) == b * Pow(b, m - 1 + n);
    }
  }

  function Zeros(n: nat): (r: string)
    ensures |r| == n && forall k :: 0 <= k < n ==> r[k] == '0'
  {
    if n == 0 then [] else Zeros(n - 1) + ['0']
  }

  /** `text` with '0' characters in front, to `width` characters. */
  function ZeroPad(text: string, width: nat): (r: string)
    requires |text| <= width
    ensures |r| == width
  {
    Zeros(width - |text|) + text
  }

  lemma DigitOfTranslation(d: nat, hex: bool)
    requires d < Base(hex)
    ensures DigitOf(Translation(hex)[d]) == d && IsDigit(Translation(hex)[d], hex)
  {
  }

  /** Reading back the digits gives the number. */
  lemma {:induction false} DigitsRoundTrip(v: nat, hex: bool)
    ensures Value(Digits(v, hex), hex) == v
    decreases v
  {
    if v > 0 {
      var d := Digits(v / Base(hex), hex);
      var c := Translation(hex)[v % Base(hex)];
      DigitsRoundTrip(v / Base(hex), hex);
      DigitOfTranslation(v % Base(hex), hex);
      assert (d + [c])[..|d|] == d;
    }
  }

  /** Every character is a digit of the base, the first is not '0', and 0 has none. */
  lemma {:induction false} DigitsShape(v: nat, hex: bool)
    ensures (|Digits(v, hex)| == 0) == (v == 0)
    ensures v > 0 ==> Digits(v, hex)[0] != '0'
    ensures AllDigits(Digits(v, hex), hex)
    decreases v
  {
    if v > 0 {
      var b := Base(hex);
      DigitsShape(v / b, hex);
      if v / b == 0 {
        assert 0 < v % b;
        assert Digits(v, hex) == [Translation(hex)[v % b]];
      }
    }
  }

  /** A number below `base^n` has at most `n` digits. */
  lemma {:induction false} DigitsBound(v: nat, hex: bool, n: nat)
    requires v < Pow(Base(hex), n)
    ensures |Digits(v, hex)| <= n
    decreases n
  {
    if v > 0 {
      assert n > 0;
      DigitsBound(v / Base(hex), hex, n - 1);
    }
  }

  /** Leading zeros do not change the value. */
  lemma {:induction false} ValueZeros(n: nat, text: string, hex: bool)
    ensures Value(Zeros(n) + text, hex) == Value(text, hex)
    decreases |text|
  {
    if |text| > 0 {
      var init := text[..|text| - 1];
      ValueZeros(n, init, hex);
      assert (Zeros(n) + text)[..|Zeros(n) + text| - 1] == Zeros(n) + init;
    } else {
      ValueOfZeros(n, hex);
      assert Zeros(n) + text == Zeros(n);
    }
  }

  lemma {:induction false} ValueOfZeros(n: nat, hex: bool)
    ensures Value(Zeros(n), hex) == 0
  {
    if n > 0 {
      ValueOfZeros(n - 1, hex);
      assert Zeros(n) == Zeros(n - 1) + ['0'];
      assert Zeros(n)[..n - 1] == Zeros(n - 1);
      assert DigitOf('0') == 0;
    }
  }

  /** A C string from index `from`: a NUL ends the buffer and none comes before it. */
  predicate Terminated(b: string, from: nat)
  {
    from < |b| && b[|b| - 1] == '\0' && forall k :: from <= k < |b| - 1 ==> b[k] != '\0'
  }

  /** A conversion buffer after the loop: '0' up to `toInsert`, then the digits `d`, then NUL. */
  predicate Filled(b: string, toInsert: int, d: string)
  {
    -1 <= toInsert && toInsert + 1 + |d| == |b| - 1 && b[|b| - 1] == '\0'
    && b[toInsert + 1..|b| - 1] == d && forall k :: 0 <= k <= toInsert ==> b[k] == '0'
  }

  /** One step of the conversion loop: a digit stored just before the ones already written. */
  lemma FilledStep(b: string, toInsert: int, written: string, digit: char)
    requires Filled(b, toInsert, written) && 0 <= toInsert
    ensures Filled(b[toInsert := digit], toInsert - 1, [digit] + written)
  {
    assert b[toInsert := digit][toInsert..|b| - 1] == [digit] + b[toInsert + 1..|b| - 1];
  }

  /** A filled conversion buffer holds no NUL before its end, and from `from` on it reads padding then digits. */
  lemma DigitBuffer(b: string, toInsert: int, d: string, hex: bool, from: nat)
    requires Filled(b, toInsert, d) && AllDigits(d, hex) && from <= toInsert + 1
    ensures Terminated(b, from)
    ensures b[from..|b| - 1] == Zeros(toInsert + 1 - from) + d
  {
    forall k | from <= k < |b| - 1 ensures b[k] != '\0' {
      if k > toInsert {
        assert b[k] == d[k - toInsert - 1];
      }
    }
    assert b[from..|b| - 1] == b[from..toInsert + 1] + b[toInsert + 1..|b| - 1];
    assert b[from..toInsert + 1] == Zeros(toInsert + 1 - from);
  }

  /* ---------------------------------------------------------------------- */
  /* Text of the print overloads                                             */
  /* ---------------------------------------------------------------------- */

  /** The text of a non-zero `u32`: eight zero-padded digits in hexadecimal (`&converted[7]`). */
  function U32Text(value: nat, hex: bool): string
    requires IsU32(value)
  {
    var d := Digits(value, hex);
    PowFacts();
    DigitsBound(value, true, 8);
    if hex then ZeroPad(d, 8) else d
  }

  /** The text of a non-zero `u64`: its digits, in either base without padding. */
  function U64Text(value: nat, hex: bool): string
  {
    Digits(value, hex)
  }

  /** A `u32` has at most eight hexadecimal or ten decimal digits. */
  lemma U32Width(value: nat, hex: bool)
    requires IsU32(value)
    ensures |Digits(value, hex)| <= (if hex then 8 else 10)
  {
    PowFacts();
    DigitsBound(value, hex, if hex then 8 else 10);
  }

  /** A `u64` has at most sixteen hexadecimal or twenty decimal digits. */
  lemma U64Width(value: nat, hex: bool)
    requires IsU64(value)
    ensures |Digits(value, hex)| <= (if hex then 16 else 20)
  {
    PowFacts();
    DigitsBound(value, hex, if hex then 16 else 20);
  }

  /** A hexadecimal `u32` is exactly eight lower-case digits, zero-padded. */
  lemma U32HexText(value: nat)
    requires IsU32(value) && value > 0
    ensures Value(U32Text(value, true), true) == value
    ensures AllDigits(U32Text(value, true), true)
    ensures |U32Text(value, true)| == 8
  {
    var d := Digits(value, true);
    assert value < Pow(16, 8) by { PowFacts(); }
    DigitsBound(value, true, 8);
    var t := Zeros(8 - |d|) + d;
    assert U32Text(value, true) == t;
    DigitsRoundTrip(value, true);
    ValueZeros(8 - |d|, d, true);
    DigitsShape(value, true);
    forall k | 0 <= k < |t| ensures IsDigit(t[k], true) {
      if k >= 8 - |d| {
        assert t[k] == d[k - (8 - |d|)];
      }
    }
  }

  /** A decimal `u32` has at most ten digits and no leading zero. */
  lemma U32DecimalText(value: nat)
    requires IsU32(value) && value > 0
    ensures Value(U32Text(value, false), false) == value
    ensures AllDigits(U32Text(value, false), false)
    ensures 0 < |U32Text(value, false)| <= 10 && U32Text(value, false)[0] != '0'
  {
    assert U32Text(value, false) == Digits(value, false);
    assert value < Pow(10, 10) by { PowFacts(); }
    DigitsBound(value, false, 10);
    DigitsRoundTrip(value, false);
    DigitsShape(value, false);
  }

  /** A `u64` in either base has at most 16 or 20 digits and no leading zero. */
  lemma U64TextMeaning(value: nat, hex: bool)
    requires IsU64(value) && value > 0
    ensures Value(U64Text(value, hex), hex) == value
    ensures AllDigits(U64Text(value, hex), hex)
    ensures 0 < |U64Text(value, hex)| <= (if hex then 16 else 20) && U64Text(value, hex)[0] != '0'
  {
    DigitsRoundTrip(value, hex);
    DigitsShape(value, hex);
    PowFacts();
    DigitsBound(value, hex, if hex then 16 else 20);
  }

  /* ---------------------------------------------------------------------- */
  /* The print overloads on the state                                        */
  /* ---------------------------------------------------------------------- */

  /** `print(char)`: nothing without a device. */
  function EmitChar(s: LogState, c: char): (r: LogState)
    ensures Appends(s, r) && r.hex == s.hex
    ensures s.attached ==> r.output == s.output + [c]
  {
    if s.attached then s.(output := s.output + [c]) else s
  }

  /** `print(const char *)`. */
  function EmitString(s: LogState, t: string): (r: LogState)
    ensures Appends(s, r) && r.hex == s.hex
    ensures s.attached ==> r.output == s.output + t
  {
    if s.attached then s.(output := s.output + t) else s
  }

  /** A number has been printed: its text is sent and the hexadecimal flag is cleared. */
  function EmitNumber(s: LogState, text: string): LogState
  {
    s.(output := s.output + text, hex := false)
  }

  /**
   * `print(u32)`. The early return for zero prints "0" without clearing the
   * hexadecimal flag, so a `%x` whose value is zero stays in force for the
   * next number; `FixedEmitU32` is the corrected overload.
   */
  function EmitU32(s: LogState, value: nat): (r: LogState)
    requires IsU32(value)
    ensures Appends(s, r)
    ensures r.hex == (s.hex && (!s.attached || value == 0))
  {
    if !s.attached then s
    else if value == 0 then EmitChar(s, '0')
    else EmitNumber(s, U32Text(value, s.hex))
  }

  /** `print(u32)` with the flag cleared after a zero too. */
  function FixedEmitU32(s: LogState, value: nat): (r: LogState)
    requires IsU32(value)
    ensures Appends(s, r)
    ensures r.hex == (s.hex && !s.attached)
  {
    if !s.attached then s
    else if value == 0 then EmitNumber(s, "0")
    else EmitNumber(s, U32Text(value, s.hex))
  }

  /** `print(u64)`, with the same early return for zero as `print(u32)`. */
  function EmitU64(s: LogState, value: nat): (r: LogState)
    requires IsU64(value)
    ensures Appends(s, r)
    ensures r.hex == (s.hex && (!s.attached || value == 0))
  {
    if !s.attached then s
    else if value == 0 then EmitChar(s, '0')
    else EmitNumber(s, U64Text(value, s.hex))
  }

  function FixedEmitU64(s: LogState, value: nat): (r: LogState)
    requires IsU64(value)
    ensures Appends(s, r)
    ensures r.hex == (s.hex && !s.attached)
  {
    if !s.attached then s
    else if value == 0 then EmitNumber(s, "0")
    else EmitNumber(s, U64Text(value, s.hex))
  }

  /**
   * `print(i32)`: zero as in `print(u32)`; in hexadecimal the bit pattern,
   * otherwise a '-' and the magnitude; the minimum, whose negation does not
   * fit, is spelled out.
   */
  function EmitI32(s: LogState, value: int): (r: LogState)
    requires IsI32(value)
    ensures Appends(s, r)
    ensures r.hex == (s.hex && (!s.attached || value == 0))
  {
    if !s.attached then s
    else if value == 0 then EmitChar(s, '0')
    else if s.hex then EmitU32(s, WrapU32(value))
    else if value == -2147483648 then EmitString(s, "-" + "2147483648")
    else if value < 0 then EmitU32(EmitChar(s, '-'), -value)
    else EmitU32(s, value)
  }

  function FixedEmitI32(s: LogState, value: int): (r: LogState)
    requires IsI32(value)
    ensures Appends(s, r)
    ensures r.hex == (s.hex && !s.attached)
  {
    if !s.attached then s
    else if value == 0 then EmitNumber(s, "0")
    else if s.hex then FixedEmitU32(s, WrapU32(value))
    else if value == -2147483648 then EmitString(s, "-" + "2147483648")
    else if value < 0 then FixedEmitU32(EmitChar(s, '-'), -value)
    else FixedEmitU32(s, value)
  }

  /**
   * `print(i64)`. Its special case tests -9223372036854775807, which the
   * general path prints the same way, so the minimum -9223372036854775808
   * reaches `-value`: that negation leaves the range of `i64` (see
   * `NegationDefined`); the model takes the mathematical magnitude 2^63,
   * which is what `static_cast<u64>` of the two's-complement wrap gives.
   */
  function EmitI64(s: LogState, value: int): (r: LogState)
    requires IsI64(value)
    ensures Appends(s, r)
    ensures r.hex == (s.hex && (!s.attached || value == 0))
  {
    if !s.attached then s
    else if value == 0 then EmitChar(s, '0')
    else if s.hex then EmitU64(s, WrapU64(value))
    else if value == -9223372036854775807 then EmitString(s, "-" + "9223372036854775807")
    else if value < 0 then EmitU64(EmitChar(s, '-'), -value)
    else EmitU64(s, value)
  }

  /** Whether `print(i64)` as written only negates values whose negation is an `i64`. */
  predicate NegationDefined(s: LogState, value: int)
  {
    s.attached && value != 0 && !s.hex && value != -9223372036854775807 && value < 0 ==> IsI64(-value)
  }

  /** `print(i64)` with the flag cleared after zero and the special case on the true minimum. */
  function FixedEmitI64(s: LogState, value: int): (r: LogState)
    requires IsI64(value)
    ensures Appends(s, r)
    ensures r.hex == (s.hex && !s.attached)
  {
    if !s.attached then s
    else if value == 0 then EmitNumber(s, "0")
    else if s.hex then FixedEmitU64(s, WrapU64(value))
    else if value == -9223372036854775808 then EmitString(s, "-" + "9223372036854775808")
    else if value < 0 then FixedEmitU64(EmitChar(s, '-'), -value)
    else FixedEmitU64(s, value)
  }

  function BoolText(b: bool): string { if b then "<true>" else "<false>" }

  /** `print(bool)`. */
  function EmitBool(s: LogState, b: bool): (r: LogState)
    ensures Appends(s, r) && r.hex == s.hex
  {
    if !s.attached then s else EmitString(s, BoolText(b))
  }

  /** Whether an argument is a number whose value is zero. */
  predicate ZeroNumber(a: Arg)
  {
    match a
    case Unsigned32(u) => u == 0
    case Unsigned64(u) => u == 0
    case Signed32(i) => i == 0
    case Signed64(i) => i == 0
    case _ => false
  }

  predicate IsNumber(a: Arg) { !a.Character? && !a.Text? && !a.Boolean? }

  /** The `print` overload an argument selects. */
  function EmitArg(s: LogState, a: Arg): (r: LogState)
    requires ArgFits(a)
    ensures Appends(s, r)
    ensures r.hex == (s.hex && (!s.attached || !IsNumber(a) || ZeroNumber(a)))
  {
    match a
    case Character(c) => EmitChar(s, c)
    case Text(t) => EmitString(s, t)
    case Unsigned32(u) => EmitU32(s, u)
    case Unsigned64(u) => EmitU64(s, u)
    case Signed32(i) => EmitI32(s, i)
    case Signed64(i) => EmitI64(s, i)
    case Boolean(b) => EmitBool(s, b)
  }

  /** The same selection among the corrected number overloads. */
  function FixedEmitArg(s: LogState, a: Arg): (r: LogState)
    requires ArgFits(a)
    ensures Appends(s, r)
    ensures r.hex == (s.hex && (!s.attached || !IsNumber(a)))
  {
    match a
    case Character(c) => EmitChar(s, c)
    case Text(t) => EmitString(s, t)
    case Unsigned32(u) => FixedEmitU32(s, u)
    case Unsigned64(u) => FixedEmitU64(s, u)
    case Signed32(i) => FixedEmitI32(s, i)
    case Signed64(i) => FixedEmitI64(s, i)
    case Boolean(b) => EmitBool(s, b)
  }

  /* ---------------------------------------------------------------------- */
  /* Number texts                                                            */
  /* ---------------------------------------------------------------------- */

  /** Zero prints "0" and a non-zero number its text, in both versions of the overloads. */
  lemma UnsignedText(s: LogState, value: nat)
    requires s.attached && IsU32(value)
    ensures EmitU32(s, value).output == FixedEmitU32(s, value).output
      == s.output + (if value == 0 then "0" else U32Text(value, s.hex))
    ensures IsU64(value) && EmitU64(s, value).output == FixedEmitU64(s, value).output
      == s.output + (if value == 0 then "0" else U64Text(value, s.hex))
  {
  }

  /** Appending a decimal digit to a number appends its character to the digits. */
  lemma DecimalAppend(v: nat, text: string, d: nat, w: nat) returns (longer: string)
    requires v > 0 && Digits(v, false) == text && d < 10 && w == 10 * v + d
    ensures longer == text + [Translation(false)[d]] && Digits(w, false) == longer
  {
    assert w / 10 == v && w % 10 == d;
    longer := text + [Translation(false)[d]];
  }

  /** The digits of the magnitude of the `i32` minimum. */
  lemma DecimalMinimum32(magnitude: nat)
    requires magnitude == 2147483648
    ensures Digits(magnitude, false) == "2147483648"
  {
    var text := ['2'];
    assert Digits(magnitude / 1000000000, false) == text;
    text := DecimalAppend(magnitude / 1000000000, text, 1, magnitude / 100000000);
    text := DecimalAppend(magnitude / 100000000, text, 4, magnitude / 10000000);
    text := DecimalAppend(magnitude / 10000000, text, 7, magnitude / 1000000);
    text := DecimalAppend(magnitude / 1000000, text, 4, magnitude / 100000);
    text := DecimalAppend(magnitude / 100000, text, 8, magnitude / 10000);
    text := DecimalAppend(magnitude / 10000, text, 3, magnitude / 1000);
    text := DecimalAppend(magnitude / 1000, text, 6, magnitude / 100);
    text := DecimalAppend(magnitude / 100, text, 4, magnitude / 10);
    text := DecimalAppend(magnitude / 10, text, 8, magnitude);
  }

  /** The digits of the magnitude of the `i64` minimum. */
  lemma DecimalMinimum64(magnitude: nat)
    requires magnitude == 9223372036854775808
    ensures Digits(magnitude, false) == "9223372036854775808"
  {
    var text := ['9'];
    assert Digits(magnitude / 1000000000000000000, false) == text;
    text := DecimalAppend(magnitude / 1000000000000000000, text, 2, magnitude / 100000000000000000);
    text := DecimalAppend(magnitude / 100000000000000000, text, 2, magnitude / 10000000000000000);
    text := DecimalAppend(magnitude / 10000000000000000, text, 3, magnitude / 1000000000000000);
    text := DecimalAppend(magnitude / 1000000000000000, text, 3, magnitude / 100000000000000);
    text := DecimalAppend(magnitude / 100000000000000, text, 7, magnitude / 10000000000000);
    text := DecimalAppend(magnitude / 10000000000000, text, 2, magnitude / 1000000000000);
    text := DecimalAppend(magnitude / 1000000000000, text, 0, magnitude / 100000000000);
    text := DecimalAppend(magnitude / 100000000000, text, 3, magnitude / 10000000000);
    text := DecimalAppend(magnitude / 10000000000, text, 6, magnitude / 1000000000);
    text := DecimalAppend(magnitude / 1000000000, text, 8, magnitude / 100000000);
    text := DecimalAppend(magnitude / 100000000, text, 5, magnitude / 10000000);
    text := DecimalAppend(magnitude / 10000000, text, 4, magnitude / 1000000);
    text := DecimalAppend(magnitude / 1000000, text, 7, magnitude / 100000);
    text := DecimalAppend(magnitude / 100000, text, 7, magnitude / 10000);
    text := DecimalAppend(magnitude / 10000, text, 5, magnitude / 1000);
    text := DecimalAppend(magnitude / 1000, text, 8, magnitude / 100);
    text := DecimalAppend(magnitude / 100, text, 0, magnitude / 10);
    text := DecimalAppend(magnitude / 10, text, 8, magnitude);
  }

  /** The digits of the magnitude the `i64` special case tests as written. */
  lemma DecimalAlmostMinimum64(magnitude: nat)
    requires magnitude == 9223372036854775807
    ensures Digits(magnitude, false) == "9223372036854775807"
  {
    var text := ['9'];
    assert Digits(magnitude / 1000000000000000000, false) == text;
    text := DecimalAppend(magnitude / 1000000000000000000, text, 2, magnitude / 100000000000000000);
    text := DecimalAppend(magnitude / 100000000000000000, text, 2, magnitude / 10000000000000000);
    text := DecimalAppend(magnitude / 10000000000000000, text, 3, magnitude / 1000000000000000);
    text := DecimalAppend(magnitude / 1000000000000000, text, 3, magnitude / 100000000000000);
    text := DecimalAppend(magnitude / 100000000000000, text, 7, magnitude / 10000000000000);
    text := DecimalAppend(magnitude / 10000000000000, text, 2, magnitude / 1000000000000);
    text := DecimalAppend(magnitude / 1000000000000, text, 0, magnitude / 100000000000);
    text := DecimalAppend(magnitude / 100000000000, text, 3, magnitude / 10000000000);
    text := DecimalAppend(magnitude / 10000000000, text, 6, magnitude / 1000000000);
    text := DecimalAppend(magnitude / 1000000000, text, 8, magnitude / 100000000);
    text := DecimalAppend(magnitude / 100000000, text, 5, magnitude / 10000000);
    text := DecimalAppend(magnitude / 10000000, text, 4, magnitude / 1000000);
    text := DecimalAppend(magnitude / 1000000, text, 7, magnitude / 100000);
    text := DecimalAppend(magnitude / 100000, text, 7, magnitude / 10000);
    text := DecimalAppend(magnitude / 10000, text, 5, magnitude / 1000);
    text := DecimalAppend(magnitude / 1000, text, 8, magnitude / 100);
    text := DecimalAppend(magnitude / 100, text, 0, magnitude / 10);
    text := DecimalAppend(magnitude / 10, text, 7, magnitude);
  }

  /** A '-' for a negative value, then the decimal digits of the magnitude. */
  function SignedDigits(value: int): string
  {
    (if value < 0 then "-" else "") + Digits(if value < 0 then -value else value, false)
  }

  /**
   * A decimal `i32` is a '-' for a negative value followed by the digits of
   * the magnitude, the minimum included; in hexadecimal it is the eight
   * digits of its two's-complement bit pattern.
   */
  lemma SignedText32(s: LogState, value: int)
    requires s.attached && IsI32(value) && value != 0
    ensures !s.hex ==> EmitI32(s, value).output == s.output + SignedDigits(value)
    ensures s.hex ==> EmitI32(s, value).output == s.output + U32Text(WrapU32(value), true)
    ensures !EmitI32(s, value).hex
  {
    var r := EmitI32(s, value);
    if s.hex {
      assert r == EmitU32(s, WrapU32(value));
    } else if value == -2147483648 {
      assert r == EmitString(s, "-" + "2147483648");
      DecimalMinimum32(-value);
    } else if value < 0 {
      var t := EmitChar(s, '-');
      var d := Digits(-value, false);
      assert r == EmitU32(t, -value);
      assert r.output == (s.output + "-") + d;
      assert SignedDigits(value) == "-" + d;
      AppendAssociative(s.output, "-", d);
    } else {
      assert r == EmitU32(s, value);
      assert r.output == s.output + Digits(value, false);
      assert SignedDigits(value) == [] + Digits(value, false);
    }
  }

  /**
   * The same for `i64`, with the unpadded digits of the 64-bit pattern in
   * hexadecimal; the special case on -9223372036854775807 prints what the
   * general path would, and the minimum goes through the general path.
   */
  lemma SignedText64(s: LogState, value: int)
    requires s.attached && IsI64(value) && value != 0
    ensures !s.hex ==> EmitI64(s, value).output == s.output + SignedDigits(value)
    ensures s.hex ==> EmitI64(s, value).output == s.output + Digits(WrapU64(value), true)
    ensures !EmitI64(s, value).hex
  {
    var r := EmitI64(s, value);
    if s.hex {
      assert r == EmitU64(s, WrapU64(value));
    } else if value == -9223372036854775807 {
      assert r == EmitString(s, "-" + "9223372036854775807");
      DecimalAlmostMinimum64(-value);
    } else if value < 0 {
      var t := EmitChar(s, '-');
      var d := Digits(-value, false);
      assert r == EmitU64(t, -value);
      assert r.output == (s.output + "-") + d;
      assert SignedDigits(value) == "-" + d;
      AppendAssociative(s.output, "-", d);
    } else {
      assert r == EmitU64(s, value);
      assert r.output == s.output + Digits(value, false);
      assert SignedDigits(value) == [] + Digits(value, false);
    }
  }

  /** `print(bool)` sends "<true>" or "<false>". */
  lemma BoolTextSent(s: LogState, b: bool)
    requires s.attached
    ensures EmitBool(s, b).output == s.output + (if b then "<true>" else "<false>")
  {
  }

  /* ---------------------------------------------------------------------- */
  /* Findings                                                                */
  /* ---------------------------------------------------------------------- */

  /**
   * As written, a number argument whose value is zero prints "0" and leaves
   * a pending `%x` in force; the corrected overloads clear it.
   */
  lemma ZeroKeepsHexFlag(s: LogState, a: Arg)
    requires s.attached && ArgFits(a) && ZeroNumber(a)
    ensures EmitArg(s.(hex := true), a) == s.(hex := true, output := s.output + "0")
    ensures FixedEmitArg(s.(hex := true), a) == s.(hex := false, output := s.output + "0")
  {
  }

  /**
   * So, as written, `printFormat("%x%u", 0u, v)` prints "0" and then `v` in
   * hexadecimal, eight digits wide, where the corrected overloads print `v`
   * in decimal.
   */
  lemma HexFlagOutlivesZero(s: LogState, v: nat)
    requires s.attached && IsU32(v) && v != 0
    ensures EmitU32(EmitU32(s.(hex := true), 0), v).output == s.output + "0" + U32Text(v, true)
    ensures FixedEmitU32(FixedEmitU32(s.(hex := true), 0), v).output == s.output + "0" + Digits(v, false)
    ensures |U32Text(v, true)| == 8 && Value(U32Text(v, true), true) == v
  {
    AppendAssociative(s.output, "0", U32Text(v, true));
    AppendAssociative(s.output, "0", Digits(v, false));
    U32HexText(v);
  }

  /**
   * Apart from the flag after a zero the corrected overloads print exactly
   * what the source does, and for every other argument they agree entirely:
   * the two special cases of `print(i64)` print the digits of the general path.
   */
  lemma FixedAgrees(s: LogState, a: Arg)
    requires ArgFits(a)
    ensures FixedEmitArg(s, a).output == EmitArg(s, a).output
    ensures !ZeroNumber(a) ==> FixedEmitArg(s, a) == EmitArg(s, a)
  {
    if a.Signed64? && s.attached && !s.hex {
      if a.i == -9223372036854775807 {
        AlmostMinimumAgrees(s);
      } else if a.i == -9223372036854775808 {
        MinimumAgrees(s);
      }
    }
  }

  lemma AlmostMinimumAgrees(s: LogState)
    requires s.attached && !s.hex
    ensures EmitI64(s, -9223372036854775807) == FixedEmitI64(s, -9223372036854775807)
  {
    var r := FixedEmitI64(s, -9223372036854775807);
    var t := EmitChar(s, '-');
    assert r == FixedEmitU64(t, 9223372036854775807);
    DecimalAlmostMinimum64(9223372036854775807);
    assert r.output == (s.output + "-") + "9223372036854775807";
    AppendAssociative(s.output, "-", "9223372036854775807");
  }

  lemma MinimumAgrees(s: LogState)
    requires s.attached && !s.hex
    ensures EmitI64(s, -9223372036854775808) == FixedEmitI64(s, -9223372036854775808)
  {
    var r := EmitI64(s, -9223372036854775808);
    var t := EmitChar(s, '-');
    assert r == EmitU64(t, 9223372036854775808);
    DecimalMinimum64(9223372036854775808);
    assert r.output == (s.output + "-") + "9223372036854775808";
    AppendAssociative(s.output, "-", "9223372036854775808");
  }

  /**
   * As written, `print(i64)` negates a value outside the range of `i64`
   * exactly when it prints the minimum in decimal; the corrected special
   * case catches that value before the negation.
   */
  lemma MinimumI64Overflows(s: LogState, value: int)
    requires IsI64(value)
    ensures !NegationDefined(s, value) <==> s.attached && !s.hex && value == -9223372036854775808
  {
  }

  /** With the correction every printed number clears the flag. */
  lemma NumberClearsFlag(s: LogState, a: Arg)
    requires s.attached && ArgFits(a) && IsNumber(a)
    ensures !FixedEmitArg(s, a).hex
    ensures !ZeroNumber(a) ==> !EmitArg(s, a).hex
  {
  }

  /* ---------------------------------------------------------------------- */
  /* printFormat                                                             */
  /* ---------------------------------------------------------------------- */

  function InvalidFormat(): string { "<invalid format>" }

  /** The terminal attribute reset "\u001b[0m". */
  function ResetAttributes(): string { ['\U{1b}', '[', '0', 'm'] }

  /** Specifiers that print the next argument as it is. */
  predicate PlainSpecifier(c: char) { c == 'c' || c == 's' || c == 'd' || c == 'i' || c == 'u' || c == 'b' }

  /** The outermost call takes the spinlock on entry ... */
  function Lock(s: LogState): LogState { if s.depth == 0 then s.(locked := true) else s }

  /** ... and releases it on the way out. */
  function Unlock(s: LogState): LogState { if s.depth == 0 then s.(locked := false) else s }

  /** How the state of a call relates to the state it returns. */
  predicate Returns(s: LogState, r: LogState)
  {
    r.depth == s.depth && r.attached == s.attached && s.output <= r.output
    && (!s.attached ==> r.output == s.output)
    && (s.depth == 0 ==> !r.locked) && (s.depth > 0 ==> r.locked == s.locked)
  }

  /**
   * `printFormat(format, args...)`. Without arguments the format is printed
   * verbatim, '%' included; with arguments it is interpreted by `Scan`.
   */
  function Format(s: LogState, format: string, args: seq<Arg>): (r: LogState)
    requires ArgsFit(args)
    ensures Returns(s, r)
    decreases |args|, 2, 0
  {
    if |args| == 0 then Unlock(EmitString(Lock(s), format))
    else Scan(Lock(s), format, args)
  }

  /** The loop of `printFormat` over the rest of the format, with `args[0]` as the pending value. */
  function Scan(s: LogState, rest: string, args: seq<Arg>): (r: LogState)
    requires |args| > 0 && ArgsFit(args)
    ensures Returns(s, r)
    decreases |args|, 1, |rest|
  {
    if |rest| == 0 then Unlock(s)
    else if rest[0] != '%' then Scan(EmitChar(s, rest[0]), rest[1..], args)
    else if |rest| == 1 then
      var t := EmitString(s, InvalidFormat());
      if t.depth == 0 then EmitString(t, ResetAttributes()).(locked := false) else t
    else if PlainSpecifier(rest[1]) then Nest(EmitArg(s, args[0]), rest[2..], args)
    else if rest[1] == 'x' then Nest(EmitArg(s.(hex := true), args[0]), rest[2..], args)
    else Scan(EmitString(s, InvalidFormat()), rest[2..], args)
  }

  /** The recursive call on the rest of the format with the remaining arguments, one level deeper. */
  function Nest(s: LogState, rest: string, args: seq<Arg>): (r: LogState)
    requires |args| > 0 && ArgsFit(args)
    ensures Returns(s, r)
    decreases |args|, 0, 0
  {
    ArgsFitTail(args);
    var inner := Format(s.(depth := s.depth + 1), rest, args[1..]);
    Unlock(inner.(depth := inner.depth - 1))
  }

  lemma ArgsFitTail(args: seq<Arg>)
    requires |args| > 0 && ArgsFit(args)
    ensures ArgsFit(args[1..])
  {
    forall k | 0 <= k < |args| - 1 ensures ArgFits(args[1..][k]) { assert args[1..][k] == args[k + 1]; }
  }

  predicate Literal(p: string) { '%' !in p }

  /** Characters other than '%' are sent verbatim, in order. */
  lemma {:induction false} ScanLiteral(s: LogState, p: string, rest: string, args: seq<Arg>)
    requires |args| > 0 && ArgsFit(args) && Literal(p)
    ensures Scan(s, p + rest, args) == Scan(EmitString(s, p), rest, args)
    decreases |p|
  {
    if |p| == 0 {
      assert p + rest == rest;
      assert EmitString(s, p) == s;
    } else {
      assert (p + rest)[1..] == p[1..] + rest;
      ScanLiteral(EmitChar(s, p[0]), p[1..], rest, args);
      assert p == [p[0]] + p[1..];
      AppendAssociative(s.output, [p[0]], p[1..]);
      assert EmitString(EmitChar(s, p[0]), p[1..]) == EmitString(s, p);
    }
  }

  /** A format without '%' prints the same whatever the arguments. */
  lemma FormatLiteral(s: LogState, p: string, args: seq<Arg>)
    requires ArgsFit(args) && Literal(p)
    ensures Format(s, p, args) == Format(s, p, [])
    ensures s.attached ==> Format(s, p, args).output == s.output + p
  {
    if |args| > 0 {
      ScanLiteral(Lock(s), p, [], args);
      assert p + [] == p;
    }
  }

  /** Without arguments even '%' is printed verbatim, up to the NUL. */
  lemma FormatWithoutArguments(s: LogState, format: string)
    requires s.attached
    ensures Format(s, format, []).output == s.output + format
  {
  }

  /**
   * `%c %s %d %i %u %b` print the next argument through its overload and
   * hand the rest of the format and the remaining arguments to a call one
   * level deeper; `%x` first sets the hexadecimal flag.
   */
  lemma FormatSpecifier(s: LogState, p: string, t: char, rest: string, a: Arg, args: seq<Arg>)
    requires ArgsFit([a] + args) && Literal(p) && (PlainSpecifier(t) || t == 'x')
    ensures ArgFits(a) && ArgsFit(args)
    ensures
      var before := EmitString(Lock(s), p);
      var printed := EmitArg(if t == 'x' then before.(hex := true) else before, a);
      var inner := Format(printed.(depth := s.depth + 1), rest, args);
      var r := Format(s, p + ['%', t] + rest, [a] + args);
      r.output == inner.output && r.hex == inner.hex
  {
    assert ([a] + args)[0] == a;
    assert ArgsFit(args) by {
      forall k | 0 <= k < |args| ensures ArgFits(args[k]) { assert ([a] + args)[k + 1] == args[k]; }
    }
    assert p + ['%', t] + rest == p + (['%', t] + rest);
    ScanLiteral(Lock(s), p, ['%', t] + rest, [a] + args);
    var before := EmitString(Lock(s), p);
    ScanSpecifier(before, t, rest, [a] + args);
    assert ([a] + args)[1..] == args;
  }

  /** A specifier at the head of what `Scan` has left prints the pending value and nests. */
  lemma ScanSpecifier(s: LogState, t: char, rest: string, args: seq<Arg>)
    requires |args| > 0 && ArgsFit(args) && (PlainSpecifier(t) || t == 'x')
    ensures ArgFits(args[0])
    ensures Scan(s, ['%', t] + rest, args) == Nest(EmitArg(if t == 'x' then s.(hex := true) else s, args[0]), rest, args)
  {
    assert (['%', t] + rest)[2..] == rest;
  }

  /** An unknown specifier prints "<invalid format>", is skipped and consumes no argument. */
  lemma FormatUnknownSpecifier(s: LogState, p: string, t: char, rest: string, args: seq<Arg>)
    requires |args| > 0 && ArgsFit(args) && Literal(p)
    requires !PlainSpecifier(t) && t != 'x'
    ensures Format(s, p + ['%', t] + rest, args) == Format(EmitString(EmitString(s, p), InvalidFormat()), rest, args)
  {
    assert p + ['%', t] + rest == p + (['%', t] + rest);
    ScanLiteral(Lock(s), p, ['%', t] + rest, args);
    assert (['%', t] + rest)[2..] == rest;
  }

  /** A trailing '%' prints "<invalid format>", at depth 0 the reset sequence too, and stops. */
  lemma FormatTrailingPercent(s: LogState, p: string, args: seq<Arg>)
    requires |args| > 0 && ArgsFit(args) && Literal(p) && s.attached
    ensures Format(s, p + ['%'], args).output
      == s.output + p + InvalidFormat() + (if s.depth == 0 then ResetAttributes() else [])
  {
    ScanLiteral(Lock(s), p, ['%'], args);
  }

  /* ---------------------------------------------------------------------- */
  /* The logger                                                              */
  /* ---------------------------------------------------------------------- */

  /** The static members of `Logger`, as the fields of one object. */
  class Logger {
    /** `currentOutputDevice != nullptr`. */
    var attached: bool
    /** `shouldNextNumberBeHex`. */
    var hex: bool
    /** `printRecursionDepth`. */
    var depth: nat
    /** Whether `loggerSpinlock` is held. */
    var locked: bool
    /** The characters the device has received. */
    var output: seq<char>

    ghost function View(): LogState
      reads this
    {
      LogState(attached, hex, depth, locked, output)
    }

    /** The initial values of the static members. */
    constructor ()
      ensures View() == LogState(false, false, 0, false, [])
    {
      attached, hex, depth, locked, output := false, false, 0, false, [];
    }

    method SetBackingDevice(present: bool)
      modifies this
      ensures View() == old(View()).(attached := present)
    {
      attached := present;
    }

    method PrintChar(c: char)
      modifies this
      ensures View() == EmitChar(old(View()), c)
    {
      if !attached {
        return;
      }
      output := output + [c];
    }

    /** `print(const char *)`, the string given by its characters before the NUL. */
    method PrintString(t: string)
      modifies this
      ensures View() == EmitString(old(View()), t)
    {
      if !attached {
        return;
      }
      var i := 0;
      while i < |t|
        invariant i <= |t|
        invariant output == old(output) + t[..i]
        invariant View() == old(View()).(output := output)
      {
        assert t[..i + 1] == t[..i] + [t[i]];
        output := output + [t[i]];
        i := i + 1;
      }
      assert t[..i] == t;
    }

    /** `print(const char *)` on a pointer into a conversion buffer, which stops at its NUL. */
    method PrintBuffer(converted: array<char>, from: nat)
      requires Terminated(converted[..], from)
      modifies this
      ensures View() == EmitString(old(View()), converted[from..converted.Length - 1])
    {
      if !attached {
        return;
      }
      var i := from;
      while converted[i] != '\0'
        invariant from <= i < converted.Length
        invariant output == old(output) + converted[from..i]
        invariant View() == old(View()).(output := output)
        decreases converted.Length - i
      {
        assert converted[from..i + 1] == converted[from..i] + [converted[i]];
        output := output + [converted[i]];
        i := i + 1;
      }
    }

    /** A conversion buffer of `size - 1` '0' characters and a NUL. */
    static method ZeroBuffer(size: nat) returns (converted: array<char>)
      requires 1 <= size
      ensures fresh(converted) && converted.Length == size
      ensures converted[size - 1] == '\0'
      ensures forall k :: 0 <= k < size - 1 ==> converted[k] == '0'
    {
      converted := new char[size];
      var i := 0;
      while i < size
        invariant i <= size
        invariant forall k :: 0 <= k < i ==> converted[k] == '0'
      {
        converted[i] := '0';
        i := i + 1;
      }
      converted[size - 1] := '\0';
    }

    /**
     * The conversion loop of `print(u32)` and `print(u64)`: a buffer of
     * `size` '0' characters ending in NUL, filled with digits backwards from
     * `size - 2`; `toInsert` is left just before the first digit.
     */
    static method Convert(value: nat, hex: bool, size: nat) returns (converted: array<char>, toInsert: int)
      requires 2 <= size && |Digits(value, hex)| <= size - 2
      ensures fresh(converted) && converted.Length == size
      ensures Filled(converted[..], toInsert, Digits(value, hex))
    {
      var translation := Translation(hex);
      var base := Base(hex);
      converted := ZeroBuffer(size);
      toInsert := size - 2;
      var valueCopy := value;
      ghost var written: string := [];
      assert Filled(converted[..], toInsert, written);
      while valueCopy != 0
        invariant Filled(converted[..], toInsert, written)
        invariant |Digits(valueCopy, hex)| <= toInsert + 1
        invariant Digits(value, hex) == Digits(valueCopy, hex) + written
        decreases valueCopy
      {
        var next := valueCopy / base;
        var digit := translation[valueCopy % base];
        DigitsStep(valueCopy, hex);
        FilledStep(converted[..], toInsert, written, digit);
        converted[toInsert] := digit;
        AppendAssociative(Digits(next, hex), [digit], written);
        written := [digit] + written;
        valueCopy := next;
        toInsert := toInsert - 1;
      }
    }

    /** `print(u32)`: a zero returns early, before the flag is cleared. */
    method PrintU32(value: nat)
      requires IsU32(value)
      modifies this
      ensures View() == EmitU32(old(View()), value)
    {
      if !attached {
        return;
      }
      if value == 0 {
        PrintChar('0');
        return;
      }
      PrintU32Text(value);
      hex := false;
    }

    /** The conversion of a non-zero `u32` and the print of its buffer, from `&converted[7]` in hexadecimal. */
    method PrintU32Text(value: nat)
      requires IsU32(value) && value > 0 && attached
      modifies this
      ensures View() == EmitString(old(View()), U32Text(value, hex))
    {
      var d := Digits(value, hex);
      U32Width(value, hex);
      DigitsShape(value, hex);
      var converted, toInsert := Convert(value, hex, 16);
      if hex {
        DigitBuffer(converted[..], toInsert, d, hex, 7);
        PrintBuffer(converted, 7);
      } else {
        DigitBuffer(converted[..], toInsert, d, hex, toInsert + 1);
        PrintBuffer(converted, toInsert + 1);
      }
    }

    /** `print(u64)`, with the same early return for zero. */
    method PrintU64(value: nat)
      requires IsU64(value)
      modifies this
      ensures View() == EmitU64(old(View()), value)
    {
      if !attached {
        return;
      }
      if value == 0 {
        PrintChar('0');
        return;
      }
      var d := Digits(value, hex);
      U64Width(value, hex);
      DigitsShape(value, hex);
      var converted, toInsert := Convert(value, hex, 32);
      DigitBuffer(converted[..], toInsert, d, hex, toInsert + 1);
      PrintBuffer(converted, toInsert + 1);
      hex := false;
    }

    method PrintI32(value: int)
      requires IsI32(value)
      modifies this
      ensures View() == EmitI32(old(View()), value)
    {
      if !attached {
        return;
      }
      if value == 0 {
        PrintChar('0');
        return;
      }
      if hex {
        PrintU32(WrapU32(value));
        return;
      }
      if value == -2147483648 {
        PrintString("-" + "2147483648");
        return;
      }
      if value < 0 {
        PrintChar('-');
        PrintU32(-value);
      } else {
        PrintU32(value);
      }
    }

    method PrintI64(value: int)
      requires IsI64(value)
      modifies this
      ensures View() == EmitI64(old(View()), value)
    {
      if !attached {
        return;
      }
      if value == 0 {
        PrintChar('0');
        return;
      }
      if hex {
        PrintU64(WrapU64(value));
        return;
      }
      if value == -9223372036854775807 {
        PrintString("-" + "9223372036854775807");
        return;
      }
      if value < 0 {
        PrintChar('-');
        PrintU64(-value);
      } else {
        PrintU64(value);
      }
    }

    method PrintBool(value: bool)
      modifies this
      ensures View() == EmitBool(old(View()), value)
    {
      if !attached {
        return;
      }
      PrintString(if value then "<true>" else "<false>");
    }

    /** The overload resolution of `print(value)` in `printFormat`. */
    method PrintArg(a: Arg)
      requires ArgFits(a)
      modifies this
      ensures View() == EmitArg(old(View()), a)
    {
      match a
      case Character(c) => PrintChar(c);
      case Text(t) => PrintString(t);
      case Unsigned32(u) => PrintU32(u);
      case Unsigned64(u) => PrintU64(u);
      case Signed32(i) => PrintI32(i);
      case Signed64(i) => PrintI64(i);
      case Boolean(b) => PrintBool(b);
    }

    /** `printFormat(format)`: the format verbatim, under the lock at depth 0. */
    method PrintPlain(format: string)
      modifies this
      ensures View() == Format(old(View()), format, [])
    {
      if depth == 0 {
        locked := true;
      }
      PrintString(format);
      if depth == 0 {
        locked := false;
      }
    }

    /** The recursive call for the rest of the format, one level deeper, and the unlock after it. */
    method PrintDeeper(rest: string, args: seq<Arg>)
      requires |args| > 0 && ArgsFit(args)
      modifies this
      ensures View() == Nest(old(View()), rest, args)
      decreases |args|, 0
    {
      ArgsFitTail(args);
      depth := depth + 1;
      PrintFormat(rest, args[1..]);
      depth := depth - 1;
      if depth == 0 {
        locked := false;
      }
    }

    /** `printFormat(format, value, args...)`, the arguments as a sequence. */
    method PrintFormat(format: string, args: seq<Arg>)
      requires ArgsFit(args)
      modifies this
      ensures View() == Format(old(View()), format, args)
      decreases |args|, 1
    {
      if |args| == 0 {
        PrintPlain(format);
        return;
      }
      if depth == 0 {
        locked := true;
      }
      ghost var start := View();
      var i := 0;
      while i < |format|
        invariant i <= |format|
        invariant Scan(View(), format[i..], args) == Scan(start, format, args)
        decreases |format| - i
      {
        var current := format[i];
        if current == '%' {
          i := i + 1;
          if i == |format| {
            PrintString(InvalidFormat());
            if depth == 0 {
              PrintString(ResetAttributes());
              locked := false;
            }
            return;
          }
          var formatType := format[i];
          assert format[i - 1..][2..] == format[i + 1..];
          if PlainSpecifier(formatType) || formatType == 'x' {
            if formatType == 'x' {
              hex := true;
            }
            PrintArg(args[0]);
            PrintDeeper(format[i + 1..], args);
            return;
          }
          PrintString(InvalidFormat());
        } else {
          assert format[i..][1..] == format[i + 1..];
          PrintChar(current);
        }
        i := i + 1;
      }
      if depth == 0 {
        locked := false;
      }
    }
  }
}
