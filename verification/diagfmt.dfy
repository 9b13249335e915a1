/**
 * Pieces shared by the reduced printf formatters of ameba_rom_patch.c: the
 * digit conversion of `print_unsigned_num`, the padding of `pad_char_control`
 * and `pad_num_control`, and the way a C variadic argument is read back as a
 * value of a given width.
 *
 * `DiagPutChar` is "append to the output", so each printer returns the text it
 * emits together with the count it returns.  Variadic arguments are a list of
 * tagged values.
 */
module DiagFormat {

  import opened Bits

  const U64: nat := 0x1_0000_0000_0000_0000

  /** A variadic argument: an integer or pointer value, or a (non-NULL) string. */
  datatype Arg = Num(v: int) | Str(s: string)

  /**
   * The data model of the target: ILP32 (this chip: long, size_t and pointers
   * are 32 bits) or LP64 (all three are 64 bits).
   */
  datatype Abi = Ilp32 | Lp64
  {
    /** sizeof(size_t) == 8 */
    predicate WideSizeT() { this == Lp64 }
    /** 2^(bits in a pointer) */
    function PtrModulus(): nat { if this == Lp64 then U64 else U32 }
    /** The zero-padded width of a %p conversion: two hex digits per pointer byte. */
    function PtrDigits(): nat { if this == Lp64 then 16 else 8 }
  }

  /**
   * The modulus of the type `get_num_va_args` reads: long long for two or more
   * 'l', long for one, int for none.
   */
  function ArgModulus(abi: Abi, lCount: nat): (m: nat)
    ensures m == U32 || m == U64
    ensures lCount > 1 ==> m == U64
    ensures lCount == 0 ==> m == U32
  {
    if lCount > 1 then U64 else if lCount == 1 then abi.PtrModulus() else U32
  }

  /** `v` read back as a two's-complement value modulo `m`. */
  function ToSigned(v: int, m: nat): (r: int)
    requires m == U32 || m == U64
    ensures -(m / 2) <= r < m / 2
    ensures 0 <= v < m / 2 ==> r == v
    ensures m / 2 <= v < m ==> r == v - m
  {
    var u := v % m;
    if u >= m / 2 then u - m else u
  }

  /** `v` read back as an unsigned value modulo `m`. */
  function ToUnsigned(v: int, m: nat): (r: nat)
    requires m == U32 || m == U64
    ensures r < m
    ensures 0 <= v < m ==> r == v
    ensures v < 0 && v + m >= 0 ==> r == v + m
  {
    v % m
  }

  /** `(unsigned)-num` for a negative `num`, the value itself otherwise (also for the most negative value). */
  function Magnitude(num: int): (r: nat)
    ensures r == num || r == -num
  {
    if num < 0 then -num else num
  }

  /** The character `c` of `char c = va_arg(args, int)`: the low eight bits. */
  function CharOf(v: int): (c: char)
    ensures c as int == v % 256
  {
    (v % 256) as char
  }

  // ---------------------------------------------------------------------------
  // Digits
  // ---------------------------------------------------------------------------

  predicate IsDigit(c: char) { '0' <= c <= '9' }

  /** get_char_upper_lower: '0'-'9', then 'A'... or 'a'... according to `upper`. */
  function DigitChar(rem: nat, upper: bool): (c: char)
    requires rem < 16
    ensures rem < 10 ==> IsDigit(c)
  {
    if rem < 10 then ('0' as int + rem) as char
    else if upper then ('A' as int + (rem - 10)) as char
    else ('a' as int + (rem - 10)) as char
  }

  /** The inverse of DigitChar on its image. */
  function DigitValue(c: char): nat {
    if '0' <= c <= '9' then c as int - '0' as int
    else if 'A' <= c <= 'F' then c as int - 'A' as int + 10
    else if 'a' <= c <= 'f' then c as int - 'a' as int + 10
    else 0
  }

  lemma DigitValueOfChar(rem: nat, upper: bool)
    requires rem < 16
    ensures DigitValue(DigitChar(rem, upper)) == rem
  {
  }

  /**
   * The digits of `n` in base `radix`, most significant first: the C loop
   * stores them least significant first and prints them backwards.  Zero has
   * the one digit '0'.
   */
  function Digits(n: nat, radix: nat, upper: bool): (d: string)
    requires 2 <= radix <= 16
    ensures |d| >= 1
    decreases n
  {
    if n < radix then [DigitChar(n, upper)]
    else Digits(n / radix, radix, upper) + [DigitChar(n % radix, upper)]
  }

  /** The reference reading of a digit string: the number it denotes in base `radix`. */
  function Value(d: string, radix: nat): nat {
    if |d| == 0 then 0 else Value(d[..|d| - 1], radix) * radix + DigitValue(d[|d| - 1])
  }

  /** Appending a digit multiplies by the radix and adds the digit. */
  lemma ValueSnoc(hi: string, c: char, radix: nat)
    ensures Value(hi + [c], radix) == Value(hi, radix) * radix + DigitValue(c)
  {
    assert (hi + [c])[..|hi|] == hi;
  }

  /** Reading the digits back gives the number: the conversion loses nothing. */
  lemma {:induction false} DigitsRoundTrip(n: nat, radix: nat, upper: bool)
    requires 2 <= radix <= 16
    ensures Value(Digits(n, radix, upper), radix) == n
    decreases n
  {
    if n < radix {
      RoundTripDigit(n, radix, upper);
    } else {
      DivShrinks(n, radix);
      DigitsRoundTrip(n / radix, radix, upper);
      RoundTripStep(n, radix, upper);
    }
  }

  /** A single digit reads back as itself. */
  lemma RoundTripDigit(n: nat, radix: nat, upper: bool)
    requires 2 <= radix <= 16 && n < radix
    ensures Value(Digits(n, radix, upper), radix) == n
  {
    var c := DigitChar(n, upper);
    assert Digits(n, radix, upper) == [c];
    assert [c][..0] == [];
    assert Value([c], radix) == DigitValue(c);
    DigitValueOfChar(n, upper);
  }

  /** One more digit: if the leading digits read back as n / radix, all of them read back as n. */
  lemma RoundTripStep(n: nat, radix: nat, upper: bool)
    requires 2 <= radix <= 16 && n >= radix
    requires Value(Digits(n / radix, radix, upper), radix) == n / radix
    ensures Value(Digits(n, radix, upper), radix) == n
  {
    var q, r := n / radix, n % radix;
    var hi, c := Digits(q, radix, upper), DigitChar(r, upper);
    assert Digits(n, radix, upper) == hi + [c];
    ValueSnoc(hi, c, radix);
    DigitValueOfChar(r, upper);
    DivMod(n, radix);
  }

  /** Dividing by the radix shrinks a positive number. */
  lemma DivShrinks(n: nat, d: nat)
    requires n >= 1 && d >= 2
    ensures n / d < n
  {
    var q := n / d;
    assert q * d <= n;
    if q >= n {
      MulLe(n, q, 2, d);
      assert false;
    }
  }

  /** Only zero is written with a leading '0'. */
  lemma {:induction false} DigitsNoLeadingZero(n: nat, radix: nat, upper: bool)
    requires 2 <= radix <= 16
    ensures Digits(n, radix, upper)[0] == '0' <==> n == 0
    decreases n
  {
    if n >= radix {
      var q := n / radix;
      DivLe(radix, n, radix);
      assert q >= 1;
      DivShrinks(n, radix);
      DigitsNoLeadingZero(q, radix, upper);
      assert Digits(n, radix, upper)[0] == Digits(q, radix, upper)[0];
    }
  }

  /** Decimal digits are all in '0'-'9', whatever `upper` says. */
  lemma {:induction false} DecimalDigits(n: nat, upper: bool)
    ensures forall k :: 0 <= k < |Digits(n, 10, upper)| ==> IsDigit(Digits(n, 10, upper)[k])
    ensures Digits(n, 10, upper) == Digits(n, 10, false)
    decreases n
  {
    if n >= 10 {
      DecimalDigits(n / 10, upper);
    }
  }

  // ---------------------------------------------------------------------------
  // Padding and print_unsigned_num
  // ---------------------------------------------------------------------------

  /** `n` copies of `c` (pad_char_control emits nothing for n <= 0). */
  function Pad(n: int, c: char): (s: string)
    ensures |s| == if n > 0 then n else 0
    ensures forall k :: 0 <= k < |s| ==> s[k] == c
    decreases n
  {
    if n <= 0 then [] else [c] + Pad(n - 1, c)
  }

  /** The three padding characters the formatters ever use. */
  predicate PadChar(c: char) { c == '\0' || c == ' ' || c == '0' }

  /**
   * print_unsigned_num: the digits of `unum` padded on the left to `padn`
   * characters with `padc`, the sign counting towards the width.  With '0'
   * padding the '-' comes before the zeros, with space padding after the spaces.
   * Returns the text and the count the C function returns.
   */
  function PrintUnsigned(unum: nat, radix: nat, padc: char, padn: int, upper: bool, sign: bool): (r: (string, int))
    requires 2 <= radix <= 16
  {
    var d := Digits(unum, radix, upper);
    var sgn := if sign then 1 else 0;
    var width := padn - sgn;
    var pads := if width > |d| then width - |d| else 0;
    var before := if sign && padc == '0' then "-" else "";
    var after := if sign && (padc == ' ' || padc == '\0') then "-" else "";
    (before + Pad(pads, padc) + after + d, sgn + pads + |d|)
  }

  /**
   * The count is max(sign + digits, padn); with one of the three padding
   * characters it is the length of the text, which ends in the digits.
   */
  lemma PrintUnsignedShape(unum: nat, radix: nat, padc: char, padn: int, upper: bool, sign: bool)
    requires 2 <= radix <= 16
    ensures var r := PrintUnsigned(unum, radix, padc, padn, upper, sign);
            var d := Digits(unum, radix, upper);
            var sgn := if sign then 1 else 0;
            && r.1 == Max(sgn + |d|, padn)
            && (PadChar(padc) ==> |r.0| == r.1)
            && |r.0| >= |d| && r.0[|r.0| - |d|..] == d
  {
  }

  /** Where the sign goes: first with '0' padding, right before the digits otherwise. */
  lemma PrintUnsignedSign(unum: nat, radix: nat, padc: char, padn: int, upper: bool, sign: bool)
    requires 2 <= radix <= 16 && PadChar(padc)
    ensures var s := PrintUnsigned(unum, radix, padc, padn, upper, sign).0;
            var d := Digits(unum, radix, upper);
            && (sign && padc == '0' ==> s[0] == '-')
            && (sign && padc != '0' ==> s[|s| - |d| - 1] == '-')
            && (!sign ==> forall k :: 0 <= k < |s| - |d| ==> s[k] == padc)
  {
    PrintUnsignedShape(unum, radix, padc, padn, upper, sign);
  }

  /**
   * pad_num_control: with `right` the number is printed unpadded and spaces
   * are added after it, but only when `padc` is ' '; otherwise
   * print_unsigned_num pads on the left.
   */
  function PadNum(unum: nat, radix: nat, padc: char, padn: int, upper: bool, sign: bool, right: bool): (r: (string, int))
    requires 2 <= radix <= 16
  {
    if right then
      var (s, width) := PrintUnsigned(unum, radix, padc, 0, upper, sign);
      if padn > width && padc == ' ' then (s + Pad(padn - width, padc), width + (padn - width))
      else (s, width)
    else PrintUnsigned(unum, radix, padc, padn, upper, sign)
  }

  /** pad_num_control counts what it prints, and only pads on the right with spaces. */
  lemma PadNumShape(unum: nat, radix: nat, padc: char, padn: int, upper: bool, sign: bool, right: bool)
    requires 2 <= radix <= 16
    ensures var r := PadNum(unum, radix, padc, padn, upper, sign, right);
            && (PadChar(padc) ==> |r.0| == r.1)
            && (right && padc != ' ' ==> r == PrintUnsigned(unum, radix, padc, 0, upper, sign))
            && (!right ==> r == PrintUnsigned(unum, radix, padc, padn, upper, sign))
  {
    PrintUnsignedShape(unum, radix, padc, 0, upper, sign);
    PrintUnsignedShape(unum, radix, padc, padn, upper, sign);
  }

  /**
   * Left alignment: the number comes first, and it is padded to `padn` with
   * spaces; a '0' flag together with '-' gives no padding at all.
   */
  lemma PadNumRight(unum: nat, radix: nat, padc: char, padn: int, upper: bool, sign: bool)
    requires 2 <= radix <= 16 && PadChar(padc)
    ensures var r := PadNum(unum, radix, padc, padn, upper, sign, true);
            var n := PrintUnsigned(unum, radix, padc, 0, upper, sign).0;
            && |n| <= |r.0| && r.0[..|n|] == n
            && (padc == ' ' ==> |r.0| == Max(|n|, padn))
            && (padc != ' ' ==> |r.0| == |n|)
  {
    PrintUnsignedShape(unum, radix, padc, 0, upper, sign);
  }
}
