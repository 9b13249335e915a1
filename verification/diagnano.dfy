/**
 * DiagVprintfNano of ameba_rom_patch.c: the smaller printf.  It supports the
 * conversions d i u x s c C and %, the flags '0' and ' ' and a decimal width;
 * anything else after '%' (the terminating NUL included) makes it return -1.
 * There is no left alignment and no length modifier, numbers are read as
 * 32-bit int or unsigned int, and hexadecimal digits are lower-case.
 *
 * Numbers go through print_decimal_num, which pads the digits to the width,
 * then writes '-' after the padding and leaves it out of the count.  `fixed`
 * selects the corrected printer instead: print_unsigned_num of the full
 * printf, which counts the sign and writes it before '0' padding.
 */
module DiagNano {

  import opened Bits
  import opened DiagFormat
  import opened DiagPrintf

  /**
   * print_decimal_num as written: lower-case digits padded on the left with
   * `padc` to `padn` digits, then '-' between the padding and the digits.  The
   * count covers the padding and the digits but not the sign.
   */
  function PrintDecimal(unum: nat, radix: nat, padc: char, padn: int, sign: bool): (r: (string, int))
    requires 2 <= radix <= 16
  {
    var d := Digits(unum, radix, false);
    var pads := if padn > |d| then padn - |d| else 0;
    (Pad(pads, padc) + (if sign then "-" else "") + d, pads + |d|)
  }

  /** The count is max(digits, padn); the text is one longer when a sign precedes the digits. */
  lemma PrintDecimalShape(unum: nat, radix: nat, padc: char, padn: int, sign: bool)
    requires 2 <= radix <= 16
    ensures var r := PrintDecimal(unum, radix, padc, padn, sign);
            var d := Digits(unum, radix, false);
            && r.1 == Max(|d|, padn)
            && |r.0| == r.1 + (if sign then 1 else 0)
            && r.0[|r.0| - |d|..] == d
            && (sign ==> r.0[|r.0| - |d| - 1] == '-')
  {
  }

  /** A number conversion, printed by print_decimal_num or, when `fixed`, by print_unsigned_num. */
  function NanoNumber(f: Flags, args: seq<Arg>, radix: nat, signed: bool, fixed: bool): (a: Action)
    requires 2 <= radix <= 16
    ensures a.Print? || a.MissingArg?
    ensures a.Print? ==> a.used == 1 <= |args|
    ensures a.MissingArg? <==> |args| == 0 || !args[0].Num?
  {
    if |args| == 0 || !args[0].Num? then MissingArg
    else
      var num := if signed then ToSigned(args[0].v, U32) else ToUnsigned(args[0].v, U32);
      var r := if fixed then PrintUnsigned(Magnitude(num), radix, f.padc, f.padn, false, num < 0)
               else PrintDecimal(Magnitude(num), radix, f.padc, f.padn, num < 0);
      Print(r.0, r.1, false, 1)
  }

  /**
   * As written the count never exceeds the text and falls short of it only by
   * the sign; the corrected printer counts exactly what it writes.
   */
  lemma NanoNumberCount(f: Flags, args: seq<Arg>, radix: nat, signed: bool, fixed: bool)
    requires 2 <= radix <= 16 && f.Valid()
    ensures var a := NanoNumber(f, args, radix, signed, fixed);
            a.Print? ==> a.n <= |a.text| <= a.n + 1 && (fixed ==> a.n == |a.text|)
    ensures var a := NanoNumber(f, args, radix, signed, fixed);
            a.Print? && !signed ==> a.n == |a.text|
  {
    if |args| > 0 && args[0].Num? {
      var num := if signed then ToSigned(args[0].v, U32) else ToUnsigned(args[0].v, U32);
      PrintDecimalShape(Magnitude(num), radix, f.padc, f.padn, num < 0);
      PrintUnsignedShape(Magnitude(num), radix, f.padc, f.padn, false, num < 0);
    }
  }

  /** The characters the switch of DiagVprintfNano accepts after '%'. */
  predicate NanoKnown(c: char) {
    c == 'i' || c == 'd' || c == 'u' || c == 'x' || c == 's' || c == 'c' || c == 'C' || c == '%' || c == ' ' || IsDigit(c)
  }

  /** The switch of DiagVprintfNano at the `loop:` label. */
  function NanoDecide(c: char, f: Flags, args: seq<Arg>, fixed: bool): (a: Action)
    ensures !a.Next? && !a.Terminator?
    ensures a.Print? ==> a.used <= |args| && c != '\0'
    ensures a.Width? ==> a.skip <= 1 && (a.skip == 0 ==> IsDigit(c)) && c != '\0'
    ensures a.Unsupported? <==> !NanoKnown(c)
  {
    if c == 'i' || c == 'd' then NanoNumber(f, args, 10, true, fixed)
    else if c == 'u' then NanoNumber(f, args, 10, false, fixed)
    else if c == 'x' then NanoNumber(f, args, 16, false, fixed)
    else if c == 's' then
      if |args| == 0 || !args[0].Str? then MissingArg
      else var t := Pad(f.padn - |args[0].s|, f.padc) + args[0].s; Print(t, |t|, false, 1)
    else if c == 'c' || c == 'C' then
      if |args| == 0 || !args[0].Num? then MissingArg
      else var t := Pad(f.padn - 1, f.padc) + [CharOf(args[0].v)]; Print(t, |t|, false, 1)
    else if c == '%' then Print("%", 1, false, 0)
    else if c == '0' then Width(f.(padc := '0', padn := 0), 1)
    else if c == ' ' then Width(f.(padc := ' ', padn := 0), 1)
    else if '1' <= c <= '9' then Width(f.(padc := ' ', padn := 0), 0)
    else Unsupported
  }

  /** The switch keeps the flags valid and never counts more than it prints. */
  lemma NanoDecideCount(c: char, f: Flags, args: seq<Arg>, fixed: bool)
    requires f.Valid()
    ensures var a := NanoDecide(c, f, args, fixed);
            && (a.Print? ==> a.n <= |a.text| && (fixed ==> a.n == |a.text|))
            && (a.Width? ==> a.f.Valid())
  {
    if c == 'i' || c == 'd' {
      NanoNumberCount(f, args, 10, true, fixed);
    } else if c == 'u' {
      NanoNumberCount(f, args, 10, false, fixed);
    } else if c == 'x' {
      NanoNumberCount(f, args, 16, false, fixed);
    }
  }

  /** The outer loop of DiagVprintfNano at position `i`. */
  function NanoScan(fixed: bool, fmt: string, i: nat, args: seq<Arg>, out: string, count: int): Outcome
    requires i <= |fmt|
    decreases |fmt| + 1 - i, 3
  {
    if At(fmt, i) == '\0' then Returned(out, count)
    else if At(fmt, i) == '%' then NanoSpec(fixed, fmt, i + 1, args, out, count, NoFlags)
    else NanoScan(fixed, fmt, i + 1, args, out + [fmt[i]], count + 1)
  }

  /** The `loop:` label. */
  function NanoSpec(fixed: bool, fmt: string, i: nat, args: seq<Arg>, out: string, count: int, f: Flags): Outcome
    requires i <= |fmt|
    decreases |fmt| + 1 - i, 2
  {
    match NanoDecide(At(fmt, i), f, args, fixed)
    case Print(t, n, _, k) => NanoScan(fixed, fmt, i + 1, args[k..], out + t, count + n)
    case Width(f', k) => NanoPadCount(fixed, fmt, i + k, args, out, count, f')
    case MissingArg => BadArg(out)
    case _ => Returned(out, -1)
  }

  /** The `pad_count:` loop; a format ending inside a width returns the count so far. */
  function NanoPadCount(fixed: bool, fmt: string, i: nat, args: seq<Arg>, out: string, count: int, f: Flags): Outcome
    requires i <= |fmt|
    decreases |fmt| + 1 - i, if IsDigit(At(fmt, i)) then 1 else 3
  {
    var ch := At(fmt, i);
    if ch == '\0' then Returned(out, count)
    else if !IsDigit(ch) then NanoSpec(fixed, fmt, i, args, out, count, f)
    else NanoPadCount(fixed, fmt, i + 1, args, out, count, f.(padn := f.padn * 10 + (ch as int - '0' as int)))
  }

  /** DiagVprintfNano as written. */
  function VprintfNano(fmt: string, args: seq<Arg>): Outcome {
    NanoScan(false, fmt, 0, args, [], 0)
  }

  /** DiagVprintfNano with print_unsigned_num in place of print_decimal_num. */
  function VprintfNanoCorrected(fmt: string, args: seq<Arg>): Outcome {
    NanoScan(true, fmt, 0, args, [], 0)
  }

  // ---------------------------------------------------------------------------
  // The count
  // ---------------------------------------------------------------------------

  lemma {:induction false} NanoScanCount(fixed: bool, fmt: string, i: nat, args: seq<Arg>, out: string, count: int)
    requires i <= |fmt| && count <= |out| && (fixed ==> count == |out|)
    ensures var r := NanoScan(fixed, fmt, i, args, out, count);
            !r.ReadsPastEnd?
    ensures var r := NanoScan(fixed, fmt, i, args, out, count);
            r.Returned? && r.ret != -1 ==> r.ret <= |r.out| && (fixed ==> r.ret == |r.out|)
    decreases |fmt| + 1 - i, 3
  {
    if At(fmt, i) != '\0' {
      if At(fmt, i) == '%' {
        NanoSpecCount(fixed, fmt, i + 1, args, out, count, NoFlags);
      } else {
        NanoScanCount(fixed, fmt, i + 1, args, out + [fmt[i]], count + 1);
      }
    }
  }

  lemma {:induction false} NanoSpecCount(fixed: bool, fmt: string, i: nat, args: seq<Arg>, out: string, count: int, f: Flags)
    requires i <= |fmt| && count <= |out| && (fixed ==> count == |out|) && f.Valid()
    ensures var r := NanoSpec(fixed, fmt, i, args, out, count, f);
            !r.ReadsPastEnd?
    ensures var r := NanoSpec(fixed, fmt, i, args, out, count, f);
            r.Returned? && r.ret != -1 ==> r.ret <= |r.out| && (fixed ==> r.ret == |r.out|)
    decreases |fmt| + 1 - i, 2
  {
    var a := NanoDecide(At(fmt, i), f, args, fixed);
    NanoDecideCount(At(fmt, i), f, args, fixed);
    if a.Print? {
      NanoScanCount(fixed, fmt, i + 1, args[a.used..], out + a.text, count + a.n);
    } else if a.Width? {
      NanoPadCountCount(fixed, fmt, i + a.skip, args, out, count, a.f);
    }
  }

  lemma {:induction false} NanoPadCountCount(fixed: bool, fmt: string, i: nat, args: seq<Arg>, out: string, count: int, f: Flags)
    requires i <= |fmt| && count <= |out| && (fixed ==> count == |out|) && f.Valid()
    ensures var r := NanoPadCount(fixed, fmt, i, args, out, count, f);
            !r.ReadsPastEnd?
    ensures var r := NanoPadCount(fixed, fmt, i, args, out, count, f);
            r.Returned? && r.ret != -1 ==> r.ret <= |r.out| && (fixed ==> r.ret == |r.out|)
    decreases |fmt| + 1 - i, if IsDigit(At(fmt, i)) then 1 else 3
  {
    var ch := At(fmt, i);
    if ch != '\0' {
      if !IsDigit(ch) {
        NanoSpecCount(fixed, fmt, i, args, out, count, f);
      } else {
        NanoPadCountCount(fixed, fmt, i + 1, args, out, count, f.(padn := f.padn * 10 + (ch as int - '0' as int)));
      }
    }
  }

  /**
   * DiagVprintfNano never reads past the format's NUL; as written its count
   * can fall short of the output, corrected it is the output's length.
   */
  lemma NanoReturnIsLength(fmt: string, args: seq<Arg>)
    ensures !VprintfNano(fmt, args).ReadsPastEnd?
    ensures var r := VprintfNano(fmt, args);
            r.Returned? && r.ret != -1 ==> r.ret <= |r.out|
    ensures !VprintfNanoCorrected(fmt, args).ReadsPastEnd?
    ensures var r := VprintfNanoCorrected(fmt, args);
            r.Returned? ==> r.ret == |r.out| || r.ret == -1
  {
    NanoScanCount(false, fmt, 0, args, [], 0);
    NanoScanCount(true, fmt, 0, args, [], 0);
  }

  // ---------------------------------------------------------------------------
  // Examples
  // ---------------------------------------------------------------------------

  /** A '%' at the end is an unknown conversion here: -1, and the NUL is not stepped over. */
  lemma NanoTrailingPercent()
    ensures VprintfNano("ab%", []) == Returned("ab", -1)
  {
    var fmt := "ab%";
    assert At(fmt, 0) == 'a' && At(fmt, 1) == 'b' && At(fmt, 2) == '%' && At(fmt, 3) == '\0';
    assert [] + [fmt[0]] == "a" && "a" + [fmt[1]] == "ab";
    assert NanoScan(false, fmt, 0, [], [], 0) == NanoScan(false, fmt, 1, [], "a", 1);
    assert NanoScan(false, fmt, 1, [], "a", 1) == NanoScan(false, fmt, 2, [], "ab", 2);
  }

  /** The pieces of -42 printed with "%05d". */
  lemma FortyTwo()
    ensures Digits(42, 10, false) == "42"
    ensures ToSigned(-42, U32) == -42
    ensures Pad(2, '0') == "00" && Pad(3, '0') == "000"
  {
    assert Digits(4, 10, false) == "4";
    assert Pad(1, '0') == "0";
  }

  lemma FortyTwoAsWritten()
    ensures PrintDecimal(42, 10, '0', 5, true) == ("000-42", 5)
  {
    FortyTwo();
    assert "000" + "-" + "42" == "000-42";
  }

  lemma FortyTwoCorrected()
    ensures PrintUnsigned(42, 10, '0', 5, false, true) == ("-0042", 5)
  {
    FortyTwo();
    assert "-" + "00" + "" + "42" == "-0042";
  }

  /** The text "%05d" gives -42 as written and corrected. */
  function Minus42(fixed: bool): string {
    if fixed then "-0042" else "000-42"
  }

  lemma NanoDecideMinus42(fixed: bool)
    ensures NanoDecide('d', Flags(0, '0', 5, 0), [Num(-42)], fixed) == Print(Minus42(fixed), 5, false, 1)
  {
    FortyTwo();
    if fixed {
      FortyTwoCorrected();
    } else {
      FortyTwoAsWritten();
    }
  }

  /** "%05" is read as the flag '0' and the width 5. */
  lemma Minus42Width(fixed: bool)
    ensures NanoScan(fixed, "%05d", 0, [Num(-42)], [], 0) == NanoPadCount(fixed, "%05d", 3, [Num(-42)], [], 0, Flags(0, '0', 5, 0))
  {
    var fmt := "%05d";
    var args := [Num(-42)];
    var f := NoFlags.(padc := '0', padn := 0);
    assert At(fmt, 0) == '%' && At(fmt, 1) == '0' && At(fmt, 2) == '5';
    assert NanoDecide('0', NoFlags, args, fixed) == Width(f, 1);
    assert NanoSpec(fixed, fmt, 1, args, [], 0, NoFlags) == NanoPadCount(fixed, fmt, 2, args, [], 0, f);
    assert IsDigit('5') && f.(padn := f.padn * 10 + ('5' as int - '0' as int)) == f.(padn := 5);
    assert NanoPadCount(fixed, fmt, 2, args, [], 0, f) == NanoPadCount(fixed, fmt, 3, args, [], 0, f.(padn := 5));
  }

  /** Then 'd' prints the number and the format ends. */
  lemma Minus42Conversion(fixed: bool)
    ensures NanoPadCount(fixed, "%05d", 3, [Num(-42)], [], 0, Flags(0, '0', 5, 0)) == Returned(Minus42(fixed), 5)
  {
    var fmt := "%05d";
    var args := [Num(-42)];
    var f := Flags(0, '0', 5, 0);
    assert At(fmt, 3) == 'd' && At(fmt, 4) == '\0';
    assert NanoPadCount(fixed, fmt, 3, args, [], 0, f) == NanoSpec(fixed, fmt, 3, args, [], 0, f);
    NanoDecideMinus42(fixed);
    var t := Minus42(fixed);
    assert args[1..] == [] && [] + t == t;
    assert NanoSpec(fixed, fmt, 3, args, [], 0, f) == NanoScan(fixed, fmt, 4, [], t, 5);
  }

  /** -42 in "%05d": print_decimal_num writes "000-42" and returns 5, one less than it wrote. */
  lemma NanoSignAsWritten()
    ensures VprintfNano("%05d", [Num(-42)]) == Returned("000-42", 5)
  {
    Minus42Width(false);
    Minus42Conversion(false);
  }

  /** The corrected printer writes "-0042" for the same call and counts all five characters. */
  lemma NanoSignCorrected()
    ensures VprintfNanoCorrected("%05d", [Num(-42)]) == Returned("-0042", 5)
  {
    Minus42Width(true);
    Minus42Conversion(true);
  }
}
