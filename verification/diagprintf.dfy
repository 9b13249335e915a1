/**
 * DiagVprintf of ameba_rom_patch.c: a reduced printf.  It copies literal
 * characters, and after '%' runs the `loop:` switch over flags ('-', '0',
 * ' ', a width, 'l'/'L', 'z') and conversions (d i u b B o O x X p s c C %).
 * Any other character makes it return -1; a format ending inside a width
 * returns the count so far.  `upper` is set by %X and %p and never reset.
 *
 * The format is a C string: position |fmt| holds its terminating NUL, and
 * reading a position past that one leaves the string (`ReadsPastEnd`).  The
 * C code does that when the format ends right after '%' or after a flag, as
 * in "abc%": `case '\0'` breaks out of the switch and the `fmt++` after it
 * steps over the terminator.  `stop` selects the corrected reading, in which
 * that case returns the count like the end of a width does.
 */
module DiagPrintf {

  import opened Bits
  import opened DiagFormat

  /** The per-conversion state reset at the top of the loop (count and upper persist). */
  datatype Flags = Flags(lCount: nat, padc: char, padn: int, right: nat)
  {
    predicate Valid() { PadChar(padc) }
  }

  const NoFlags: Flags := Flags(0, '\0', 0, 0)

  /** How a call ends: the text emitted and the value returned, or undefined behaviour. */
  datatype Outcome =
    | Returned(out: string, ret: int)
    | ReadsPastEnd(out: string)   // the scan stepped over the terminating NUL
    | BadArg(out: string)         // a conversion found no argument of its type

  /** The character at `i`: the format's own, or its terminating NUL. */
  function At(fmt: string, i: nat): (c: char)
    requires i <= |fmt|
    ensures i < |fmt| ==> c == fmt[i]
  {
    if i < |fmt| then fmt[i] else '\0'
  }

  /** What the switch does with one character. */
  datatype Action =
    | Print(text: string, n: int, upper: bool, used: nat)  // a conversion: emit, count, consume
    | Next(f: Flags)                                         // 'l', 'L', '-', 'z' (narrow size_t)
    | Width(f: Flags, skip: nat)                             // '0', ' ' (skip 1) or '1'-'9' (skip 0)
    | Unsupported                                            // return -1
    | Terminator                                             // case '\0'
    | MissingArg

  /** A number conversion: read the argument, print it through pad_num_control. */
  function Number(abi: Abi, f: Flags, upper: bool, args: seq<Arg>, radix: nat, signed: bool): (a: Action)
    requires 2 <= radix <= 16
    ensures a.Print? ==> a.used == 1 <= |args| && a.upper == upper
    ensures a.MissingArg? <==> |args| == 0 || !args[0].Num?
  {
    if |args| == 0 || !args[0].Num? then MissingArg
    else
      var m := ArgModulus(abi, f.lCount);
      if signed then
        var num := ToSigned(args[0].v, m);
        var r := PadNum(Magnitude(num), radix, f.padc, f.padn, upper, num < 0, f.right != 0);
        Print(r.0, r.1, upper, 1)
      else
        var r := PadNum(ToUnsigned(args[0].v, m), radix, f.padc, f.padn, upper, false, f.right != 0);
        Print(r.0, r.1, upper, 1)
  }

  lemma NumberCount(abi: Abi, f: Flags, upper: bool, args: seq<Arg>, radix: nat, signed: bool)
    requires 2 <= radix <= 16 && f.Valid()
    ensures var a := Number(abi, f, upper, args, radix, signed);
            a.Print? || a.MissingArg?
    ensures var a := Number(abi, f, upper, args, radix, signed);
            a.Print? ==> |a.text| == a.n
  {
    if |args| > 0 && args[0].Num? {
      var m := ArgModulus(abi, f.lCount);
      var num := ToSigned(args[0].v, m);
      PadNumShape(Magnitude(num), radix, f.padc, f.padn, upper, num < 0, f.right != 0);
      PadNumShape(ToUnsigned(args[0].v, m), radix, f.padc, f.padn, upper, false, f.right != 0);
    }
  }

  /** %s: the string padded to `padn` on the side `right` selects, with `padc`. */
  function Text(s: string, f: Flags): (t: string)
  {
    if f.right == 0 then Pad(f.padn - |s|, f.padc) + s else s + Pad(f.padn - |s|, f.padc)
  }

  /** %s keeps the string whole and pads it to the width on one side. */
  lemma TextShape(s: string, f: Flags)
    ensures var t := Text(s, f);
            && |t| == Max(|s|, f.padn)
            && (f.right == 0 ==> t[|t| - |s|..] == s)
            && (f.right != 0 ==> t[..|s|] == s)
  {
  }

  /** %c: one character padded to `padn`. */
  function CharText(c: char, f: Flags): (t: string)
  {
    if f.right == 0 then Pad(f.padn - 1, f.padc) + [c] else [c] + Pad(f.padn - 1, f.padc)
  }

  /** %c prints its character once, padded to the width. */
  lemma CharTextShape(c: char, f: Flags)
    ensures var t := CharText(c, f);
            && |t| == Max(1, f.padn)
            && (f.right == 0 ==> t[|t| - 1] == c)
            && (f.right != 0 ==> t[0] == c)
  {
  }

  /** The conversion characters of the switch. */
  predicate IsConversion(c: char) {
    c == 'i' || c == 'd' || c == 'u' || c == 'B' || c == 'b' || c == 'O' || c == 'o' ||
    c == 'X' || c == 'x' || c == 'p' || c == 's' || c == 'c' || c == 'C' || c == '%'
  }

  /** The flag and length characters of the switch, and the terminator. */
  predicate IsFlag(c: char) {
    c == 'z' || c == 'L' || c == 'l' || c == '-' || c == '0' || c == ' ' || c == '\0' || '1' <= c <= '9'
  }

  /** The conversion cases of the switch. */
  function Conversion(abi: Abi, c: char, f: Flags, upper: bool, args: seq<Arg>): (a: Action)
    requires IsConversion(c)
    ensures a.Print? || a.MissingArg?
    ensures a.Print? ==> a.used <= |args|
    ensures a.Print? ==> (a.upper <==> upper || c == 'X' || c == 'p')
  {
    if c == 'i' || c == 'd' then Number(abi, f, upper, args, 10, true)
    else if c == 'u' then Number(abi, f, upper, args, 10, false)
    else if c == 'B' || c == 'b' then Number(abi, f, upper, args, 2, false)
    else if c == 'O' || c == 'o' then Number(abi, f, upper, args, 8, false)
    else if c == 'X' then Number(abi, f, true, args, 16, false)
    else if c == 'x' then Number(abi, f, upper, args, 16, false)
    else if c == 'p' then
      if |args| == 0 || !args[0].Num? then MissingArg
      else
        var r := PadNum(ToUnsigned(args[0].v, abi.PtrModulus()), 16, '0', abi.PtrDigits(), true, false, f.right != 0);
        Print(r.0, r.1, true, 1)
    else if c == 's' then
      if |args| == 0 || !args[0].Str? then MissingArg
      else var t := Text(args[0].s, f); Print(t, |t|, upper, 1)
    else if c == 'c' || c == 'C' then
      if |args| == 0 || !args[0].Num? then MissingArg
      else var t := CharText(CharOf(args[0].v), f); Print(t, |t|, upper, 1)
    else Print("%", 1, upper, 0)
  }

  /** Every conversion counts exactly the characters it emits. */
  lemma ConversionCount(abi: Abi, c: char, f: Flags, upper: bool, args: seq<Arg>)
    requires IsConversion(c) && f.Valid()
    ensures var a := Conversion(abi, c, f, upper, args);
            a.Print? ==> |a.text| == a.n
  {
    if c == 'i' || c == 'd' {
      NumberCount(abi, f, upper, args, 10, true);
    } else if c == 'u' {
      NumberCount(abi, f, upper, args, 10, false);
    } else if c == 'B' || c == 'b' {
      NumberCount(abi, f, upper, args, 2, false);
    } else if c == 'O' || c == 'o' {
      NumberCount(abi, f, upper, args, 8, false);
    } else if c == 'X' {
      NumberCount(abi, f, true, args, 16, false);
    } else if c == 'x' {
      NumberCount(abi, f, upper, args, 16, false);
    }
  }

  /** The `switch (*fmt)` at the `loop:` label. */
  function Decide(abi: Abi, c: char, f: Flags, upper: bool, args: seq<Arg>): (a: Action)
    ensures a.Terminator? <==> c == '\0'
    ensures a.Unsupported? <==> (c == 'z' && abi.WideSizeT()) || (!IsConversion(c) && !IsFlag(c))
    ensures a.Print? ==> a.used <= |args|
    ensures a.Next? ==> c != '\0'
    ensures a.Width? ==> a.skip <= 1 && (a.skip == 0 ==> IsDigit(c))
  {
    if IsConversion(c) then Conversion(abi, c, f, upper, args)
    else if c == 'z' then (if abi.WideSizeT() then Unsupported else Next(f))
    else if c == 'L' || c == 'l' then Next(f.(lCount := f.lCount + 1))
    else if c == '-' then Next(f.(right := f.right + 1))
    else if c == '0' then Width(f.(padc := '0', padn := 0), 1)
    else if c == ' ' then Width(f.(padc := ' ', padn := 0), 1)
    else if c == '\0' then Terminator
    else if '1' <= c <= '9' then Width(f.(padc := ' ', padn := 0), 0)
    else Unsupported
  }

  /** The switch keeps the padding character one of '\0', ' ', '0' and counts what it prints. */
  lemma DecideCount(abi: Abi, c: char, f: Flags, upper: bool, args: seq<Arg>)
    requires f.Valid()
    ensures var a := Decide(abi, c, f, upper, args);
            && (a.Print? ==> |a.text| == a.n)
            && (a.Next? ==> a.f.Valid())
            && (a.Width? ==> a.f.Valid())
  {
    if IsConversion(c) {
      ConversionCount(abi, c, f, upper, args);
    }
  }

  /** The outer `while (*fmt != '\0')` loop at position `i`. */
  function Scan(abi: Abi, stop: bool, fmt: string, i: nat, args: seq<Arg>, out: string, count: int, upper: bool): Outcome
    requires i <= |fmt| + 1
    decreases |fmt| + 2 - i, 3
  {
    if i > |fmt| then ReadsPastEnd(out)
    else if At(fmt, i) == '\0' then Returned(out, count)
    else if At(fmt, i) == '%' then Spec(abi, stop, fmt, i + 1, args, out, count, upper, NoFlags)
    else Scan(abi, stop, fmt, i + 1, args, out + [fmt[i]], count + 1, upper)
  }

  /** The `loop:` label: the switch on the character at `i`. */
  function Spec(abi: Abi, stop: bool, fmt: string, i: nat, args: seq<Arg>, out: string, count: int, upper: bool, f: Flags): Outcome
    requires i <= |fmt|
    decreases |fmt| + 2 - i, 2
  {
    match Decide(abi, At(fmt, i), f, upper, args)
    case Print(t, n, u, k) => Scan(abi, stop, fmt, i + 1, args[k..], out + t, count + n, u)
    case Next(f') => Spec(abi, stop, fmt, i + 1, args, out, count, upper, f')
    case Width(f', k) => PadCount(abi, stop, fmt, i + k, args, out, count, upper, f')
    case Unsupported => Returned(out, -1)
    case Terminator => if stop then Returned(out, count) else Scan(abi, stop, fmt, i + 1, args, out, count, upper)
    case MissingArg => BadArg(out)
  }

  /** The `pad_count:` loop: accumulate width digits, then go back to the switch. */
  function PadCount(abi: Abi, stop: bool, fmt: string, i: nat, args: seq<Arg>, out: string, count: int, upper: bool, f: Flags): Outcome
    requires i <= |fmt|
    decreases |fmt| + 2 - i, if IsDigit(At(fmt, i)) then 1 else 3
  {
    var ch := At(fmt, i);
    if ch == '\0' then Returned(out, count)
    else if !IsDigit(ch) then Spec(abi, stop, fmt, i, args, out, count, upper, f)
    else PadCount(abi, stop, fmt, i + 1, args, out, count, upper, f.(padn := f.padn * 10 + (ch as int - '0' as int)))
  }

  /** DiagVprintf as written. */
  function Vprintf(abi: Abi, fmt: string, args: seq<Arg>): Outcome {
    Scan(abi, false, fmt, 0, args, [], 0, false)
  }

  /** DiagVprintf with `case '\0'` returning the count instead of stepping past the terminator. */
  function VprintfCorrected(abi: Abi, fmt: string, args: seq<Arg>): Outcome {
    Scan(abi, true, fmt, 0, args, [], 0, false)
  }

  // ---------------------------------------------------------------------------
  // The count is the number of characters emitted
  // ---------------------------------------------------------------------------

  /** Every normal return is -1 or the number of characters emitted. */
  lemma {:induction false} ScanCount(abi: Abi, stop: bool, fmt: string, i: nat, args: seq<Arg>, out: string, count: int, upper: bool)
    requires i <= |fmt| + 1 && count == |out|
    ensures var r := Scan(abi, stop, fmt, i, args, out, count, upper);
            r.Returned? ==> r.ret == |r.out| || r.ret == -1
    decreases |fmt| + 2 - i, 3
  {
    if i <= |fmt| && At(fmt, i) != '\0' {
      if At(fmt, i) == '%' {
        SpecCount(abi, stop, fmt, i + 1, args, out, count, upper, NoFlags);
      } else {
        ScanCount(abi, stop, fmt, i + 1, args, out + [fmt[i]], count + 1, upper);
      }
    }
  }

  lemma {:induction false} SpecCount(abi: Abi, stop: bool, fmt: string, i: nat, args: seq<Arg>, out: string, count: int, upper: bool, f: Flags)
    requires i <= |fmt| && count == |out| && f.Valid()
    ensures var r := Spec(abi, stop, fmt, i, args, out, count, upper, f);
            r.Returned? ==> r.ret == |r.out| || r.ret == -1
    decreases |fmt| + 2 - i, 2
  {
    DecideCount(abi, At(fmt, i), f, upper, args);
    var a := Decide(abi, At(fmt, i), f, upper, args);
    if a.Print? {
      SpecPrintCount(abi, stop, fmt, i, args, out, count, upper, f);
    } else if a.Next? {
      SpecCount(abi, stop, fmt, i + 1, args, out, count, upper, a.f);
    } else if a.Width? {
      PadCountCount(abi, stop, fmt, i + a.skip, args, out, count, upper, a.f);
    } else if a.Terminator? && !stop {
      ScanCount(abi, stop, fmt, i + 1, args, out, count, upper);
    }
  }

  /** A conversion that prints: its text is counted, and the rest of the scan counts. */
  lemma {:induction false} SpecPrintCount(abi: Abi, stop: bool, fmt: string, i: nat, args: seq<Arg>, out: string, count: int, upper: bool, f: Flags)
    requires i <= |fmt| && count == |out| && f.Valid()
    requires Decide(abi, At(fmt, i), f, upper, args).Print?
    ensures var r := Spec(abi, stop, fmt, i, args, out, count, upper, f);
            r.Returned? ==> r.ret == |r.out| || r.ret == -1
    decreases |fmt| + 2 - i, 1
  {
    DecideCount(abi, At(fmt, i), f, upper, args);
    var a := Decide(abi, At(fmt, i), f, upper, args);
    ScanCount(abi, stop, fmt, i + 1, args[a.used..], out + a.text, count + a.n, a.upper);
  }

  lemma {:induction false} PadCountCount(abi: Abi, stop: bool, fmt: string, i: nat, args: seq<Arg>, out: string, count: int, upper: bool, f: Flags)
    requires i <= |fmt| && count == |out| && f.Valid()
    ensures var r := PadCount(abi, stop, fmt, i, args, out, count, upper, f);
            r.Returned? ==> r.ret == |r.out| || r.ret == -1
    decreases |fmt| + 2 - i, if IsDigit(At(fmt, i)) then 1 else 3
  {
    var ch := At(fmt, i);
    if ch != '\0' {
      if !IsDigit(ch) {
        SpecCount(abi, stop, fmt, i, args, out, count, upper, f);
      } else {
        PadCountCount(abi, stop, fmt, i + 1, args, out, count, upper, f.(padn := f.padn * 10 + (ch as int - '0' as int)));
      }
    }
  }

  /** DiagVprintf returns -1 or exactly the number of characters it printed. */
  lemma ReturnIsLength(abi: Abi, fmt: string, args: seq<Arg>)
    ensures var r := Vprintf(abi, fmt, args);
            r.Returned? ==> r.ret == |r.out| || r.ret == -1
    ensures var r := VprintfCorrected(abi, fmt, args);
            r.Returned? ==> r.ret == |r.out| || r.ret == -1
  {
    ScanCount(abi, false, fmt, 0, args, [], 0, false);
    ScanCount(abi, true, fmt, 0, args, [], 0, false);
  }

  // ---------------------------------------------------------------------------
  // Literal text
  // ---------------------------------------------------------------------------

  /** Without '%' every character is copied one-for-one and counted. */
  lemma {:induction false} ScanLiteral(abi: Abi, stop: bool, fmt: string, i: nat, args: seq<Arg>, out: string, count: int, upper: bool)
    requires i <= |fmt| && '%' !in fmt && '\0' !in fmt
    ensures Scan(abi, stop, fmt, i, args, out, count, upper) == Returned(out + fmt[i..], count + |fmt| - i)
    decreases |fmt| - i
  {
    if i == |fmt| {
      assert fmt[i..] == [];
    } else {
      assert fmt[i] in fmt;
      ScanLiteral(abi, stop, fmt, i + 1, args, out + [fmt[i]], count + 1, upper);
      assert (out + [fmt[i]]) + fmt[i + 1..] == out + fmt[i..];
    }
  }

  lemma LiteralCopy(abi: Abi, fmt: string, args: seq<Arg>)
    requires '%' !in fmt && '\0' !in fmt
    ensures Vprintf(abi, fmt, args) == Returned(fmt, |fmt|)
  {
    ScanLiteral(abi, false, fmt, 0, args, [], 0, false);
    assert fmt[0..] == fmt;
  }

  // ---------------------------------------------------------------------------
  // The terminator after '%'
  // ---------------------------------------------------------------------------

  /** "%" at the very end: the as-written scan steps over the terminator. */
  lemma TrailingPercentOverruns(abi: Abi)
    ensures Vprintf(abi, "abc%", []) == ReadsPastEnd("abc")
    ensures VprintfCorrected(abi, "abc%", []) == Returned("abc", 3)
  {
    var fmt := "abc%";
    assert Scan(abi, false, fmt, 3, [], "abc", 3, false) == Spec(abi, false, fmt, 4, [], "abc", 3, false, NoFlags);
    assert Scan(abi, true, fmt, 3, [], "abc", 3, false) == Spec(abi, true, fmt, 4, [], "abc", 3, false, NoFlags);
    ScanLiteralPrefix(abi, false, fmt, 3);
    ScanLiteralPrefix(abi, true, fmt, 3);
  }

  /** The three literal characters of "abc%" are copied before the '%'. */
  lemma ScanLiteralPrefix(abi: Abi, stop: bool, fmt: string, k: nat)
    requires fmt == "abc%" && k == 3
    ensures Scan(abi, stop, fmt, 0, [], [], 0, false) == Scan(abi, stop, fmt, 3, [], "abc", 3, false)
  {
    assert At(fmt, 0) == 'a' && At(fmt, 1) == 'b' && At(fmt, 2) == 'c';
    assert [] + [fmt[0]] == "a" && "a" + [fmt[1]] == "ab" && "ab" + [fmt[2]] == "abc";
    assert Scan(abi, stop, fmt, 0, [], [], 0, false) == Scan(abi, stop, fmt, 1, [], "a", 1, false);
    assert Scan(abi, stop, fmt, 1, [], "a", 1, false) == Scan(abi, stop, fmt, 2, [], "ab", 2, false);
    assert Scan(abi, stop, fmt, 2, [], "ab", 2, false) == Scan(abi, stop, fmt, 3, [], "abc", 3, false);
  }

  /** A format that ends inside a width ("%5") returns the count so far. */
  lemma TrailingWidthReturnsCount(abi: Abi)
    ensures Vprintf(abi, "%5", []) == Returned("", 0)
  {
    var fmt := "%5";
    assert Spec(abi, false, fmt, 1, [], [], 0, false, NoFlags) == PadCount(abi, false, fmt, 1, [], [], 0, false, Flags(0, ' ', 0, 0));
    assert PadCount(abi, false, fmt, 1, [], [], 0, false, Flags(0, ' ', 0, 0)) == PadCount(abi, false, fmt, 2, [], [], 0, false, Flags(0, ' ', 5, 0));
  }

  /** On a NUL-free format the corrected scan never leaves the string. */
  lemma {:induction false} ScanInside(abi: Abi, fmt: string, i: nat, args: seq<Arg>, out: string, count: int, upper: bool)
    requires i <= |fmt| && '\0' !in fmt
    ensures !Scan(abi, true, fmt, i, args, out, count, upper).ReadsPastEnd?
    decreases |fmt| + 2 - i, 3
  {
    if At(fmt, i) != '\0' {
      if At(fmt, i) == '%' {
        SpecInside(abi, fmt, i + 1, args, out, count, upper, NoFlags);
      } else {
        ScanInside(abi, fmt, i + 1, args, out + [fmt[i]], count + 1, upper);
      }
    }
  }

  lemma {:induction false} SpecInside(abi: Abi, fmt: string, i: nat, args: seq<Arg>, out: string, count: int, upper: bool, f: Flags)
    requires i <= |fmt| && '\0' !in fmt
    ensures !Spec(abi, true, fmt, i, args, out, count, upper, f).ReadsPastEnd?
    decreases |fmt| + 2 - i, 2
  {
    var a := Decide(abi, At(fmt, i), f, upper, args);
    if a.Print? {
      SpecPrintInside(abi, fmt, i, args, out, count, upper, f);
    } else if a.Next? {
      SpecInside(abi, fmt, i + 1, args, out, count, upper, a.f);
    } else if a.Width? {
      PadCountInside(abi, fmt, i + a.skip, args, out, count, upper, a.f);
    }
  }

  lemma {:induction false} SpecPrintInside(abi: Abi, fmt: string, i: nat, args: seq<Arg>, out: string, count: int, upper: bool, f: Flags)
    requires i <= |fmt| && '\0' !in fmt
    requires Decide(abi, At(fmt, i), f, upper, args).Print?
    ensures !Spec(abi, true, fmt, i, args, out, count, upper, f).ReadsPastEnd?
    decreases |fmt| + 2 - i, 1
  {
    var a := Decide(abi, At(fmt, i), f, upper, args);
    ScanInside(abi, fmt, i + 1, args[a.used..], out + a.text, count + a.n, a.upper);
  }

  lemma {:induction false} PadCountInside(abi: Abi, fmt: string, i: nat, args: seq<Arg>, out: string, count: int, upper: bool, f: Flags)
    requires i <= |fmt| && '\0' !in fmt
    ensures !PadCount(abi, true, fmt, i, args, out, count, upper, f).ReadsPastEnd?
    decreases |fmt| + 2 - i, if IsDigit(At(fmt, i)) then 1 else 3
  {
    var ch := At(fmt, i);
    if ch != '\0' {
      if !IsDigit(ch) {
        SpecInside(abi, fmt, i, args, out, count, upper, f);
      } else {
        PadCountInside(abi, fmt, i + 1, args, out, count, upper, f.(padn := f.padn * 10 + (ch as int - '0' as int)));
      }
    }
  }

  /** Wherever the as-written scan stays inside the string, the corrected one returns the same. */
  lemma {:induction false} ScanAgrees(abi: Abi, fmt: string, i: nat, args: seq<Arg>, out: string, count: int, upper: bool)
    requires i <= |fmt| && '\0' !in fmt
    ensures var r := Scan(abi, false, fmt, i, args, out, count, upper);
            r.ReadsPastEnd? || r == Scan(abi, true, fmt, i, args, out, count, upper)
    decreases |fmt| + 2 - i, 3
  {
    if At(fmt, i) != '\0' {
      if At(fmt, i) == '%' {
        SpecAgrees(abi, fmt, i + 1, args, out, count, upper, NoFlags);
      } else {
        ScanAgrees(abi, fmt, i + 1, args, out + [fmt[i]], count + 1, upper);
      }
    }
  }

  lemma {:induction false} SpecAgrees(abi: Abi, fmt: string, i: nat, args: seq<Arg>, out: string, count: int, upper: bool, f: Flags)
    requires i <= |fmt| && '\0' !in fmt
    ensures var r := Spec(abi, false, fmt, i, args, out, count, upper, f);
            r.ReadsPastEnd? || r == Spec(abi, true, fmt, i, args, out, count, upper, f)
    decreases |fmt| + 2 - i, 2
  {
    var a := Decide(abi, At(fmt, i), f, upper, args);
    if a.Print? {
      SpecPrintAgrees(abi, fmt, i, args, out, count, upper, f);
    } else if a.Next? {
      SpecAgrees(abi, fmt, i + 1, args, out, count, upper, a.f);
    } else if a.Width? {
      PadCountAgrees(abi, fmt, i + a.skip, args, out, count, upper, a.f);
    } else if a.Terminator? {
      assert Scan(abi, false, fmt, i + 1, args, out, count, upper).ReadsPastEnd?;
    }
  }

  lemma {:induction false} SpecPrintAgrees(abi: Abi, fmt: string, i: nat, args: seq<Arg>, out: string, count: int, upper: bool, f: Flags)
    requires i <= |fmt| && '\0' !in fmt
    requires Decide(abi, At(fmt, i), f, upper, args).Print?
    ensures var r := Spec(abi, false, fmt, i, args, out, count, upper, f);
            r.ReadsPastEnd? || r == Spec(abi, true, fmt, i, args, out, count, upper, f)
    decreases |fmt| + 2 - i, 1
  {
    var a := Decide(abi, At(fmt, i), f, upper, args);
    ScanAgrees(abi, fmt, i + 1, args[a.used..], out + a.text, count + a.n, a.upper);
  }

  lemma {:induction false} PadCountAgrees(abi: Abi, fmt: string, i: nat, args: seq<Arg>, out: string, count: int, upper: bool, f: Flags)
    requires i <= |fmt| && '\0' !in fmt
    ensures var r := PadCount(abi, false, fmt, i, args, out, count, upper, f);
            r.ReadsPastEnd? || r == PadCount(abi, true, fmt, i, args, out, count, upper, f)
    decreases |fmt| + 2 - i, if IsDigit(At(fmt, i)) then 1 else 3
  {
    var ch := At(fmt, i);
    if ch != '\0' {
      if !IsDigit(ch) {
        SpecAgrees(abi, fmt, i, args, out, count, upper, f);
      } else {
        PadCountAgrees(abi, fmt, i + 1, args, out, count, upper, f.(padn := f.padn * 10 + (ch as int - '0' as int)));
      }
    }
  }

  /** VprintfCorrected never overruns, and agrees with DiagVprintf wherever DiagVprintf does not. */
  lemma CorrectedAgrees(abi: Abi, fmt: string, args: seq<Arg>)
    requires '\0' !in fmt
    ensures !VprintfCorrected(abi, fmt, args).ReadsPastEnd?
    ensures Vprintf(abi, fmt, args).ReadsPastEnd? || Vprintf(abi, fmt, args) == VprintfCorrected(abi, fmt, args)
  {
    ScanInside(abi, fmt, 0, args, [], 0, false);
    ScanAgrees(abi, fmt, 0, args, [], 0, false);
  }

  // ---------------------------------------------------------------------------
  // Conversions
  // ---------------------------------------------------------------------------

  /** 171 printed by %X, or by %x once `upper` is set, is "AB". */
  lemma Hex171(abi: Abi, c: char, upper: bool, args: seq<Arg>)
    requires c == 'X' || (c == 'x' && upper)
    requires |args| >= 1 && args[0] == Num(171)
    ensures Decide(abi, c, NoFlags, upper, args) == Print("AB", 2, true, 1)
  {
    HexDigits171();
    assert ToUnsigned(171, ArgModulus(abi, 0)) == 171;
  }

  lemma HexDigits171()
    ensures Digits(171, 16, true) == "AB"
  {
    assert Digits(10, 16, true) == "A";
  }

  /** `upper` is never reset: after a %X, a later %x prints upper-case digits. */
  lemma UpperIsSticky(abi: Abi)
    ensures Vprintf(abi, "%X%x", [Num(171), Num(171)]) == Returned("ABAB", 4)
  {
    var fmt := "%X%x";
    var args := [Num(171), Num(171)];
    assert At(fmt, 0) == '%' && At(fmt, 1) == 'X' && At(fmt, 2) == '%' && At(fmt, 3) == 'x' && At(fmt, 4) == '\0';
    Hex171(abi, 'X', false, args);
    Hex171(abi, 'x', true, args[1..]);
    assert args[1..][1..] == [];
    assert Scan(abi, false, fmt, 0, args, [], 0, false) == Spec(abi, false, fmt, 1, args, [], 0, false, NoFlags);
    assert Spec(abi, false, fmt, 1, args, [], 0, false, NoFlags) == Scan(abi, false, fmt, 2, args[1..], "AB", 2, true);
    assert Scan(abi, false, fmt, 2, args[1..], "AB", 2, true) == Spec(abi, false, fmt, 3, args[1..], "AB", 2, true, NoFlags);
    assert Spec(abi, false, fmt, 3, args[1..], "AB", 2, true, NoFlags) == Scan(abi, false, fmt, 4, [], "ABAB", 4, true);
  }

  /** %z is an error where size_t is 8 bytes and is skipped where it is 4. */
  lemma SizeTModifier()
    ensures Vprintf(Lp64, "%zu", [Num(5)]) == Returned("", -1)
    ensures Vprintf(Ilp32, "%zu", [Num(5)]) == Returned("5", 1)
  {
    var fmt := "%zu";
    assert Spec(Lp64, false, fmt, 1, [Num(5)], [], 0, false, NoFlags) == Returned("", -1);
    assert Spec(Ilp32, false, fmt, 1, [Num(5)], [], 0, false, NoFlags) == Spec(Ilp32, false, fmt, 2, [Num(5)], [], 0, false, NoFlags);
    assert Digits(5, 10, false) == "5";
    assert Spec(Ilp32, false, fmt, 2, [Num(5)], [], 0, false, NoFlags) == Scan(Ilp32, false, fmt, 3, [], "5", 1, false);
  }
}
