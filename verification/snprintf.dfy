/**
 * DiagSnPrintf of ameba_rom_patch.c: a bounded formatter into a buffer.
 *
 * Literal characters and %s strings are copied; every other conversion reads
 * one int argument (a pointer for %p/%P), formats it into a small temporary
 * buffer and copies that.  Hex digits are emitted from a precomputed nibble
 * count `shift`, decimal digits are produced least significant first and
 * reversed.  After each character written the buffer end is checked; on
 * reaching it the call stops.  The NUL then goes at the current position, and
 * the return value is the number of characters written.  Size 0 means no
 * bound.
 *
 * `fixed` selects the corrected conversions: hex prints all digits of the
 * unsigned value and pads to the width, and %d prints the magnitude of the most
 * negative int.  SnPrintfCorrected also keeps the NUL inside the buffer.
 */
module SnFormat {

  import opened Bits
  import opened DiagFormat
  import opened DiagPrintf

  const IntMin: int := -0x8000_0000

  // ---------------------------------------------------------------------------
  // Hex digit counts
  // ---------------------------------------------------------------------------

  function Pow16(k: nat): (p: nat)
    ensures p >= 1
  {
    if k == 0 then 1 else 16 * Pow16(k - 1)
  }

  /** The `shift` ladder: 4 * (hex digits - 1) of `lp`, and 0 for a negative `lp`. */
  function SnShift(lp: int): (s: nat)
    ensures s % 4 == 0 && s <= 28
  {
    if lp < 0x10 then 0
    else if lp < 0x100 then 4
    else if lp < 0x1000 then 8
    else if lp < 0x1_0000 then 12
    else if lp < 0x10_0000 then 16
    else if lp < 0x100_0000 then 20
    else if lp < 0x1000_0000 then 24
    else 28
  }

  /** The `hex_count` loop: how many shifts by 4 empty `h`; 0 for 0. */
  function HexCount(h: nat): nat {
    if h == 0 then 0 else 1 + HexCount(h / 16)
  }

  /** A number in [16^(k-1), 16^k) has k hex digits. */
  lemma {:induction false} DigitsLen16(n: nat, k: nat, upper: bool)
    requires k >= 1 && Pow16(k - 1) <= n < Pow16(k)
    ensures |Digits(n, 16, upper)| == k
  {
    if k > 1 {
      var q := n / 16;
      assert 16 * Pow16(k - 2) <= n < 16 * Pow16(k - 1);
      assert Pow16(k - 2) <= q < Pow16(k - 1);
      DigitsLen16(q, k - 1, upper);
    }
  }

  /** The hex loop counts exactly the digits of a non-zero value. */
  lemma {:induction false} HexCountDigits(h: nat, upper: bool)
    ensures h >= 1 ==> HexCount(h) == |Digits(h, 16, upper)|
    ensures h == 0 ==> HexCount(h) == 0
    decreases h
  {
    if h >= 16 {
      DivShrinks(h, 16);
      HexCountDigits(h / 16, upper);
    }
  }

  /** The `shift` ladder counts the digits of a non-negative int. */
  lemma SnShiftDigits(lp: int, upper: bool)
    requires lp < 0x8000_0000
    ensures lp >= 0 ==> SnShift(lp) / 4 + 1 == |Digits(lp, 16, upper)|
    ensures lp < 0 ==> SnShift(lp) == 0
  {
    if lp >= 0 {
      assert Pow16(1) == 0x10 && Pow16(2) == 0x100 && Pow16(3) == 0x1000 && Pow16(4) == 0x1_0000;
      assert Pow16(5) == 0x10_0000 && Pow16(6) == 0x100_0000 && Pow16(7) == 0x1000_0000;
      assert Pow16(8) == 0x1_0000_0000;
      if lp < 0x10 { }
      else if lp < 0x100 { DigitsLen16(lp, 2, upper); }
      else if lp < 0x1000 { DigitsLen16(lp, 3, upper); }
      else if lp < 0x1_0000 { DigitsLen16(lp, 4, upper); }
      else if lp < 0x10_0000 { DigitsLen16(lp, 5, upper); }
      else if lp < 0x100_0000 { DigitsLen16(lp, 6, upper); }
      else if lp < 0x1000_0000 { DigitsLen16(lp, 7, upper); }
      else { DigitsLen16(lp, 8, upper); }
    }
  }

  // ---------------------------------------------------------------------------
  // %x %X %p %P
  // ---------------------------------------------------------------------------

  /** The `n` low nibbles of `h`, most significant first. */
  function HexLoop(h: nat, n: nat, upper: bool): (s: string)
    requires n >= 1
    ensures |s| == n
  {
    if n == 1 then [DigitChar(h % 16, upper)]
    else HexLoop(h / 16, n - 1, upper) + [DigitChar(h % 16, upper)]
  }

  /** With as many nibbles as digits, the loop prints the digits. */
  lemma {:induction false} HexLoopDigits(h: nat, upper: bool)
    ensures HexLoop(h, |Digits(h, 16, upper)|, upper) == Digits(h, 16, upper)
    decreases h
  {
    if h >= 16 {
      DivShrinks(h, 16);
      HexLoopDigits(h / 16, upper);
    }
  }

  /** `*fmt & 0x20`: the lower-case letters x and p. */
  predicate Lower(c: char) { c == 'x' || c == 'p' }

  /** "0x" or "0X" for a pointer conversion. */
  function HexPrefix(c: char): (p: string)
    ensures |p| <= 2
  {
    if c == 'p' then "0x" else if c == 'P' then "0X" else ""
  }

  /**
   * The hex branch as written: the prefix, `padn - hex_count` pads with the
   * nibble count of the unsigned value, then `shift / 4 + 1` nibbles.
   */
  function SnHex(c: char, lp: int, shift: nat, padc: char, padn: int): (t: string)
    requires -0x8000_0000 <= lp < 0x8000_0000
  {
    var h := ToUnsigned(lp, U32);
    HexPrefix(c) + Pad(padn - HexCount(h), padc) + HexLoop(h, shift / 4 + 1, !Lower(c))
  }

  /** The corrected hex branch: every digit of the unsigned value, padded to `padn`. */
  function SnHexCorrected(c: char, lp: int, padc: char, padn: int): (t: string)
    requires -0x8000_0000 <= lp < 0x8000_0000
  {
    var d := Digits(ToUnsigned(lp, U32), 16, !Lower(c));
    HexPrefix(c) + Pad(padn - |d|, padc) + d
  }

  /** The corrected hex text has the width and reads back as the unsigned value. */
  lemma SnHexCorrectedValue(c: char, lp: int, padc: char, padn: int)
    requires -0x8000_0000 <= lp < 0x8000_0000
    ensures var t := SnHexCorrected(c, lp, padc, padn);
            var d := Digits(ToUnsigned(lp, U32), 16, !Lower(c));
            && |t| == |HexPrefix(c)| + Max(padn, |d|)
            && t[|t| - |d|..] == d
            && Value(d, 16) == ToUnsigned(lp, U32)
    ensures lp < 0 ==> |Digits(ToUnsigned(lp, U32), 16, !Lower(c))| == 8
  {
    DigitsRoundTrip(ToUnsigned(lp, U32), 16, !Lower(c));
    if lp < 0 {
      assert Pow16(7) == 0x1000_0000 && Pow16(8) == 0x1_0000_0000;
      DigitsLen16(ToUnsigned(lp, U32), 8, !Lower(c));
    }
  }

  /** For a positive value the written and the corrected hex branch agree. */
  lemma SnHexPositive(c: char, lp: int, padc: char, padn: int)
    requires 1 <= lp < 0x8000_0000
    ensures SnHex(c, lp, SnShift(lp), padc, padn) == SnHexCorrected(c, lp, padc, padn)
  {
    var upper := !Lower(c);
    SnShiftDigits(lp, upper);
    HexCountDigits(lp, upper);
    HexLoopDigits(lp, upper);
  }

  /** `sizeof(tmp)`: the array each bounded conversion is built in. */
  const TmpSize: nat := 20

  /**
   * The pad loop has no bound of its own: "%x" of a positive value with a
   * width of at least 20 builds an item that does not fit in `tmp`.
   */
  lemma SnHexWiderThanTmp(lp: int, padn: int)
    requires 1 <= lp < 0x8000_0000 && padn >= TmpSize
    ensures |SnHex('x', lp, SnShift(lp), ' ', padn)| >= padn > TmpSize - 1
  {
    SnHexPositive('x', lp, ' ', padn);
    SnHexCorrectedValue('x', lp, ' ', padn);
  }

  /** Zero: hex_count is 0 but one digit is printed, so "%08x" gives nine characters. */
  lemma SnHexZero(padn: nat)
    ensures |SnHex('x', 0, SnShift(0), '0', padn)| == padn + 1
    ensures |SnHexCorrected('x', 0, '0', padn)| == Max(padn, 1)
  {
    SnHexCorrectedValue('x', 0, '0', padn);
  }

  /** A negative int: shift is 0, so a single nibble is printed and, up to width 8, no padding. */
  lemma SnHexNegative(c: char, lp: int, padc: char, padn: int)
    requires -0x8000_0000 <= lp < 0
    ensures var t := SnHex(c, lp, SnShift(lp), padc, padn);
            && |t| == |HexPrefix(c)| + Max(0, padn - 8) + 1
            && t[|t| - 1] == DigitChar(ToUnsigned(lp, U32) % 16, !Lower(c))
  {
    var h := ToUnsigned(lp, U32);
    assert Pow16(7) == 0x1000_0000 && Pow16(8) == 0x1_0000_0000;
    DigitsLen16(h, 8, true);
    HexCountDigits(h, true);
  }

  // ---------------------------------------------------------------------------
  // %d
  // ---------------------------------------------------------------------------

  /** C's `i % 10` and `i / 10`: truncation toward zero. */
  function CRem10(i: int): (r: int)
    ensures -9 <= r <= 9
  {
    if i >= 0 then i % 10 else -((-i) % 10)
  }

  function CDiv10(i: int): int {
    if i >= 0 then i / 10 else -((-i) / 10)
  }

  /** The do-while digit loop: `'0' + i % 10`, least significant first. */
  function TruncDigitsRev(i: int): (s: string)
    ensures |s| >= 1
    decreases if i >= 0 then i else -i
  {
    var c := ('0' as int + CRem10(i)) as char;
    if CDiv10(i) == 0 then [c] else [c] + TruncDigitsRev(CDiv10(i))
  }

  function Reverse(s: string): (r: string)
    ensures |r| == |s|
  {
    if |s| == 0 then [] else Reverse(s[1..]) + [s[0]]
  }

  lemma ReverseLast(s: string)
    requires |s| >= 1
    ensures Reverse(s)[|s| - 1] == s[0]
  {
  }

  /** For a non-negative int the reversed loop output is the decimal digits. */
  lemma {:induction false} TruncDigitsDecimal(i: nat)
    ensures Reverse(TruncDigitsRev(i)) == Digits(i, 10, false)
    decreases i
  {
    var s := TruncDigitsRev(i);
    if i >= 10 {
      DivShrinks(i, 10);
      TruncDigitsDecimal(i / 10);
      assert s == [DigitChar(i % 10, false)] + TruncDigitsRev(i / 10);
      assert s[1..] == TruncDigitsRev(i / 10);
    }
  }

  /** `i = -i` in int: the most negative value stays negative. */
  function NegInt(i: int): (r: int)
    requires IntMin <= i < 0
    ensures i == IntMin ==> r == IntMin
    ensures i > IntMin ==> r == -i
  {
    ToSigned(-i, U32)
  }

  /**
   * The decimal branch as written: '-' for a negative value, the loop digits,
   * '0' fill for the `shift` slots the digits do not cover, then the
   * reversal of everything after the sign.
   */
  function SnDecimal(lp: int, shift: nat): (t: string)
    requires IntMin <= lp < 0x8000_0000
  {
    var neg := lp < 0;
    var i := if neg then NegInt(lp) else lp;
    var ds := TruncDigitsRev(i);
    var space := |ds| + (if neg then 1 else 0);
    (if neg then "-" else "") + Reverse(ds + Pad(shift / 4 + 1 - space, '0'))
  }

  /** The corrected decimal branch: sign and the digits of the magnitude. */
  function SnDecimalCorrected(lp: int): (t: string) {
    (if lp < 0 then "-" else "") + Digits(Magnitude(lp), 10, false)
  }

  /** The corrected %d text is '-' for a negative value followed by digits that read back as the magnitude. */
  lemma SnDecimalCorrectedValue(lp: int)
    ensures var t := SnDecimalCorrected(lp);
            var s := if lp < 0 then 1 else 0;
            && |t| > s
            && (lp < 0 ==> t[0] == '-')
            && Value(t[s..], 10) == Magnitude(lp)
            && forall k :: s <= k < |t| ==> IsDigit(t[k])
  {
    var d := Digits(Magnitude(lp), 10, false);
    DigitsRoundTrip(Magnitude(lp), 10, false);
    DecimalDigits(Magnitude(lp), false);
    var t := SnDecimalCorrected(lp);
    var s := if lp < 0 then 1 else 0;
    assert t[s..] == d;
  }

  /** Dividing by a larger radix never gives more digits. */
  lemma {:induction false} DigitsLenMono(a: nat, b: nat, radix: nat)
    requires a <= b && 2 <= radix <= 16
    ensures |Digits(a, radix, false)| <= |Digits(b, radix, false)|
    decreases b
  {
    if a >= radix {
      DivLe(a, b, radix);
      DivShrinks(b, radix);
      DigitsLenMono(a / radix, b / radix, radix);
    }
  }

  /** No number has more hex digits than decimal digits. */
  lemma {:induction false} HexNoLongerThanDecimal(n: nat, upper: bool)
    ensures |Digits(n, 16, upper)| <= |Digits(n, 10, false)|
    decreases n
  {
    if n >= 16 {
      DivShrinks(n, 16);
      HexNoLongerThanDecimal(n / 16, upper);
      assert n / 16 <= n / 10;
      DigitsLenMono(n / 16, n / 10, 10);
    }
  }

  /** Except for the most negative int, the '0' fill is empty and %d prints sign and digits. */
  lemma SnDecimalAgrees(lp: int)
    requires IntMin < lp < 0x8000_0000
    ensures SnDecimal(lp, SnShift(lp)) == SnDecimalCorrected(lp)
  {
    var i := Magnitude(lp);
    TruncDigitsDecimal(i);
    var ds := TruncDigitsRev(i);
    if lp >= 0 {
      SnShiftDigits(lp, true);
      HexNoLongerThanDecimal(lp, true);
    }
    assert Pad(SnShift(lp) / 4 + 1 - (|ds| + (if lp < 0 then 1 else 0)), '0') == [];
    assert ds + [] == ds;
  }

  /** The most negative int: its text ends in '(' (the remainder -8 added to '0'). */
  lemma SnDecimalIntMin()
    ensures var t := SnDecimal(IntMin, SnShift(IntMin));
            t[0] == '-' && t[|t| - 1] == '(' && !IsDigit(t[|t| - 1])
  {
    assert SnShift(IntMin) == 0;
    assert NegInt(IntMin) == IntMin;
    assert CRem10(IntMin) == -8;
    var ds := TruncDigitsRev(IntMin);
    assert ds[0] == '(';
    assert Pad(1 - (|ds| + 1), '0') == [];
    var body := ds + [];
    assert body == ds;
    ReverseLast(ds);
    var t := SnDecimal(IntMin, 0);
    assert t == "-" + Reverse(ds);
  }

  // ---------------------------------------------------------------------------
  // One conversion
  // ---------------------------------------------------------------------------

  /** The width digits starting at `k`: the index of the first non-digit and the value. */
  function SnWidth(fmt: string, k: nat, w: int): (r: (nat, int))
    requires k <= |fmt|
    ensures k <= r.0 <= |fmt| && !IsDigit(At(fmt, r.0))
    decreases |fmt| - k
  {
    if IsDigit(At(fmt, k)) then SnWidth(fmt, k + 1, w * 10 + (At(fmt, k) as int - '0' as int)) else (k, w)
  }

  /** The width loop stops at the first non-digit: everything it passes is a digit. */
  lemma {:induction false} SnWidthDigits(fmt: string, k: nat, w: int)
    requires k <= |fmt|
    ensures forall j :: k <= j < SnWidth(fmt, k, w).0 ==> IsDigit(fmt[j])
    decreases |fmt| - k
  {
    if IsDigit(At(fmt, k)) {
      SnWidthDigits(fmt, k + 1, w * 10 + (fmt[k] as int - '0' as int));
    }
  }

  /**
   * The width loop reads the run of digits at `k` as a decimal number, after
   * the digits `pre` already read.
   */
  lemma {:induction false} SnWidthValue(fmt: string, k: nat, pre: string)
    requires k <= |fmt|
    ensures var r := SnWidth(fmt, k, Value(pre, 10));
            r.1 == Value(pre + fmt[k..r.0], 10)
    decreases |fmt| - k
  {
    var r := SnWidth(fmt, k, Value(pre, 10));
    if IsDigit(At(fmt, k)) {
      var c := fmt[k];
      var pre' := pre + [c];
      ValueSnoc(pre, c, 10);
      assert Value(pre, 10) * 10 + (c as int - '0' as int) == Value(pre', 10);
      assert SnWidth(fmt, k + 1, Value(pre', 10)) == r;
      SnWidthValue(fmt, k + 1, pre');
      assert pre' + fmt[k + 1..r.0] == pre + fmt[k..r.0];
    } else {
      assert r.0 == k;
      assert pre + fmt[k..k] == pre;
    }
  }

  /**
   * A conversion other than %s, from the character after '%' at `j` with the
   * argument `v`: the item's text and the index of its conversion character.
   */
  function SnItem(abi: Abi, fixed: bool, fmt: string, j: nat, v: int): (r: (string, nat))
    requires j <= |fmt|
    ensures j <= r.1 <= |fmt| && |r.0| >= 1
  {
    var isPtr := At(fmt, j) == 'p' || At(fmt, j) == 'P';
    var lp := ToSigned(v, U32);
    var shift := SnShift(lp);
    var padc0 := if isPtr then '0' else ' ';
    var padn0 := if isPtr then abi.PtrDigits() else 0;
    var k1 := if At(fmt, j) == '0' then j + 1 else j;
    var padc := if At(fmt, j) == '0' then '0' else padc0;
    var wd := if '1' <= At(fmt, k1) <= '9' then SnWidth(fmt, k1, 0) else (k1, padn0);
    var k := wd.0;
    var c := At(fmt, k);
    var t :=
      if c == 'x' || c == 'X' || c == 'p' || c == 'P' then
        (if fixed then SnHexCorrected(c, lp, padc, wd.1) else SnHex(c, lp, shift, padc, wd.1))
      else if c == 'd' then
        (if fixed then SnDecimalCorrected(lp) else SnDecimal(lp, shift))
      else if c == 'c' then [CharOf(lp)]
      else [c];
    (t, k)
  }

  // ---------------------------------------------------------------------------
  // The buffer
  // ---------------------------------------------------------------------------

  /**
   * Copy `t` after `out` one character at a time, stopping as soon as the
   * length reaches `cap`.  Returns the new contents and whether it stopped.
   */
  function Put(out: string, t: string, cap: Option<nat>): (r: (string, bool))
    requires cap.None? || |out| < cap.value
    ensures r.1 <==> cap.Some? && |out| + |t| >= cap.value
    ensures r.1 ==> |r.0| == cap.value && r.0 == (out + t)[..cap.value]
    ensures !r.1 ==> r.0 == out + t
  {
    if cap.Some? && |out| + |t| >= cap.value then ((out + t)[..cap.value], true) else (out + t, false)
  }

  /**
   * What one turn of the loop at `i` does: stop at the end of the string (or
   * past it), fail on a missing or mistyped argument, or emit `text` and go on
   * at `next` with the remaining arguments `rest`.
   */
  datatype Step = Done | Past | Missing | Emit(text: string, next: nat, rest: seq<Arg>)

  /** One turn of the `for (; *fmt != '\0'; ++fmt)` loop at position `i`. */
  function SnStep(abi: Abi, fixed: bool, fmt: string, i: nat, args: seq<Arg>): (st: Step)
    requires i <= |fmt| + 1
    ensures st.Emit? ==> i < st.next <= |fmt| + 1 && |st.rest| <= |args|
    ensures st.Done? <==> i == |fmt| || (i < |fmt| && fmt[i] == '\0')
    ensures st.Past? <==> i == |fmt| + 1
  {
    if i >= |fmt| then (if i == |fmt| then Done else Past)
    else if fmt[i] == '\0' then Done
    else if fmt[i] != '%' then Emit([fmt[i]], i + 1, args)
    else if At(fmt, i + 1) == 's' then
      if |args| == 0 || !args[0].Str? then Missing else Emit(args[0].s, i + 2, args[1..])
    else if |args| == 0 || !args[0].Num? then Missing
    else
      var (t, k) := SnItem(abi, fixed, fmt, i + 1, args[0].v);
      Emit(t, k + 1, args[1..])
  }

  /** The loop from position `i`, with `out` written so far and at most `cap` characters. */
  function SnScan(abi: Abi, fixed: bool, fmt: string, i: nat, args: seq<Arg>, out: string, cap: Option<nat>): (r: Outcome)
    requires i <= |fmt| + 1 && (cap.None? || |out| < cap.value)
    ensures r.Returned? ==> r.ret == |r.out|
    ensures cap.Some? ==> |r.out| <= cap.value
    decreases |fmt| + 1 - i
  {
    var st := SnStep(abi, fixed, fmt, i, args);
    if st.Past? then ReadsPastEnd(out)
    else if st.Done? then Returned(out, |out|)
    else if st.Missing? then BadArg(out)
    else
      var (o, full) := Put(out, st.text, cap);
      if full then Returned(o, |o|) else SnScan(abi, fixed, fmt, st.next, st.rest, o, cap)
  }

  /** DiagSnPrintf as written: a NULL buffer gives 0, size 0 is unbounded. */
  function SnPrintf(abi: Abi, bufNull: bool, size: nat, fmt: string, args: seq<Arg>): Outcome {
    if bufNull then Returned([], 0)
    else SnScan(abi, false, fmt, 0, args, [], if size == 0 then None else Some(size))
  }

  /** The corrected call: corrected conversions, and at most size - 1 characters so the NUL fits. */
  function SnPrintfCorrected(abi: Abi, bufNull: bool, size: nat, fmt: string, args: seq<Arg>): Outcome {
    if bufNull || size == 1 then Returned([], 0)
    else SnScan(abi, true, fmt, 0, args, [], if size == 0 then None else Some(size - 1))
  }

  // ---------------------------------------------------------------------------
  // Truncation
  // ---------------------------------------------------------------------------

  /** The unbounded scan only appends. */
  lemma {:induction false} SnExtends(abi: Abi, fixed: bool, fmt: string, i: nat, args: seq<Arg>, out: string)
    requires i <= |fmt| + 1
    ensures var r := SnScan(abi, fixed, fmt, i, args, out, None);
            |out| <= |r.out| && r.out[..|out|] == out
    decreases |fmt| + 1 - i
  {
    var st := SnStep(abi, fixed, fmt, i, args);
    if st.Emit? {
      SnExtends(abi, fixed, fmt, st.next, st.rest, out + st.text);
    }
  }

  /**
   * A bounded scan is the unbounded one cut at the bound: identical when the
   * unbounded output stays below it, otherwise its first `k` characters.
   */
  lemma {:induction false} SnTruncates(abi: Abi, fixed: bool, fmt: string, i: nat, args: seq<Arg>, out: string, k: nat)
    requires i <= |fmt| + 1 && |out| < k
    ensures var u := SnScan(abi, fixed, fmt, i, args, out, None);
            var b := SnScan(abi, fixed, fmt, i, args, out, Some(k));
            && (|u.out| < k ==> b == u)
            && (|u.out| >= k ==> b == Returned(u.out[..k], k))
    decreases |fmt| + 1 - i
  {
    var st := SnStep(abi, fixed, fmt, i, args);
    if st.Emit? {
      var o := out + st.text;
      SnExtends(abi, fixed, fmt, st.next, st.rest, o);
      if |o| < k {
        SnTruncates(abi, fixed, fmt, st.next, st.rest, o, k);
      } else {
        var u := SnScan(abi, fixed, fmt, st.next, st.rest, o, None);
        assert u.out[..k] == o[..k];
      }
    }
  }

  /** Without '%' or NUL the unbounded scan copies the rest of the format. */
  lemma {:induction false} SnLiteralCopy(abi: Abi, fixed: bool, fmt: string, i: nat, args: seq<Arg>, out: string)
    requires i <= |fmt|
    requires forall j :: i <= j < |fmt| ==> fmt[j] != '%' && fmt[j] != '\0'
    ensures SnScan(abi, fixed, fmt, i, args, out, None) == Returned(out + fmt[i..], |out| + |fmt| - i)
    decreases |fmt| - i
  {
    if i < |fmt| {
      assert SnStep(abi, fixed, fmt, i, args) == Emit([fmt[i]], i + 1, args);
      SnLiteralCopy(abi, fixed, fmt, i + 1, args, out + [fmt[i]]);
      assert (out + [fmt[i]]) + fmt[i + 1..] == out + fmt[i..];
    } else {
      assert out + fmt[i..] == out;
    }
  }

  /** "%s" copies the whole string argument and goes on after the 's'. */
  lemma SnString(abi: Abi, fixed: bool, fmt: string, i: nat, s: string, args: seq<Arg>, out: string)
    requires i + 1 < |fmt| && fmt[i] == '%' && fmt[i + 1] == 's'
    ensures SnScan(abi, fixed, fmt, i, [Str(s)] + args, out, None) == SnScan(abi, fixed, fmt, i + 2, args, out + s, None)
  {
    assert ([Str(s)] + args)[1..] == args;
    assert SnStep(abi, fixed, fmt, i, [Str(s)] + args) == Emit(s, i + 2, args);
  }

  /**
   * DiagSnPrintf with size > 0 returns the unbounded output cut to `size`
   * characters; the NUL then goes at index `size`, one past the buffer.
   */
  lemma SnPrintfTruncates(abi: Abi, size: nat, fmt: string, args: seq<Arg>)
    requires size > 0
    ensures var u := SnPrintf(abi, false, 0, fmt, args);
            var b := SnPrintf(abi, false, size, fmt, args);
            && (|u.out| < size ==> b == u)
            && (|u.out| >= size ==> b == Returned(u.out[..size], size))
  {
    SnTruncates(abi, false, fmt, 0, args, [], size);
  }

  /** "abc" into a 2-byte buffer: two characters, return 2, NUL at buf[2]. */
  lemma SnNulPastEnd(abi: Abi)
    ensures SnPrintf(abi, false, 2, "abc", []) == Returned("ab", 2)
  {
    var fmt := "abc";
    assert At(fmt, 0) == 'a' && At(fmt, 1) == 'b';
    assert SnScan(abi, false, fmt, 0, [], [], Some(2)) == SnScan(abi, false, fmt, 1, [], "a", Some(2));
  }

  /**
   * The corrected call leaves room for the NUL: it returns the unbounded
   * output cut to `size - 1` characters, so the NUL lands inside the buffer.
   */
  lemma SnCorrectedNulInside(abi: Abi, size: nat, fmt: string, args: seq<Arg>)
    requires size > 0
    ensures var u := SnPrintfCorrected(abi, false, 0, fmt, args);
            var b := SnPrintfCorrected(abi, false, size, fmt, args);
            && |b.out| < size
            && (|u.out| < size - 1 ==> b == u)
            && (|u.out| >= size - 1 ==> b == Returned(u.out[..size - 1], size - 1))
  {
    if size > 1 {
      SnTruncates(abi, true, fmt, 0, args, [], size - 1);
    }
  }
}
