/** The UART-backed output routines and link stubs of dhrystone/syscalls.c.

    `uart_putc` stores one character to a memory-mapped port. Here every
    routine instead returns the characters it would send, in order, so the
    port is an output sequence that each call appends to. */
module Syscalls {
  import opened CTypes

  /** What a call sent to the UART, in order, and the value it returned. */
  datatype Emitted = Emitted(out: seq<CChar>, ret: int)

  // ---------------------------------------------------------------------------
  // print_string

  /** Sends the characters of `s` up to, not including, its NUL. */
  function PrintString(s: seq<CChar>): (r: seq<CChar>)
    requires Terminated(s)
    ensures r == Content(s)
    ensures NUL !in r
    decreases |s|
  {
    if s[0] == NUL then []
    else
      ContentCons(s);
      [s[0]] + PrintString(s[1..])
  }

  // ---------------------------------------------------------------------------
  // print_int

  predicate IsDigit(c: CChar)
  {
    '0' <= c <= '9'
  }

  /** The character `'0' + d`. */
  function DigitChar(d: nat): (c: CChar)
    requires d < 10
  {
    (('0' as int) + d) as char
  }

  function DigitValue(c: CChar): nat
    requires IsDigit(c)
  {
    c as int - '0' as int
  }

  predicate AllDigits(s: seq<CChar>)
  {
    forall k :: 0 <= k < |s| ==> IsDigit(s[k])
  }

  /** The decimal digits of `n`, most significant first; none for 0. */
  function Digits(n: nat): (r: seq<CChar>)
    ensures AllDigits(r)
    ensures n > 0 ==> |r| > 0 && r[0] != '0'
    decreases n
  {
    if n == 0 then [] else Digits(n / 10) + [DigitChar(n % 10)]
  }

  /** Reads a digit string back as a number, most significant digit first. */
  function ParseDecimal(s: seq<CChar>): nat
    requires AllDigits(s)
    decreases |s|
  {
    if s == [] then 0 else 10 * ParseDecimal(s[..|s| - 1]) + DigitValue(s[|s| - 1])
  }

  function Pow10(k: nat): (p: nat)
    ensures p > 0
  {
    if k == 0 then 1 else 10 * Pow10(k - 1)
  }

  lemma Pow10Of10()
    ensures Pow10(10) == 10_000_000_000
  {
  }

  /** Reading the digits of `n` gives `n` back. */
  lemma {:induction false} ParseDigits(n: nat)
    ensures ParseDecimal(Digits(n)) == n
    decreases n
  {
    if n > 0 {
      ParseDigits(n / 10);
      var s := Digits(n);
      assert s[..|s| - 1] == Digits(n / 10);
    }
  }

  /** A number below 10^k has at most k digits. */
  lemma {:induction false} DigitsLength(n: nat, k: nat)
    requires n < Pow10(k)
    ensures |Digits(n)| <= k
    decreases n
  {
    if n > 0 {
      DigitsLength(n / 10, k - 1);
    }
  }

  function Abs(v: int): nat
  {
    if v < 0 then -v else v
  }

  /** The decimal text of a magnitude: "0", or its digits. */
  function Decimal(m: nat): seq<CChar>
  {
    if m == 0 then "0" else Digits(m)
  }

  /** print_int: a '-' for a negative value, then the decimal text of its
      magnitude. */
  function PrintInt(val: Int32): seq<CChar>
    requires val != INT_MIN
  {
    (if val < 0 then "-" else "") + Decimal(Abs(val))
  }

  /** print_int sends '-' exactly for a negative value, followed by the
      digits of the magnitude with no leading zero, which read back as the
      magnitude; at most 11 characters, so the 12-character buffer is
      enough. */
  lemma PrintIntSpec(val: Int32)
    requires val != INT_MIN
    ensures var r := PrintInt(val);
            && 1 <= |r| <= 11
            && (r[0] == '-' <==> val < 0)
            && var d := if val < 0 then r[1..] else r;
               && |d| >= 1
               && AllDigits(d)
               && ParseDecimal(d) == Abs(val)
               && (d[0] == '0' ==> d == "0")
  {
    var magnitude := Abs(val);
    ParseDigits(magnitude);
    Pow10Of10();
    DigitsLength(magnitude, 10);
    var digits := Decimal(magnitude);
    assert ParseDecimal(digits) == magnitude by {
      if magnitude == 0 {
        assert ParseDecimal("0") == 10 * ParseDecimal([]) + 0;
      }
    }
    var r := PrintInt(val);
    assert (if val < 0 then r[1..] else r) == digits;
  }

  /** The characters of `s` in the opposite order. */
  function Reverse(s: seq<CChar>): (r: seq<CChar>)
  {
    seq(|s|, k requires 0 <= k < |s| => s[|s| - 1 - k])
  }

  /** Storing the next least significant digit keeps the buffer, read
      backwards, the tail of the digits of `n`. */
  lemma FillStep(n: nat, v: nat, buffer: seq<CChar>, i: nat)
    requires v > 0 && i < |buffer|
    requires Digits(v) + Reverse(buffer[..i]) == Digits(n)
    ensures Digits(v / 10) + Reverse(buffer[i := DigitChar(v % 10)][..i + 1]) == Digits(n)
  {
    var d := DigitChar(v % 10);
    var front, back := Digits(v / 10), Reverse(buffer[..i]);
    assert buffer[i := d][..i + 1] == buffer[..i] + [d];
    ReverseSnoc(buffer[..i], d);
    assert Digits(v) == front + [d];
    assert front + ([d] + back) == (front + [d]) + back;
  }

  /** Reversing a sequence with one more character at its end puts that
      character first. */
  lemma ReverseSnoc(s: seq<CChar>, d: CChar)
    ensures Reverse(s + [d]) == [d] + Reverse(s)
  {
  }

  /** Sending one more character from the end of the buffer. */
  lemma DrainStep(filled: seq<CChar>, i: nat)
    requires 0 < i <= |filled|
    ensures Reverse(filled[i - 1..]) == Reverse(filled[i..]) + [filled[i - 1]]
  {
  }

  /** print_int of 0 sends exactly "0". */
  lemma PrintIntZero(val: Int32)
    requires val == 0
    ensures PrintInt(val) == "0"
  {
  }

  /** print_int's first loop: stores the digits of `v` into a 12-character
      buffer, least significant first, and returns how many it stored. Every
      index is checked, so the buffer never overflows. */
  method FillDigits(v0: nat) returns (buffer: seq<CChar>, i: nat)
    requires 0 < v0 <= INT_MAX
    ensures |buffer| == 12 && i <= |buffer|
    ensures Reverse(buffer[..i]) == Digits(v0)
  {
    buffer := seq(12, _ => NUL);
    i := 0;
    var v := v0;
    Pow10Of10();
    DigitsLength(v0, 10);
    while v > 0
      invariant 0 <= v <= v0
      invariant |buffer| == 12
      invariant i + |Digits(v)| == |Digits(v0)|
      invariant Digits(v) + Reverse(buffer[..i]) == Digits(v0)
      decreases v
    {
      FillStep(v0, v, buffer, i);
      buffer := buffer[i := DigitChar(v % 10)];
      i := i + 1;
      v := v / 10;
    }
    assert Digits(v) == [];
  }

  /** print_int's second loop: sends `buffer[i-1]`, ..., `buffer[0]` after
      what was already sent. */
  method SendBackwards(sent: seq<CChar>, buffer: seq<CChar>, count: nat) returns (out: seq<CChar>)
    requires count <= |buffer|
    ensures out == sent + Reverse(buffer[..count])
  {
    ghost var filled := buffer[..count];
    out := sent;
    var i := count;
    while i > 0
      invariant 0 <= i <= count
      invariant out == sent + Reverse(filled[i..])
      decreases i
    {
      DrainStep(filled, i);
      i := i - 1;
      out := out + [buffer[i]];
    }
    assert filled[0..] == filled;
  }

  /** print_int as written: '0' alone for zero; otherwise the digits are
      stored least significant first, the sign is sent, and the buffer is
      sent from its end back to its start. */
  method PrintIntBuffer(val: Int32) returns (out: seq<CChar>)
    requires val != INT_MIN
    ensures out == PrintInt(val)
  {
    var isNegative := false;
    var v: int := val;
    if v < 0 {
      isNegative := true;
      v := -v;
    }
    if v == 0 {
      out := "0";
      PrintIntZero(val);
      return;
    }
    var buffer, i := FillDigits(v);
    var sign: seq<CChar> := if isNegative then "-" else [];
    out := SendBackwards(sign, buffer, i);
    assert Decimal(Abs(val)) == Digits(v);
  }

  // ---------------------------------------------------------------------------
  // print_hex

  const HEX_DIGITS: seq<CChar> := "0123456789abcdef"

  predicate IsHexDigit(c: CChar)
  {
    '0' <= c <= '9' || 'a' <= c <= 'f'
  }

  function HexValue(c: CChar): nat
    requires IsHexDigit(c)
  {
    if c <= '9' then c as int - '0' as int else c as int - 'a' as int + 10
  }

  function Pow2(k: nat): (p: nat)
    ensures p > 0
  {
    if k == 0 then 1 else 2 * Pow2(k - 1)
  }

  /** One table lookup `hex[d]` gives back `d`. */
  lemma HexTable(d: nat)
    requires d < 16
    ensures IsHexDigit(HEX_DIGITS[d]) && HexValue(HEX_DIGITS[d]) == d
  {
  }

  /** `(val >> i) & 0xF` for an unsigned `val`. */
  function Nibble(val: nat, i: nat): nat
  {
    (val / Pow2(i)) % 16
  }

  /** The loop of print_hex for the `k` shifts 4*(k-1), ..., 4, 0. */
  function HexLoop(val: nat, k: nat): (r: seq<CChar>)
    ensures |r| == k
    ensures forall j :: 0 <= j < |r| ==> IsHexDigit(r[j])
    decreases k
  {
    if k == 0 then []
    else
      HexTable(Nibble(val, 4 * (k - 1)));
      [HEX_DIGITS[Nibble(val, 4 * (k - 1))]] + HexLoop(val, k - 1)
  }

  /** Reads hex digits back as a number, the first digit the most significant. */
  function ParseHex(s: seq<CChar>): nat
    requires forall j :: 0 <= j < |s| ==> IsHexDigit(s[j])
    decreases |s|
  {
    if s == [] then 0 else HexValue(s[0]) * Pow2(4 * (|s| - 1)) + ParseHex(s[1..])
  }

  /** print_hex: "0x" and then the 8 digits of the shifts 28, 24, ..., 0. */
  function PrintHex(val: UInt32): seq<CChar>
  {
    ['0', 'x'] + HexLoop(val, 8)
  }

  /** The 8 digits of a 32-bit value read back as the value. */
  lemma HexLoopFull(val: UInt32)
    ensures ParseHex(HexLoop(val, 8)) == val
  {
    ParseHexLoop(val, 8);
    Pow2Of32();
    DivModUnique(val, Pow2(32), 0, val);
  }

  /** print_hex sends exactly 10 characters: "0x" and then 8 lowercase hex
      digits, high nibble first, which read back as `val`. */
  lemma PrintHexSpec(val: UInt32)
    ensures var r := PrintHex(val);
            && |r| == 10 && r[0] == '0' && r[1] == 'x'
            && (forall j :: 2 <= j < 10 ==> IsHexDigit(r[j]))
            && ParseHex(r[2..]) == val
  {
    var digits := HexLoop(val, 8);
    HexLoopFull(val);
    assert PrintHex(val)[2..] == digits;
  }

  lemma {:induction false} Pow2Add(a: nat, b: nat)
    ensures Pow2(a + b) == Pow2(a) * Pow2(b)
    decreases a
  {
    if a > 0 {
      Pow2Add(a - 1, b);
    }
  }

  lemma Pow2Of32()
    ensures Pow2(32) == UINT_MAX + 1
  {
    assert Pow2(4) == 16;
    Pow2Add(4, 4);
    Pow2Add(8, 8);
    Pow2Add(16, 16);
  }

  lemma Pow2Step(k: nat)
    ensures Pow2(4 * k + 4) == 16 * Pow2(4 * k)
  {
    assert Pow2(4 * k + 4) == 2 * Pow2(4 * k + 3);
    assert Pow2(4 * k + 3) == 2 * Pow2(4 * k + 2);
    assert Pow2(4 * k + 2) == 2 * Pow2(4 * k + 1);
  }

  lemma {:induction false} MulAtLeast(a: int, d: int)
    requires a >= 1 && d > 0
    ensures a * d >= d
    decreases a
  {
    if a > 1 {
      MulAtLeast(a - 1, d);
      assert a * d == (a - 1) * d + d;
    }
  }

  /** Division with remainder determines quotient and remainder. */
  lemma DivModUnique(v: int, d: int, q: int, x: int)
    requires d > 0 && 0 <= x < d && v == q * d + x
    ensures v / d == q && v % d == x
  {
    var q', x' := v / d, v % d;
    var e := q - q';
    assert e * d == x' - x by {
      assert q * d - q' * d == (q - q') * d;
    }
    if e >= 1 {
      MulAtLeast(e, d);
      assert false;
    } else if e <= -1 {
      MulAtLeast(-e, d);
      assert false;
    }
  }

  /** The next hex digit up extends the value below it by one place. */
  lemma ModNextNibble(v: nat, p: nat)
    requires p > 0
    ensures (v / p % 16) * p + v % p == v % (16 * p)
  {
    var q, x := v / p, v % p;
    var hi, lo := q / 16, q % 16;
    assert v == q * p + x;
    assert q == hi * 16 + lo;
    SplitProduct(hi, lo, p);
    LowPartBelow(lo, p, x);
    DivModUnique(v, 16 * p, hi, lo * p + x);
  }

  /** `(16 hi + lo) p = hi (16 p) + lo p`. */
  lemma SplitProduct(hi: int, lo: int, p: int)
    ensures (hi * 16 + lo) * p == hi * (16 * p) + lo * p
  {
  }

  /** A nibble times `p` plus a remainder below `p` stays below `16 p`. */
  lemma LowPartBelow(lo: int, p: int, x: int)
    requires 0 <= lo < 16 && 0 <= x < p
    ensures 0 <= lo * p + x < 16 * p
  {
    if lo < 15 {
      MulAtLeast(15 - lo, p);
      assert (15 - lo) * p == 16 * p - (lo + 1) * p;
    }
  }

  /** The k digits print_hex's loop sends read back as `val` modulo 16^k. */
  lemma {:induction false} ParseHexLoop(val: nat, k: nat)
    ensures ParseHex(HexLoop(val, k)) == val % Pow2(4 * k)
    decreases k
  {
    if k > 0 {
      var s := HexLoop(val, k);
      var p := Pow2(4 * (k - 1));
      ParseHexLoop(val, k - 1);
      HexTable(Nibble(val, 4 * (k - 1)));
      assert s[1..] == HexLoop(val, k - 1);
      assert ParseHex(s) == Nibble(val, 4 * (k - 1)) * p + val % p;
      ModNextNibble(val, p);
      Pow2Step(k - 1);
    }
  }

  // ---------------------------------------------------------------------------
  // printf

  /** A variadic argument, tagged with the type `va_arg` reads it as:
      `%d` and `%c` read an `int`, `%s` a `char *`, `%x` an `unsigned int`. */
  datatype Arg = Int(i: Int32) | Str(s: seq<CChar>) | UInt(u: UInt32)

  /** The directive letters that consume an argument. */
  predicate IsConversion(d: CChar)
  {
    d == 'd' || d == 's' || d == 'c' || d == 'x'
  }

  /** Whether `a` is what directive `d` reads. `%d` of INT_MIN is left out:
      print_int negates it, which overflows. */
  predicate Fits(d: CChar, a: Arg)
  {
    if d == 'd' then a.Int? && a.i != INT_MIN
    else if d == 'c' then a.Int?
    else if d == 's' then a.Str? && Terminated(a.s)
    else if d == 'x' then a.UInt?
    else false
  }

  /** The text of a format (the characters before its NUL) has no '%' as its
      last character, which printf would pair with the terminator. */
  predicate Complete(t: seq<CChar>)
    decreases |t|
  {
    if t == [] then true
    else if t[0] != '%' then Complete(t[1..])
    else |t| >= 2 && Complete(t[2..])
  }

  /** The argument-consuming directive letters of a format text, in order. */
  function Conversions(t: seq<CChar>): seq<CChar>
    requires Complete(t)
    decreases |t|
  {
    if t == [] then []
    else if t[0] != '%' then Conversions(t[1..])
    else if IsConversion(t[1]) then [t[1]] + Conversions(t[2..])
    else Conversions(t[2..])
  }

  /** Each directive has a fitting argument, in order. Arguments beyond the
      last directive are allowed: `va_arg` never reaches them. */
  predicate ArgsFit(ds: seq<CChar>, args: seq<Arg>)
    decreases |ds|
  {
    if ds == [] then true
    else args != [] && Fits(ds[0], args[0]) && ArgsFit(ds[1..], args[1..])
  }

  lemma ArgsFitTail(d: CChar, ds: seq<CChar>, args: seq<Arg>)
    requires ArgsFit([d] + ds, args)
    ensures Fits(d, args[0]) && ArgsFit(ds, args[1..])
  {
    assert ([d] + ds)[1..] == ds;
  }

  lemma {:induction false} ArgsFitAppend(ds1: seq<CChar>, a1: seq<Arg>, ds2: seq<CChar>, a2: seq<Arg>)
    requires ArgsFit(ds1, a1) && |a1| == |ds1| && ArgsFit(ds2, a2)
    ensures ArgsFit(ds1 + ds2, a1 + a2)
    decreases |ds1|
  {
    if ds1 == [] {
      assert ds1 + ds2 == ds2 && a1 + a2 == a2;
    } else {
      ArgsFitAppend(ds1[1..], a1[1..], ds2, a2);
      assert (ds1 + ds2)[1..] == ds1[1..] + ds2;
      assert (a1 + a2)[1..] == a1[1..] + a2;
    }
  }

  /** What one argument-consuming directive sends. */
  function Convert(d: CChar, a: Arg): seq<CChar>
    requires Fits(d, a)
  {
    if d == 'd' then PrintInt(a.i)
    else if d == 's' then PrintString(a.s)
    else if d == 'c' then [ToCChar(a.i)]
    else PrintHex(a.u)
  }

  /** printf's loop over the text of its format. */
  function Run(t: seq<CChar>, args: seq<Arg>): seq<CChar>
    requires Complete(t) && ArgsFit(Conversions(t), args)
    decreases |t|
  {
    if t == [] then []
    else if t[0] != '%' then [t[0]] + Run(t[1..], args)
    else if IsConversion(t[1]) then
      ArgsFitTail(t[1], Conversions(t[2..]), args);
      Convert(t[1], args[0]) + Run(t[2..], args[1..])
    else if t[1] == '%' then ['%'] + Run(t[2..], args)
    else ['%', t[1]] + Run(t[2..], args)
  }

  /** What printf demands of a call: a NUL-terminated format with no lone
      '%' before the NUL, and one fitting argument per conversion. */
  predicate PrintfReady(fmt: seq<CChar>, args: seq<Arg>)
  {
    Terminated(fmt) && Complete(Content(fmt)) && ArgsFit(Conversions(Content(fmt)), args)
  }

  /** printf: runs over the format up to its NUL and returns 0. */
  function Printf(fmt: seq<CChar>, args: seq<Arg>): (e: Emitted)
    requires PrintfReady(fmt, args)
    ensures e.ret == 0
  {
    Emitted(Run(Content(fmt), args), 0)
  }

  /** A format text without '%' is sent verbatim and reads no argument. */
  lemma {:induction false} LiteralText(t: seq<CChar>)
    requires '%' !in t
    ensures Complete(t) && Conversions(t) == []
    ensures Run(t, []) == t
    decreases |t|
  {
    if t != [] {
      assert '%' !in t[1..] by {
        forall k | 0 <= k < |t[1..]| ensures t[1..][k] != '%' {
          assert t[1..][k] == t[k + 1];
        }
      }
      LiteralText(t[1..]);
    }
  }

  /** Two complete format texts one after the other form a complete text
      whose directives are those of the first followed by those of the
      second. */
  lemma {:induction false} ConversionsAppend(t1: seq<CChar>, t2: seq<CChar>)
    requires Complete(t1) && Complete(t2)
    ensures Complete(t1 + t2)
    ensures Conversions(t1 + t2) == Conversions(t1) + Conversions(t2)
    decreases |t1|
  {
    if t1 == [] {
      assert t1 + t2 == t2;
    } else if t1[0] != '%' {
      DropAppend(t1, t2, 1);
      ConversionsAppend(t1[1..], t2);
    } else {
      DropAppend(t1, t2, 2);
      ConversionsAppend(t1[2..], t2);
    }
  }

  /** Dropping a prefix of the first of two sequences joined. */
  lemma DropAppend<T>(x: seq<T>, y: seq<T>, n: nat)
    requires n <= |x|
    ensures forall k :: 0 <= k < n ==> (x + y)[k] == x[k]
    ensures (x + y)[n..] == x[n..] + y
  {
  }

  /** A character other than '%' is sent as it is, and the loop goes on
      with the next character and the same arguments. */
  lemma RunLiteral(t: seq<CChar>, args: seq<Arg>)
    requires Complete(t) && ArgsFit(Conversions(t), args)
    requires t != [] && t[0] != '%'
    ensures Complete(t[1..]) && ArgsFit(Conversions(t[1..]), args)
    ensures Run(t, args) == [t[0]] + Run(t[1..], args)
  {
  }

  /** `%d`, `%s`, `%c` or `%x` takes the first argument, sends its
      conversion, and the loop goes on after the directive with the
      remaining arguments. */
  lemma RunConversion(t: seq<CChar>, args: seq<Arg>)
    requires Complete(t) && ArgsFit(Conversions(t), args)
    requires t != [] && t[0] == '%' && IsConversion(t[1])
    ensures Complete(t[2..]) && |args| >= 1 && Fits(t[1], args[0])
    ensures ArgsFit(Conversions(t[2..]), args[1..])
    ensures Run(t, args) == Convert(t[1], args[0]) + Run(t[2..], args[1..])
  {
    ArgsFitTail(t[1], Conversions(t[2..]), args);
  }

  /** `%%` sends one '%', and '%' before any other letter `ch` sends '%' and
      `ch`; neither takes an argument, and the loop goes on after the pair. */
  lemma RunPercent(t: seq<CChar>, args: seq<Arg>)
    requires Complete(t) && ArgsFit(Conversions(t), args)
    requires t != [] && t[0] == '%' && !IsConversion(t[1])
    ensures Complete(t[2..]) && ArgsFit(Conversions(t[2..]), args)
    ensures t[1] == '%' ==> Run(t, args) == ['%'] + Run(t[2..], args)
    ensures t[1] != '%' ==> Run(t, args) == ['%', t[1]] + Run(t[2..], args)
  {
  }

  /** printf works left to right with no state besides the argument list:
      the output for two texts one after the other is the output for the
      first, with its own arguments, followed by that for the second. */
  lemma {:induction false} RunAppend(t1: seq<CChar>, a1: seq<Arg>, t2: seq<CChar>, a2: seq<Arg>)
    requires Complete(t1) && ArgsFit(Conversions(t1), a1) && |a1| == |Conversions(t1)|
    requires Complete(t2) && ArgsFit(Conversions(t2), a2)
    ensures Complete(t1 + t2)
    ensures Conversions(t1 + t2) == Conversions(t1) + Conversions(t2)
    ensures ArgsFit(Conversions(t1 + t2), a1 + a2)
    ensures Run(t1 + t2, a1 + a2) == Run(t1, a1) + Run(t2, a2)
    decreases |t1|
  {
    ConversionsAppend(t1, t2);
    ArgsFitAppend(Conversions(t1), a1, Conversions(t2), a2);
    var t, a := t1 + t2, a1 + a2;
    if t1 == [] {
      assert t == t2 && a == a2;
    } else if t1[0] != '%' {
      DropAppend(t1, t2, 1);
      RunLiteral(t, a);
      RunLiteral(t1, a1);
      RunAppend(t1[1..], a1, t2, a2);
      Regroup([t1[0]], Run(t1[1..], a1), Run(t2, a2), Run(t, a), Run(t1, a1));
    } else {
      DropAppend(t1, t2, 2);
      if IsConversion(t1[1]) {
        RunConversion(t, a);
        RunConversion(t1, a1);
        DropAppend(a1, a2, 1);
        RunAppend(t1[2..], a1[1..], t2, a2);
        Regroup(Convert(t1[1], a1[0]), Run(t1[2..], a1[1..]), Run(t2, a2), Run(t, a), Run(t1, a1));
      } else {
        RunPercent(t, a);
        RunPercent(t1, a1);
        RunAppend(t1[2..], a1, t2, a2);
        var c: seq<CChar> := if t1[1] == '%' then ['%'] else ['%', t1[1]];
        Regroup(c, Run(t1[2..], a1), Run(t2, a2), Run(t, a), Run(t1, a1));
      }
    }
  }

  /** Arguments that fit stay fitting with more arguments after them. */
  lemma {:induction false} ArgsFitExtend(ds: seq<CChar>, args: seq<Arg>, extra: seq<Arg>)
    requires ArgsFit(ds, args)
    ensures ArgsFit(ds, args + extra)
    decreases |ds|
  {
    if ds != [] {
      ArgsFitExtend(ds[1..], args[1..], extra);
      assert (args + extra)[1..] == args[1..] + extra;
    }
  }

  /** Arguments beyond those the directives read change nothing that is sent. */
  lemma {:induction false} ExtraArgsIgnored(t: seq<CChar>, args: seq<Arg>, extra: seq<Arg>)
    requires Complete(t) && ArgsFit(Conversions(t), args)
    ensures ArgsFit(Conversions(t), args + extra)
    ensures Run(t, args + extra) == Run(t, args)
    decreases |t|
  {
    ArgsFitExtend(Conversions(t), args, extra);
    if t != [] {
      if t[0] != '%' {
        RunLiteral(t, args);
        RunLiteral(t, args + extra);
        ExtraArgsIgnored(t[1..], args, extra);
      } else if IsConversion(t[1]) {
        RunConversion(t, args);
        RunConversion(t, args + extra);
        assert (args + extra)[1..] == args[1..] + extra;
        ExtraArgsIgnored(t[2..], args[1..], extra);
      } else {
        RunPercent(t, args);
        RunPercent(t, args + extra);
        ExtraArgsIgnored(t[2..], args, extra);
      }
    }
  }

  /** Regrouping a three-part concatenation. */
  lemma Regroup(c: seq<CChar>, x: seq<CChar>, y: seq<CChar>, whole: seq<CChar>, part: seq<CChar>)
    requires whole == c + (x + y) && part == c + x
    ensures whole == part + y
  {
  }

  /** `%%` sends one '%'; any other non-conversion letter `ch` sends '%' and
      `ch`; neither reads an argument. */
  lemma PercentDirectives(ch: CChar)
    requires !IsConversion(ch) && ch != NUL
    ensures Complete(['%', ch]) && Conversions(['%', ch]) == []
    ensures ch == '%' ==> Run(['%', ch], []) == ['%']
    ensures ch != '%' ==> Run(['%', ch], []) == ['%', ch]
  {
    assert ['%', ch][2..] == [];
  }

  /** `%d`, `%s`, `%c` and `%x` each read exactly one argument and send its
      conversion: `%c` the argument truncated to a char, `%s` the string
      without its NUL. */
  lemma ConversionDirectives(ch: CChar, a: Arg)
    requires IsConversion(ch) && Fits(ch, a)
    ensures Complete(['%', ch]) && Conversions(['%', ch]) == [ch]
    ensures Run(['%', ch], [a]) == Convert(ch, a)
    ensures ch == 'c' ==> Run(['%', ch], [a]) == [ToCChar(a.i)]
    ensures ch == 's' ==> Run(['%', ch], [a]) == Content(a.s)
  {
    assert ['%', ch][2..] == [];
    assert [a][1..] == [];
  }

  lemma {:induction false} Pow2AtLeast(i: nat)
    requires i >= 8
    ensures Pow2(i) >= 256
    decreases i
  {
    if i > 8 {
      Pow2AtLeast(i - 1);
    }
  }

  /** Above the low byte, every nibble of a byte value is 0. */
  lemma {:induction false} HexLoopOfByte(v: nat, k: nat)
    requires v < 256 && k >= 2
    ensures HexLoop(v, k) == seq(k - 2, _ => '0') + HexLoop(v, 2)
    decreases k
  {
    if k > 2 {
      HexLoopOfByte(v, k - 1);
      Pow2AtLeast(4 * (k - 1));
      DivModUnique(v, Pow2(4 * (k - 1)), 0, v);
      assert Nibble(v, 4 * (k - 1)) == 0;
      assert seq(k - 2, _ => '0') == ['0'] + seq(k - 3, _ => '0');
    }
  }

  /** A format holding one conversion sends that argument's conversion. */
  lemma SingleConversion(ch: CChar, a: Arg)
    requires IsConversion(ch) && Fits(ch, a)
    ensures PrintfReady(['%', ch, NUL], [a])
    ensures Printf(['%', ch, NUL], [a]).out == Convert(ch, a)
  {
    ContentOfText(['%', ch]);
    assert ['%', ch] + [NUL] == ['%', ch, NUL];
    ConversionDirectives(ch, a);
  }

  /** print_hex of a value below 256: six zero digits and then its two. */
  lemma PrintHexByte(v: UInt32)
    requires v < 256
    ensures PrintHex(v) == "0x000000" + [HEX_DIGITS[v / 16], HEX_DIGITS[v % 16]]
  {
    HexLoopOfByte(v, 8);
    var hi, lo := v / 16, v % 16;
    assert Pow2(4) == 16 && Pow2(0) == 1;
    assert hi < 16;
    DivModUnique(hi, 16, 0, hi);
    assert Nibble(v, 4) == hi;
    assert Nibble(v, 0) == lo;
  }

  /** `%d` of 0 sends "0". */
  lemma ExampleZero()
    ensures PrintfReady("%d\0", [Int(0)]) && Printf("%d\0", [Int(0)]).out == "0"
  {
    SingleConversion('d', Int(0));
    PrintIntZero(0);
  }

  /** `%d` of -42 sends "-42". */
  lemma ExampleNegative()
    ensures PrintfReady("%d\0", [Int(-42)]) && Printf("%d\0", [Int(-42)]).out == "-42"
  {
    SingleConversion('d', Int(-42));
    assert Digits(4) == "4";
    assert Digits(42) == "42";
  }

  /** `%x` of 255 sends all eight digits, leading zeros included. */
  lemma ExampleHex()
    ensures PrintfReady("%x\0", [UInt(255)]) && Printf("%x\0", [UInt(255)]).out == "0x000000ff"
  {
    SingleConversion('x', UInt(255));
    PrintHexByte(255);
  }

  /** `%s` sends the string without its NUL. */
  lemma ExampleString()
    ensures PrintfReady("%s\0", [Str("hi\0")]) && Printf("%s\0", [Str("hi\0")]).out == "hi"
  {
    ContentOfText("hi");
    SingleConversion('s', Str("hi\0"));
  }

  /** `%%` sends one '%'. */
  lemma ExamplePercent()
    ensures PrintfReady("100%%done\0", []) && Printf("100%%done\0", []).out == "100%done"
  {
    PercentBetweenText("100", "done");
    assert "100" + "%%" + "done" + [NUL] == "100%%done\0";
    assert "100" + "%" + "done" == "100%done";
  }

  /** `%%` between two plain texts: the texts are sent verbatim around one '%'. */
  lemma PercentBetweenText(pre: seq<CChar>, post: seq<CChar>)
    requires '%' !in pre && NUL !in pre
    requires '%' !in post && NUL !in post
    ensures PrintfReady(pre + "%%" + post + [NUL], [])
    ensures Printf(pre + "%%" + post + [NUL], []).out == pre + "%" + post
  {
    var tail := "%%" + post;
    var t := pre + tail;
    assert pre + "%%" + post == t;
    NotInAppend(pre, tail, NUL) by {
      NotInAppend("%%", post, NUL);
    }
    ContentOfText(t);
    LiteralText(pre);
    PercentThenText(post);
    RunAppend(pre, [], tail, []);
  }

  /** `%%` followed by a plain text sends '%' and then the text. */
  lemma PercentThenText(post: seq<CChar>)
    requires '%' !in post
    ensures Complete("%%" + post) && Conversions("%%" + post) == []
    ensures Run("%%" + post, []) == "%" + post
  {
    LiteralText(post);
    PercentDirectives('%');
    RunAppend("%%", [], post, []);
  }

  lemma NotInAppend<T>(x: seq<T>, y: seq<T>, e: T)
    requires e !in x && e !in y
    ensures e !in x + y
  {
  }

  /** An unknown directive is sent back as written. */
  lemma ExampleUnknown()
    ensures PrintfReady("%q\0", []) && Printf("%q\0", []).out == "%q"
  {
    ContentOfText("%q");
    PercentDirectives('q');
  }

  // ---------------------------------------------------------------------------
  // write

  /** write: sends `ptr[0..len)` in order, whatever the file, and returns
      `len`. Nothing is read from `ptr` when `len <= 0`. */
  method Write(file: Int32, ptr: seq<CChar>, len: Int32) returns (e: Emitted)
    requires len <= |ptr|
    ensures e.ret == len
    ensures len <= 0 ==> e.out == []
    ensures len > 0 ==> e.out == ptr[..len]
  {
    var out: seq<CChar> := [];
    var i := 0;
    while i < len
      invariant 0 <= i <= (if len > 0 then len else 0)
      invariant out == ptr[..i]
      decreases len - i
    {
      out := out + [ptr[i]];
      i := i + 1;
    }
    e := Emitted(out, len);
  }

  // ---------------------------------------------------------------------------
  // sbrk

  /** The static `heap_end` of sbrk, as an address; 0 until the first call. */
  datatype Break = Break(heapEnd: int)

  const INITIAL_BREAK: Break := Break(0)

  /** The address sbrk returns and the break it leaves. */
  datatype SbrkStep = SbrkStep(prev: int, next: Break)

  /** sbrk: the first call sets the break to `end` (the address of `_end`);
      every call returns the break as it was and moves it by `incr`, with no
      bound. */
  function Sbrk(b: Break, incr: Int32, end: int): (s: SbrkStep)
    ensures s.prev == (if b.heapEnd == 0 then end else b.heapEnd)
    ensures s.next.heapEnd - s.prev == incr
  {
    var heapEnd := if b.heapEnd == 0 then end else b.heapEnd;
    SbrkStep(heapEnd, Break(heapEnd + incr))
  }

  /** The addresses returned by successive sbrk calls. */
  function SbrkRun(b: Break, incrs: seq<Int32>, end: int): (rs: seq<int>)
    ensures |rs| == |incrs|
    decreases |incrs|
  {
    if incrs == [] then []
    else
      var s := Sbrk(b, incrs[0], end);
      [s.prev] + SbrkRun(s.next, incrs[1..], end)
  }

  /** Growing calls, from any break, hand out adjacent regions one after the
      other, starting where the break was. */
  lemma {:induction false} SbrkRegions(b: Break, incrs: seq<Int32>, end: int)
    requires end > 0 && b.heapEnd >= 0
    requires forall k :: 0 <= k < |incrs| ==> incrs[k] >= 0
    ensures var rs := SbrkRun(b, incrs, end);
            && (|rs| > 0 ==> rs[0] == (if b.heapEnd == 0 then end else b.heapEnd))
            && (forall k :: 0 <= k < |rs| - 1 ==> rs[k] + incrs[k] == rs[k + 1])
            && (forall i, j :: 0 <= i < j < |rs| ==> rs[i] + incrs[i] <= rs[j])
    decreases |incrs|
  {
    if incrs != [] {
      var s := Sbrk(b, incrs[0], end);
      var rest := SbrkRun(s.next, incrs[1..], end);
      SbrkRegions(s.next, incrs[1..], end);
      var rs := SbrkRun(b, incrs, end);
      assert rs == [s.prev] + rest;
      assert forall k :: 0 <= k < |rest| ==> rest[k] >= s.next.heapEnd by {
        RunAbove(s.next, incrs[1..], end);
      }
    }
  }

  /** With growing calls every returned address is at least the break. */
  lemma {:induction false} RunAbove(b: Break, incrs: seq<Int32>, end: int)
    requires end > 0 && b.heapEnd > 0
    requires forall k :: 0 <= k < |incrs| ==> incrs[k] >= 0
    ensures forall k :: 0 <= k < |incrs| ==> SbrkRun(b, incrs, end)[k] >= b.heapEnd
    decreases |incrs|
  {
    if incrs != [] {
      var s := Sbrk(b, incrs[0], end);
      RunAbove(s.next, incrs[1..], end);
      var rs := SbrkRun(b, incrs, end);
      forall k | 0 <= k < |incrs| ensures rs[k] >= b.heapEnd {
        if k > 0 {
          assert rs[k] == SbrkRun(s.next, incrs[1..], end)[k - 1];
        }
      }
    }
  }
}
