/** Printing numbers (printnum in src/stdio.c) and reading them back (strtol in src/string.c). */
module Numbers {

  import opened Words

  // ---- digits -------------------------------------------------------------------------------------------

  /** The digit a character stands for, or -1. */
  function DigitOf(c: char): (d: int)
    ensures -1 <= d < 36
  {
    if '0' <= c <= '9' then c as int - '0' as int
    else if 'a' <= c <= 'z' then c as int - 'a' as int + 10
    else if 'A' <= c <= 'Z' then c as int - 'A' as int + 10
    else -1
  }

  function CharOf(d: nat): (c: char)
    requires d < 16
    ensures DigitOf(c) == d
  {
    "0123456789abcdef"[d]
  }

  /** The positional value of a string of digits. */
  function Value(s: seq<char>, base: int): int {
    if s == [] then 0 else Value(s[..|s| - 1], base) * base + DigitOf(s[|s| - 1])
  }

  predicate AllDigits(s: seq<char>, base: int) { forall i :: 0 <= i < |s| ==> 0 <= DigitOf(s[i]) < base }

  lemma ValueAppend(s: seq<char>, c: char, base: int)
    ensures Value(s + [c], base) == Value(s, base) * base + DigitOf(c)
  {
    assert (s + [c])[..|s|] == s;
  }

  lemma DivideStep(n: nat, base: nat)
    requires 2 <= base <= n
    ensures 1 <= n / base < n && 0 <= n % base < base && n == n / base * base + n % base
  {
    Products(base, n / base);
  }

  lemma Products(base: nat, q: int)
    requires base >= 2
    ensures q <= 0 ==> q * base <= 0
    ensures q >= 0 ==> q * base >= 2 * q
  {
    assert q >= 0 ==> q * (base - 2) >= 0;
  }

  // ---- printing -------------------------------------------------------------------------------------------

  function Repeat(c: char, n: int): (s: seq<char>)
    ensures |s| == if n > 0 then n else 0
    ensures forall i :: 0 <= i < |s| ==> s[i] == c
  {
    if n <= 0 then [] else Repeat(c, n - 1) + [c]
  }

  lemma NumeralStarts(n: nat, base: nat)
    requires 2 <= base <= 16 && n < base
    ensures Value([CharOf(n)], base) == n && AllDigits([CharOf(n)], base)
  {
    ValueAppend([], CharOf(n), base);
  }

  lemma NumeralGrows(high: seq<char>, n: nat, base: nat)
    requires 2 <= base <= 16 && base <= n && Value(high, base) == n / base && AllDigits(high, base)
    ensures 0 <= n % base < base
    ensures Value(high + [CharOf(n % base)], base) == n && AllDigits(high + [CharOf(n % base)], base)
  {
    hide Value, DigitOf;
    DivideStep(n, base);
    ValueAppend(high, CharOf(n % base), base);
  }

  /** The shortest numeral of n: its value is n and it has no leading zero unless it is "0". */
  function Numeral(n: nat, base: nat): (s: seq<char>)
    requires 2 <= base <= 16
    ensures s != [] && Value(s, base) == n && AllDigits(s, base)
    ensures s[0] == '0' ==> n == 0 && |s| == 1
    decreases n
  {
    if n < base then
      NumeralStarts(n, base);
      [CharOf(n)]
    else
      DivideStep(n, base);
      var high := Numeral(n / base, base);
      NumeralGrows(high, n, base);
      high + [CharOf(n % base)]
  }

  /** n printed right-justified: padding, if the numeral is shorter than the field, and the numeral. */
  function Printed(n: nat, base: nat, width: int, padc: char): (s: seq<char>)
    requires 2 <= base <= 16
    ensures |s| == if width > |Numeral(n, base)| then width else |Numeral(n, base)|
  {
    Repeat(padc, width - |Numeral(n, base)|) + Numeral(n, base)
  }

  /** printnum: it prints the higher digits first in a field that is one narrower, and pads when it
      reaches the first digit. */
  method Printnum(out: seq<char>, n: nat, base: nat, width: int, padc: char) returns (r: seq<char>)
    requires 2 <= base <= 16
    ensures r == out + Printed(n, base, width, padc)
    decreases n
  {
    hide Value, AllDigits;
    r := out;
    if n >= base {
      DivideStep(n, base);
      r := Printnum(r, n / base, base, width - 1, padc);
    } else {
      var w := width - 1;
      while w > 0
        invariant r == out + Repeat(padc, width - 1 - (if w > 0 then w else 0))
        decreases w
      {
        r := r + [padc];
        w := w - 1;
      }
    }
    SmallRemainder(n, base);
    r := r + [CharOf(n % base)];
  }

  lemma SmallRemainder(n: nat, base: nat)
    requires 2 <= base
    ensures 0 <= n % base < base && (n < base ==> n % base == n)
  {
    if n < base {
      assert n / base * base + n % base == n;
      assert n / base == 0;
    }
  }

  // ---- reading --------------------------------------------------------------------------------------------

  /** The character at position i of a C string. */
  function At(s: seq<char>, i: nat): char { if i < |s| then s[i] else '\0' }

  predicate IsBlank(c: char) { c == ' ' || c == '\t' }

  function SkipBlanks(s: seq<char>, i: nat): (r: nat)
    ensures i <= r && (i <= |s| ==> r <= |s|) && !IsBlank(At(s, r))
    ensures forall j :: i <= j < r ==> IsBlank(At(s, j))
    decreases |s| - i
  {
    if i < |s| && IsBlank(s[i]) then SkipBlanks(s, i + 1) else i
  }

  predicate HasDigit(s: seq<char>, base: int, i: nat) { 0 <= DigitOf(At(s, i)) < base }

  /** The end of the longest run of digits that starts at i. */
  function RunEnd(s: seq<char>, base: int, i: nat): (r: nat)
    ensures i <= r && (i <= |s| ==> r <= |s|) && !HasDigit(s, base, r)
    ensures forall j :: i <= j < r ==> HasDigit(s, base, j)
    decreases |s| - i
  {
    if i < |s| && HasDigit(s, base, i) then RunEnd(s, base, i + 1) else i
  }

  /** The base that is meant and where the digits start. */
  function Prefix(s: seq<char>, base: int, i: nat): (int, nat) {
    if (base == 0 || base == 16) && At(s, i) == '0' && At(s, i + 1) == 'x' then (16, i + 2)
    else if base == 0 && At(s, i) == '0' then (8, i + 1)
    else if base == 0 then (10, i)
    else (base, i)
  }

  function SkipSign(s: seq<char>, i: nat): nat { if At(s, i) == '+' || At(s, i) == '-' then i + 1 else i }

  /** What strtol answers, in unbounded arithmetic up to the end: blanks, a sign, a prefix, the
      longest run of digits; the value, cut to 32 bits, and the end of the run. */
  function Parse(s: seq<char>, base: int): (int, nat) {
    var i := SkipBlanks(s, 0);
    var (b, k) := Prefix(s, base, SkipSign(s, i));
    var e := RunEnd(s, b, k);
    if k <= e <= |s| then
      var v := Value(s[k..e], b);
      (Int32(if At(s, i) == '-' then -v else v), e)
    else (0, e)
  }

  /** One more digit in the 32-bit accumulator. */
  function Accumulate(v: int, base: int, d: int): int { Int32(v * base + d) }

  /** Cutting to 32 bits at every digit is cutting once at the end. */
  lemma WrapDigit(s: seq<char>, c: char, base: int)
    ensures Int32(Value(s + [c], base)) == Accumulate(Int32(Value(s, base)), base, DigitOf(c))
  {
    hide Value, Int32, DigitOf;
    ValueAppend(s, c, base);
    var v, d := Value(s, base), DigitOf(c);
    var q := Laps(v);
    Distribute(Int32(v), q, base, d);
    Int32Add(Int32(v) * base + d, q * base);
  }

  lemma Laps(v: int) returns (q: int)
    ensures v == Int32(v) + 0x1_0000_0000 * q
  {
    q := (v - Int32(v)) / 0x1_0000_0000;
  }

  lemma Distribute(x: int, q: int, base: int, d: int)
    ensures (x + 0x1_0000_0000 * q) * base + d == x * base + d + 0x1_0000_0000 * (q * base)
  {
  }

  lemma Int32Add(x: int, q: int)
    ensures Int32(x + 0x1_0000_0000 * q) == Int32(x)
  {
  }

  lemma WrapNegate(v: int)
    ensures Int32(-Int32(v)) == Int32(-v)
  {
  }

  /** strtol, with its 32-bit accumulator. */
  method Strtol(str: seq<char>, base0: int) returns (r: int, end: nat)
    ensures (r, end) == Parse(str, base0)
  {
    hide Value, Int32, DigitOf, SkipBlanks, RunEnd;
    var base, neg := base0, false;
    var s := ReadBlanks(str);
    if At(str, s) == '+' {
      s := s + 1;
    } else if At(str, s) == '-' {
      s, neg := s + 1, true;
    }
    if (base == 0 || base == 16) && At(str, s) == '0' && At(str, s + 1) == 'x' {
      s, base := s + 2, 16;
    } else if base == 0 && At(str, s) == '0' {
      s, base := s + 1, 8;
    } else if base == 0 {
      base := 10;
    }
    var val, e := ReadDigits(str, base, s);
    WrapNegate(Value(str[s..e], base));
    return if neg then Int32(-val) else val, e;
  }

  /** The first loop of strtol. */
  method ReadBlanks(str: seq<char>) returns (s: nat)
    ensures s <= |str| && s == SkipBlanks(str, 0)
  {
    s := 0;
    while IsBlank(At(str, s))
      invariant s <= |str| && SkipBlanks(str, s) == SkipBlanks(str, 0)
      decreases |str| - s
    {
      s := s + 1;
    }
  }

  /** The last loop of strtol. */
  method ReadDigits(str: seq<char>, base: int, start: nat) returns (val: int, s: nat)
    requires start <= |str|
    ensures start <= s <= |str| && s == RunEnd(str, base, start) && val == Int32(Value(str[start..s], base))
  {
    hide Value, Int32, DigitOf, Accumulate;
    s, val := start, 0;
    ValueStart(base);
    assert str[start..s] == [];
    while HasDigit(str, base, s)
      invariant start <= s <= |str| && RunEnd(str, base, s) == RunEnd(str, base, start)
      invariant val == Int32(Value(str[start..s], base))
      decreases |str| - s
    {
      BeyondEnd(str, base, s);
      assert str[start..s + 1] == str[start..s] + [str[s]];
      WrapDigit(str[start..s], str[s], base);
      val := Accumulate(val, base, DigitOf(str[s]));
      s := s + 1;
    }
  }

  lemma ValueStart(base: int)
    ensures Int32(Value([], base)) == 0
  {
  }

  lemma BeyondEnd(s: seq<char>, base: int, i: nat)
    ensures HasDigit(s, base, i) ==> i < |s|
  {
  }

  // ---- print, then read ----------------------------------------------------------------------------------------

  lemma DigitFacts(c: char, base: int)
    requires 0 <= DigitOf(c) < base <= 16
    ensures !IsBlank(c) && c != '+' && c != '-' && c != 'x' && c != '\0'
  {
  }

  /** Blanks followed by digits are read as the digits' value, to the end. */
  lemma ParseDigits(blanks: seq<char>, ds: seq<char>, base: nat)
    requires 2 <= base <= 16 && ds != [] && AllDigits(ds, base)
    requires forall i :: 0 <= i < |blanks| ==> IsBlank(blanks[i])
    ensures Parse(blanks + ds, base) == (Int32(Value(ds, base)), |blanks + ds|)
  {
    hide Value, Int32, DigitOf;
    var s, n := blanks + ds, |blanks|;
    assert forall j :: n <= j < |s| ==> HasDigit(s, base, j) by {
      assert forall j :: n <= j < |s| ==> s[j] == ds[j - n];
    }
    DigitFacts(s[n], base);
    assert SkipBlanks(s, 0) == n by {
      assert !IsBlank(At(s, n)) && forall j :: 0 <= j < n ==> At(s, j) == blanks[j];
    }
    NoPrefix(s, base, n);
    assert RunEnd(s, base, n) == |s| by { BeyondEnd(s, base, |s|); }
    assert s[n..|s|] == ds;
  }

  lemma NoPrefix(s: seq<char>, base: nat, n: nat)
    requires 2 <= base <= 16 && n < |s| && forall j :: n <= j < |s| ==> HasDigit(s, base, j)
    ensures Prefix(s, base, n) == (base, n)
  {
    hide DigitOf;
    if n + 1 < |s| {
      assert HasDigit(s, base, n + 1);
      DigitFacts(s[n + 1], base);
    }
  }

  lemma {:induction false} ZerosAddNothing(n: int, ds: seq<char>, base: nat)
    requires AllDigits(ds, base) && base > 0
    ensures Value(Repeat('0', n) + ds, base) == Value(ds, base) && AllDigits(Repeat('0', n) + ds, base)
  {
    if ds == [] {
      assert Repeat('0', n) + ds == Repeat('0', n);
      ZerosAreNothing(n, base);
    } else {
      var front := ds[..|ds| - 1];
      ZerosAddNothing(n, front, base);
      ValueAppend(Repeat('0', n) + front, ds[|ds| - 1], base);
      assert Repeat('0', n) + front + [ds[|ds| - 1]] == Repeat('0', n) + ds;
    }
  }

  lemma {:induction false} ZerosAreNothing(n: int, base: nat)
    ensures Value(Repeat('0', n), base) == 0
    decreases n
  {
    if n > 0 {
      ZerosAreNothing(n - 1, base);
      ValueAppend(Repeat('0', n - 1), '0', base);
    }
  }

  /** The digits are 0 to 9 and the letters, of either case, and nothing else is one. */
  lemma DigitOfExact(c: char, d: nat)
    ensures DigitOf(c) == d <==>
            d < 36 && (c == "0123456789abcdefghijklmnopqrstuvwxyz"[d] || c == "0123456789ABCDEFGHIJKLMNOPQRSTUVWXYZ"[d])
  {
    if d < 36 {
      LetterOf(d);
    }
  }

  lemma LetterOf(d: nat)
    requires d < 36
    ensures "0123456789abcdefghijklmnopqrstuvwxyz"[d] as int == if d < 10 then 48 + d else 87 + d
    ensures "0123456789ABCDEFGHIJKLMNOPQRSTUVWXYZ"[d] as int == if d < 10 then 48 + d else 55 + d
  {
  }

  /** A numeral as the standard describes it: blanks, an optional sign, a prefix that fits the base asked
      for, digits, and what follows. */
  ghost predicate Subject(blanks: seq<char>, sign: seq<char>, prefix: seq<char>, ds: seq<char>, rest: seq<char>, base0: int, base: int) {
    && (forall i :: 0 <= i < |blanks| ==> blanks[i] == ' ' || blanks[i] == '\t')
    && (sign == [] || sign == ['+'] || sign == ['-'])
    && 2 <= base <= 36 && ds != [] && AllDigits(ds, base) && (rest == [] || !(0 <= DigitOf(rest[0]) < base))
    && (if prefix == ['0', 'x'] then (base0 == 0 || base0 == 16) && base == 16
        else if prefix == ['0'] then base0 == 0 && base == 8
        else prefix == [] && (if base0 == 0 then base == 10 && ds[0] != '0' else base == base0))
    && (base0 == 16 && prefix == [] && ds[0] == '0' && |ds| == 1 ==> rest == [] || rest[0] != 'x')
  }

  /** strtol reads exactly such a numeral: its value, with its sign, cut to 32 bits, and the end of its
      digits, whatever follows. */
  lemma ReadsSubject(blanks: seq<char>, sign: seq<char>, prefix: seq<char>, ds: seq<char>, rest: seq<char>, base0: int, base: int)
    requires Subject(blanks, sign, prefix, ds, rest, base0, base)
    ensures Parse(blanks + sign + prefix + ds + rest, base0)
         == (Int32(if sign == ['-'] then -Value(ds, base) else Value(ds, base)), |blanks| + |sign| + |prefix| + |ds|)
  {
    hide Value, Int32, DigitOf, SkipBlanks, RunEnd, SkipSign, Prefix, IsBlank;
    var s := blanks + sign + prefix + ds + rest;
    var i, j := |blanks|, |blanks| + |sign|;
    var k := j + |prefix|;
    Placed(blanks, sign, prefix, ds, rest);
    SubjectStart(blanks, sign, prefix, ds, rest, base0, base);
    BlanksSkipped(s, blanks);
    DigitsRun(s, base, k, ds, rest);
    assert s[k..k + |ds|] == ds;
  }

  lemma Placed(blanks: seq<char>, sign: seq<char>, prefix: seq<char>, ds: seq<char>, rest: seq<char>)
    ensures var s := blanks + sign + prefix + ds + rest;
            var k := |blanks| + |sign| + |prefix|;
            && s[..|blanks|] == blanks && s[k..k + |ds|] == ds && s[k + |ds|..] == rest
  {
  }

  lemma BlanksSkipped(s: seq<char>, blanks: seq<char>)
    requires |blanks| <= |s| && s[..|blanks|] == blanks && !IsBlank(At(s, |blanks|))
    requires forall i :: 0 <= i < |blanks| ==> IsBlank(blanks[i])
    ensures SkipBlanks(s, 0) == |blanks|
  {
    assert forall l :: 0 <= l < |blanks| ==> At(s, l) == s[..|blanks|][l];
  }

  lemma DigitsRun(s: seq<char>, base: int, k: nat, ds: seq<char>, rest: seq<char>)
    requires k + |ds| <= |s| && s[k..k + |ds|] == ds && s[k + |ds|..] == rest && AllDigits(ds, base) && base > 0
    requires rest == [] || !(0 <= DigitOf(rest[0]) < base)
    ensures RunEnd(s, base, k) == k + |ds|
  {
    hide DigitOf;
    var e := k + |ds|;
    assert forall l :: k <= l < e ==> At(s, l) == s[k..e][l - k];
    assert forall l :: k <= l < e ==> HasDigit(s, base, l);
    RunStops(s, base, e, rest);
  }

  lemma RunStops(s: seq<char>, base: int, e: nat, rest: seq<char>)
    requires e <= |s| && s[e..] == rest && base > 0 && (rest == [] || !(0 <= DigitOf(rest[0]) < base))
    ensures !HasDigit(s, base, e)
  {
    assert rest != [] ==> s[e] == s[e..][0];
  }

  lemma SubjectStart(blanks: seq<char>, sign: seq<char>, prefix: seq<char>, ds: seq<char>, rest: seq<char>, base0: int, base: int)
    requires Subject(blanks, sign, prefix, ds, rest, base0, base)
    ensures var s := blanks + sign + prefix + ds + rest;
            var i := |blanks|;
            && !IsBlank(At(s, i)) && (At(s, i) == '-' <==> sign == ['-']) && (forall l :: 0 <= l < i ==> IsBlank(blanks[l]))
            && SkipSign(s, i) == i + |sign| && Prefix(s, base0, i + |sign|) == (base, i + |sign| + |prefix|)
  {
    var s := blanks + sign + prefix + ds + rest;
    SubjectChars(blanks, sign, prefix, ds, rest);
    DigitOfExact('x', 33);
    hide DigitOf;
    DigitIsPlain(ds[0], base);
    if |ds| > 1 {
      DigitIsPlain(ds[1], base);
    }
    SubjectRead(s, |blanks|, sign, prefix, ds, rest, base0, base);
  }

  lemma DigitIsPlain(c: char, base: int)
    requires 0 <= DigitOf(c) < base
    ensures !IsBlank(c) && c != '+' && c != '-' && c != '\0' && (base <= 33 ==> c != 'x')
  {
  }

  /** The characters that sign and prefix are read from. */
  lemma SubjectChars(blanks: seq<char>, sign: seq<char>, prefix: seq<char>, ds: seq<char>, rest: seq<char>)
    requires |sign| <= 1 && |prefix| <= 2 && ds != []
    ensures var s := blanks + sign + prefix + ds + rest;
            var j := |blanks| + |sign|;
            && (sign != [] ==> At(s, |blanks|) == sign[0])
            && At(s, j) == (if prefix != [] then prefix[0] else ds[0])
            && At(s, j + 1) == if |prefix| == 2 then prefix[1] else if |prefix| == 1 then ds[0]
                               else if |ds| > 1 then ds[1] else if rest == [] then '\0' else rest[0]
  {
  }

  lemma SubjectRead(s: seq<char>, i: nat, sign: seq<char>, prefix: seq<char>, ds: seq<char>, rest: seq<char>, base0: int, base: int)
    requires Subject([], sign, prefix, ds, rest, base0, base)
    requires !IsBlank(ds[0]) && ds[0] != '+' && ds[0] != '-' && (base <= 33 ==> ds[0] != 'x')
    requires |ds| > 1 && base <= 33 ==> ds[1] != 'x'
    requires sign != [] ==> At(s, i) == sign[0]
    requires At(s, i + |sign|) == if prefix != [] then prefix[0] else ds[0]
    requires At(s, i + |sign| + 1) == if |prefix| == 2 then prefix[1] else if |prefix| == 1 then ds[0]
                                      else if |ds| > 1 then ds[1] else if rest == [] then '\0' else rest[0]
    ensures !IsBlank(At(s, i)) && (At(s, i) == '-' <==> sign == ['-'])
    ensures SkipSign(s, i) == i + |sign| && Prefix(s, base0, i + |sign|) == (base, i + |sign| + |prefix|)
  {
    hide AllDigits, DigitOf, At;
  }

  /** The numeral is at the right end, and what is left of it is padding. */
  lemma PrintedIs(n: nat, base: nat, width: int, padc: char)
    requires 2 <= base <= 16
    ensures Printed(n, base, width, padc) == Repeat(padc, width - |Numeral(n, base)|) + Numeral(n, base)
    ensures var s := Printed(n, base, width, padc);
            var pads := |s| - |Numeral(n, base)|;
            && pads >= 0 && (width > |Numeral(n, base)| ==> |s| == width)
            && s[pads..] == Numeral(n, base) && forall i :: 0 <= i < pads ==> s[i] == padc
  {
  }

  /** strtol reads all of what printnum prints, whatever the field width and for either padding, and
      gives the number back as a signed 32-bit value: the number itself exactly when it is below 2^31. */
  lemma PrintThenRead(n: nat, base: nat, width: int, padc: char)
    requires n < U32 && 2 <= base <= 16 && (padc == ' ' || padc == '0')
    ensures Parse(Printed(n, base, width, padc), base) == (Int32(n), |Printed(n, base, width, padc)|)
    ensures Int32(n) == n <==> n <= INT_MAX
  {
    hide Parse, Value, Numeral, Printed;
    PrintedIs(n, base, width, padc);
    var ds := Numeral(n, base);
    var pad := Repeat(padc, width - |ds|);
    if padc == ' ' {
      ParseDigits(pad, ds, base);
    } else {
      ZerosAddNothing(width - |ds|, ds, base);
      ParseDigits([], pad + ds, base);
      assert [] + (pad + ds) == pad + ds;
    }
  }

  /** With the '-' flag printnum pads with minus signs, so the number is read back, and all of it,
      exactly when there is no padding or it is a zero with a single minus in front. */
  lemma DashPaddingIff(n: nat, base: nat, width: int)
    requires n <= INT_MAX && 2 <= base <= 16
    ensures var s := Printed(n, base, width, '-');
            Parse(s, base) == (n, |s|) <==> width <= |Numeral(n, base)| || (n == 0 && width == 2)
  {
    hide Parse, Value, Numeral, Printed;
    PrintedIs(n, base, width, '-');
    var ds := Numeral(n, base);
    var pads := width - |ds|;
    assert n == 0 ==> |ds| == 1 by { ZeroNumeral(base); }
    if pads <= 0 {
      ParseDigits([], ds, base);
      assert Printed(n, base, width, '-') == [] + ds;
    } else if pads == 1 {
      OneDash(ds, base);
      assert Printed(n, base, width, '-') == ['-'] + ds;
      assert Repeat('-', 1) == ['-'];
    } else {
      TwoDashes(Printed(n, base, width, '-'), base);
    }
  }

  lemma ZeroNumeral(base: nat)
    requires 2 <= base <= 16
    ensures |Numeral(0, base)| == 1
  {
  }

  lemma OneDash(ds: seq<char>, base: nat)
    requires 2 <= base <= 16 && ds != [] && AllDigits(ds, base)
    ensures Parse(['-'] + ds, base) == (Int32(-Value(ds, base)), |ds| + 1)
  {
    hide Value, Int32, DigitOf;
    var s := ['-'] + ds;
    assert forall j :: 1 <= j < |s| ==> HasDigit(s, base, j) by {
      assert forall j :: 1 <= j < |s| ==> s[j] == ds[j - 1];
    }
    assert SkipBlanks(s, 0) == 0 by { assert !IsBlank(At(s, 0)); }
    NoPrefix(s, base, 1);
    assert RunEnd(s, base, 1) == |s| by { BeyondEnd(s, base, |s|); }
    assert s[1..|s|] == ds;
  }

  lemma TwoDashes(s: seq<char>, base: nat)
    requires 2 <= base <= 16 && |s| >= 2 && s[0] == s[1] == '-'
    ensures Parse(s, base).1 == 1
  {
  }
}
