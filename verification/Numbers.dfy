/** Printing numbers (mit6.828/lab/lib/printfmt.c) and reading them (mit6.828/lab/lib/string.c). */
module Numbers {

  // ---------- 32-bit long ----------

  const SPAN: int := 0x1_0000_0000

  /** The value a signed 32-bit word keeps. */
  function Wrap(x: int): (w: int)
    ensures -0x8000_0000 <= w < 0x8000_0000
    ensures -0x8000_0000 <= x < 0x8000_0000 <==> w == x
  {
    (x + 0x8000_0000) % SPAN - 0x8000_0000
  }

  lemma WrapShift(x: int, m: int)
    ensures Wrap(x + m * SPAN) == Wrap(x)
  {
  }

  lemma WrapStep(x: int, b: int, d: int)
    ensures Wrap(Wrap(x) * b + d) == Wrap(x * b + d)
  {
    var k := (x + 0x8000_0000) / SPAN;
    assert Wrap(x) == x - k * SPAN;
    assert Wrap(x) * b + d == x * b + d + (-(k * b)) * SPAN;
    WrapShift(x * b + d, -(k * b));
  }

  lemma WrapNegate(x: int)
    ensures Wrap(-Wrap(x)) == Wrap(-x)
  {
    WrapStep(x, -1, 0);
  }

  // ---------- printing ----------

  /** The character of "0123456789abcdef" at d. */
  function Symbol(d: nat): (c: char)
    requires d < 16
    ensures Digit(c) == d
  {
    "0123456789abcdef"[d]
  }

  /** num / base and num % base, by repeated subtraction (see QuotientIs). */
  function Quotient(num: nat, base: nat): (q: nat)
    requires 2 <= base
    ensures num > 0 ==> q < num
  {
    if num < base then 0 else 1 + Quotient(num - base, base)
  }

  function Remainder(num: nat, base: nat): (d: nat)
    requires 2 <= base
    ensures d < base
  {
    if num < base then num else Remainder(num - base, base)
  }

  lemma {:induction false} QuotientRemainder(num: nat, base: nat)
    requires 2 <= base
    ensures Quotient(num, base) * base + Remainder(num, base) == num
  {
    if num >= base {
      QuotientRemainder(num - base, base);
      var q := Quotient(num - base, base);
      assert (1 + q) * base == base + q * base;
    }
  }

  lemma AtLeastOne(d: int, base: int)
    requires 0 < base
    ensures d >= 1 ==> d * base >= base
    ensures d <= -1 ==> d * base <= -base
  {
  }

  lemma UniqueQuotient(q1: int, d1: int, q2: int, d2: int, base: int)
    requires 0 <= d1 < base && 0 <= d2 < base && q1 * base + d1 == q2 * base + d2
    ensures q1 == q2 && d1 == d2
  {
    assert (q1 - q2) * base == d2 - d1;
    AtLeastOne(q1 - q2, base);
  }

  lemma DivMod(num: int, base: int)
    requires 0 < base
    ensures num / base * base + num % base == num && 0 <= num % base < base
  {
  }

  lemma QuotientIs(num: nat, base: nat)
    requires 2 <= base
    ensures num / base == Quotient(num, base) && num % base == Remainder(num, base)
  {
    DivMod(num, base);
    QuotientRemainder(num, base);
    UniqueQuotient(num / base, num % base, Quotient(num, base), Remainder(num, base), base);
  }

  /** The digits of a number, most significant first. */
  function Numeral(num: nat, base: nat): (s: string)
    requires 2 <= base <= 16
    ensures s != []
  {
    (if num >= base then Numeral(Quotient(num, base), base) else []) + [Symbol(Remainder(num, base))]
  }

  function Padding(n: int, padc: char): (s: string)
    ensures |s| == (if n > 0 then n else 0)
    ensures forall i :: 0 <= i < |s| ==> s[i] == padc
  {
    seq(if n > 0 then n else 0, _ => padc)
  }

  /** A number right-justified in `width` places. */
  function Printed(num: nat, base: nat, width: int, padc: char): (s: string)
    requires 2 <= base <= 16
    ensures |s| == (if width > |Numeral(num, base)| then width else |Numeral(num, base)|)
  {
    Padding(width - |Numeral(num, base)|, padc) + Numeral(num, base)
  }

  lemma PrintedStep(num: nat, base: nat, width: int, padc: char)
    requires 2 <= base <= 16
    ensures Printed(num, base, width, padc) ==
            (if num >= base then Printed(Quotient(num, base), base, width - 1, padc) else Padding(width - 1, padc))
            + [Symbol(Remainder(num, base))]
  {
  }

  class Sink {
    var out: string

    constructor ()
      ensures out == ""
    {
      out := "";
    }

    method Putch(c: char)
      modifies this
      ensures out == old(out) + [c]
    {
      out := out + [c];
    }

    /** printnum: the padding is emitted at the deepest call, before any digit. */
    method Printnum(num: nat, base: nat, width: int, padc: char)
      requires 2 <= base <= 16
      modifies this
      ensures out == old(out) + Printed(num, base, width, padc)
      decreases num
    {
      PrintedStep(num, base, width, padc);
      QuotientIs(num, base);
      if num >= base {
        Printnum(num / base, base, width - 1, padc);
      } else {
        PutPadding(width, padc);
      }
      Putch(Symbol(num % base));
    }

    method PutPadding(width: int, padc: char)
      modifies this
      ensures out == old(out) + Padding(width - 1, padc)
    {
      var w := width - 1;
      while w > 0
        invariant out == old(out) + Padding(width - 1 - w, padc) && (w == width - 1 <= 0 || 0 <= w <= width - 1)
      {
        Putch(padc);
        w := w - 1;
      }
    }

    /** The conversions %d, %u, %x and %p of vprintfmt, after flags and width. */
    method Convert(conv: Conversion, num: int, width: int, padc: char)
      requires conv.Signed? || num >= 0
      modifies this
      ensures out == old(out) + Formatted(conv, num, width, padc)
    {
      if conv == Pointer {
        Putch('0');
        Putch('x');
      } else if num < 0 {
        Putch('-');
      }
      assert out == old(out) + Prefix(conv, num);
      Printnum(Magnitude(num), Base(conv), width, padc);
    }
  }

  datatype Conversion = Signed | Unsigned | Hexadecimal | Pointer

  function Base(conv: Conversion): nat { if conv == Signed || conv == Unsigned then 10 else 16 }

  function Prefix(conv: Conversion, num: int): string {
    if conv == Pointer then "0x" else if num < 0 then "-" else ""
  }

  function Magnitude(num: int): nat { if num < 0 then -num else num }

  /** The prefix is not counted in the width, and the padding comes after it. */
  function Formatted(conv: Conversion, num: int, width: int, padc: char): string {
    Prefix(conv, num) + Printed(Magnitude(num), Base(conv), width, padc)
  }

  /** %d and %u are decimal, %x and %p hexadecimal; a negative %d has a minus sign, %p "0x". */
  lemma ConversionText(num: nat, width: int, padc: char)
    ensures Formatted(Signed, num, width, padc) == Formatted(Unsigned, num, width, padc) == Printed(num, 10, width, padc)
    ensures num > 0 ==> Formatted(Signed, -(num as int), width, padc) == "-" + Printed(num, 10, width, padc)
    ensures Formatted(Hexadecimal, num, width, padc) == Printed(num, 16, width, padc)
    ensures Formatted(Pointer, num, width, padc) == "0x" + Printed(num, 16, width, padc)
  {
    assert "" + Printed(num, 10, width, padc) == Printed(num, 10, width, padc);
    assert "" + Printed(num, 16, width, padc) == Printed(num, 16, width, padc);
  }

  /** How many pad characters there are. */
  function Pads(conv: Conversion, num: int, width: int): (n: nat)
  {
    var d := |Numeral(Magnitude(num), Base(conv))|;
    if width > d then width - d else 0
  }

  // ---------- reading ----------

  /** The value of a digit, or -1. */
  function Digit(c: char): (d: int)
    ensures d < 36
  {
    if '0' <= c <= '9' then c as int - '0' as int
    else if 'a' <= c <= 'z' then c as int - 'a' as int + 10
    else if 'A' <= c <= 'Z' then c as int - 'A' as int + 10
    else -1
  }

  predicate IsDigit(c: char, base: int) { 0 <= Digit(c) < base }

  /** The character at i, the terminating NUL at the end. */
  function CharAt(s: string, i: nat): char { if i < |s| then s[i] else '\0' }

  predicate IsBlank(c: char) { c == ' ' || c == '\t' }

  ghost function BlanksEnd(s: string, k: nat): (e: nat)
    requires k <= |s|
    ensures k <= e <= |s| && (forall i :: k <= i < e ==> IsBlank(s[i])) && !IsBlank(CharAt(s, e))
    decreases |s| - k
  {
    if k < |s| && IsBlank(s[k]) then BlanksEnd(s, k + 1) else k
  }

  ghost function DigitsEnd(s: string, base: int, k: nat): (e: nat)
    requires k <= |s|
    ensures k <= e <= |s| && (forall i :: k <= i < e ==> IsDigit(s[i], base)) && !IsDigit(CharAt(s, e), base)
    decreases |s| - k
  {
    if k < |s| && IsDigit(s[k], base) then DigitsEnd(s, base, k + 1) else k
  }

  /** The number a string of digits denotes. */
  function Value(s: string, base: int): int {
    if s == [] then 0 else Value(s[..|s| - 1], base) * base + Digit(s[|s| - 1])
  }

  datatype Reading = Reading(value: int, end: nat)

  ghost function SignEnd(s: string, k: nat): (e: nat)
    requires k <= |s|
    ensures e <= |s|
  {
    if CharAt(s, k) == '+' || CharAt(s, k) == '-' then k + 1 else k
  }

  /** The base prefix: where the digits start and their base. */
  ghost function Based(s: string, base: int, k: nat): (r: (nat, int))
    requires k <= |s|
    ensures r.0 <= |s|
  {
    if (base == 0 || base == 16) && CharAt(s, k) == '0' && CharAt(s, k + 1) == 'x' then (k + 2, 16)
    else if base == 0 && CharAt(s, k) == '0' then (k + 1, 8)
    else if base == 0 then (k, 10)
    else (k, base)
  }

  /** What strtol reads: blanks, a sign, a base prefix and the longest run of digits. */
  ghost function Reads(s: string, base: int): Reading {
    var k := BlanksEnd(s, 0);
    var based := Based(s, base, SignEnd(s, k));
    var e := DigitsEnd(s, based.1, based.0);
    var v := Value(s[based.0..e], based.1);
    Reading(Wrap(if CharAt(s, k) == '-' then -v else v), e)
  }

  /** strtol on the NUL-terminated string s; long has 32 bits and wraps around. */
  method Strtol(s: string, base: int) returns (value: int, end: nat)
    requires '\0' !in s
    ensures Reading(value, end) == Reads(s, base)
  {
    var neg, val, i, b := false, 0, 0, 0;
    while CharAt(s, i) == ' ' || CharAt(s, i) == '\t'
      invariant i <= |s| && BlanksEnd(s, i) == BlanksEnd(s, 0)
      decreases |s| - i
    {
      i := i + 1;
    }
    if CharAt(s, i) == '+' {
      i := i + 1;
    } else if CharAt(s, i) == '-' {
      i, neg := i + 1, true;
    }
    i, b := ReadPrefix(s, base, i);
    ghost var start := i;
    val, i := ReadDigits(s, b, i);
    WrapNegate(Value(s[start..i], b));
    value, end := if neg then Wrap(-val) else val, i;
  }

  method ReadPrefix(s: string, base: int, k: nat) returns (i: nat, b: int)
    requires k <= |s|
    ensures (i, b) == Based(s, base, k)
  {
    i, b := k, base;
    if (b == 0 || b == 16) && CharAt(s, i) == '0' && CharAt(s, i + 1) == 'x' {
      i, b := i + 2, 16;
    } else if b == 0 && CharAt(s, i) == '0' {
      i, b := i + 1, 8;
    } else if b == 0 {
      b := 10;
    }
  }

  lemma ValueNext(s: string, base: int, start: nat, i: nat)
    requires start <= i < |s|
    ensures Value(s[start..i + 1], base) == Value(s[start..i], base) * base + Digit(s[i])
  {
    assert s[start..i + 1][..i - start] == s[start..i];
  }

  /** The digit loop of strtol. */
  method ReadDigits(s: string, base: int, start: nat) returns (val: int, i: nat)
    requires start <= |s|
    ensures i == DigitsEnd(s, base, start) && val == Wrap(Value(s[start..i], base))
  {
    val, i := 0, start;
    while true
      invariant start <= i <= |s| && DigitsEnd(s, base, i) == DigitsEnd(s, base, start)
      invariant val == Wrap(Value(s[start..i], base))
      decreases |s| - i
    {
      var dig := Digit(CharAt(s, i));
      if dig < 0 || dig >= base {
        break;
      }
      ValueNext(s, base, start, i);
      WrapStep(Value(s[start..i], base), base, dig);
      val, i := Wrap(val * base + dig), i + 1;
    }
  }

  // ---------- printing, then reading ----------

  ghost predicate AllDigits(s: string, base: int) { forall i :: 0 <= i < |s| ==> IsDigit(s[i], base) }

  lemma {:induction false} NumeralDigits(num: nat, base: nat)
    requires 2 <= base <= 16
    ensures AllDigits(Numeral(num, base), base)
  {
    if num >= base {
      NumeralDigits(Quotient(num, base), base);
    }
  }

  lemma ValueSnoc(s: string, d: nat, base: int)
    requires d < 16
    ensures Value(s + [Symbol(d)], base) == Value(s, base) * base + d
  {
    assert (s + [Symbol(d)])[..|s|] == s;
  }

  lemma {:induction false} NumeralValue(num: nat, base: nat)
    requires 2 <= base <= 16
    ensures Value(Numeral(num, base), base) == num
  {
    if num >= base {
      NumeralValue(Quotient(num, base), base);
      ValueSnoc(Numeral(Quotient(num, base), base), Remainder(num, base), base);
      QuotientRemainder(num, base);
    } else {
      ValueSnoc([], num, base);
      assert Numeral(num, base) == [] + [Symbol(num)];
    }
  }

  lemma ValueBound(s: string, base: nat)
    requires 2 <= base && AllDigits(s, base)
    ensures 0 <= Value(s, base) && (s != [] && s[0] != '0' ==> 0 < Value(s, base))
  {
    if s != [] {
      ValueBound(s[..|s| - 1], base);
      assert IsDigit(s[|s| - 1], base);
      AtLeastOne(Value(s[..|s| - 1], base), base);
      assert |s| > 1 ==> s[..|s| - 1][0] == s[0];
    }
  }

  /** The digits that printnum uses. */
  ghost predicate LowerDigits(s: string, base: nat) {
    forall i :: 0 <= i < |s| ==> IsDigit(s[i], base) && !('A' <= s[i] <= 'Z')
  }

  lemma LowerSymbol(c: char)
    requires 0 <= Digit(c) < 16 && !('A' <= c <= 'Z')
    ensures Symbol(Digit(c)) == c
  {
  }

  lemma NumeralSnoc(q: nat, d: nat, base: nat)
    requires 2 <= base <= 16 && 0 < q && d < base
    ensures 0 <= q * base + d && Numeral(q * base + d, base) == Numeral(q, base) + [Symbol(d)]
  {
    AtLeastOne(q, base);
    var v := q * base + d;
    QuotientRemainder(v, base);
    UniqueQuotient(Quotient(v, base), Remainder(v, base), q, d, base);
  }

  /** A numeral that denotes what it should. */
  ghost predicate Canonical(s: string, base: nat)
    requires 2 <= base <= 16
  {
    0 <= Value(s, base) && Numeral(Value(s, base), base) == s
  }

  lemma CanonicalOne(c: char, base: nat)
    requires 2 <= base <= 16 && IsDigit(c, base) && !('A' <= c <= 'Z')
    ensures Canonical([c], base)
  {
    LowerSymbol(c);
    assert [c][..0] == [];
  }

  lemma CanonicalMore(front: string, c: char, base: nat)
    requires 2 <= base <= 16 && IsDigit(c, base) && !('A' <= c <= 'Z') && 0 < Value(front, base) && Canonical(front, base)
    ensures Canonical(front + [c], base)
  {
    LowerSymbol(c);
    ValueSnoc(front, Digit(c), base);
    NumeralSnoc(Value(front, base), Digit(c), base);
  }

  lemma {:induction false} AllCanonical(s: string, base: nat)
    requires 2 <= base <= 16 && s != "" && LowerDigits(s, base) && (|s| > 1 ==> s[0] != '0')
    ensures exists t :: t == s && Canonical(t, base)
    decreases |s|
  {
    var front, c := s[..|s| - 1], s[|s| - 1];
    assert s == front + [c];
    if front == "" {
      CanonicalOne(c, base);
      assert s == [c];
    } else {
      ValueBound(front, base);
      AllCanonical(front, base);
      CanonicalMore(front, c, base);
    }
  }

  /** The numeral of a number is the one string of such digits that denotes it and has no
      leading zero. */
  lemma NumeralUnique(s: string, base: nat)
    requires 2 <= base <= 16 && s != "" && LowerDigits(s, base) && (|s| > 1 ==> s[0] != '0')
    ensures 0 <= Value(s, base) && Numeral(Value(s, base), base) == s
  {
    AllCanonical(s, base);
  }

  lemma {:induction false} LeadingZeros(n: int, s: string, base: int)
    ensures Value(Padding(n, '0') + s, base) == Value(s, base)
    decreases |s|, n
  {
    var z := Padding(n, '0');
    if s != [] {
      LeadingZeros(n, s[..|s| - 1], base);
      assert (z + s)[..|z + s| - 1] == z + s[..|s| - 1];
    } else if n > 0 {
      LeadingZeros(n - 1, s, base);
      assert (z + s)[..|z + s| - 1] == Padding(n - 1, '0') + s;
    }
  }

  /** A number may be followed by anything that does not look like a part of it. */
  ghost predicate Stops(rest: string) { rest == "" || Digit(rest[0]) < 0 }

  lemma {:induction false} DigitsEndIs(s: string, base: int, k: nat, e: nat)
    requires k <= e <= |s| && (forall i :: k <= i < e ==> IsDigit(s[i], base)) && !IsDigit(CharAt(s, e), base)
    ensures DigitsEnd(s, base, k) == e
    decreases e - k
  {
    if k < e {
      DigitsEndIs(s, base, k + 1, e);
    }
  }

  lemma {:induction false} BlanksEndIs(s: string, k: nat, e: nat)
    requires k <= e <= |s| && (forall i :: k <= i < e ==> IsBlank(s[i])) && !IsBlank(CharAt(s, e))
    ensures BlanksEnd(s, k) == e
    decreases e - k
  {
    if k < e {
      BlanksEndIs(s, k + 1, e);
    }
  }

  /** What is read once the blanks, the sign and the base prefix are passed. */
  lemma ReadsAt(s: string, base: int, k: nat, start: nat, b: int, e: nat)
    requires BlanksEnd(s, 0) == k && SignEnd(s, k) <= start <= e <= |s|
    requires Based(s, base, SignEnd(s, k)) == (start, b)
    requires (forall i :: start <= i < e ==> IsDigit(s[i], b)) && !IsDigit(CharAt(s, e), b)
    ensures Reads(s, base) ==
            Reading(Wrap(if CharAt(s, k) == '-' then -Value(s[start..e], b) else Value(s[start..e], b)), e)
  {
    DigitsEndIs(s, b, start, e);
  }

  /** What strtol takes for the given base: where the digits start and their base. */
  ghost predicate PrefixFor(prefix: string, base: int, b: int) {
    || (prefix == "0x" && (base == 0 || base == 16) && b == 16)
    || (prefix == "0" && base == 0 && b == 8)
    || (prefix == "" && base == 0 && b == 10)
    || (prefix == "" && base != 0 && b == base)
  }

  /** The text does not go on in a way that would have made the prefix a longer one. */
  ghost predicate PrefixEnds(prefix: string, base: int, text: string) {
    && (prefix == "0" ==> CharAt(text, 0) != 'x')
    && (prefix == "" && base == 0 ==> CharAt(text, 0) != '0')
    && (prefix == "" && base == 16 ==> CharAt(text, 0) != '0' || CharAt(text, 1) != 'x')
  }

  lemma PrefixIs(s: string, base: int, k: nat, prefix: string, b: int, text: string)
    requires k <= |s| && s[k..] == prefix + text && PrefixFor(prefix, base, b) && PrefixEnds(prefix, base, text)
    ensures Based(s, base, k) == (k + |prefix|, b)
  {
    assert forall i :: 0 <= i < |prefix| ==> s[k + i] == prefix[i];
    assert forall i :: 0 <= i < |text| ==> s[k + |prefix| + i] == s[k..][|prefix| + i] == text[i];
  }

  predicate IsSign(c: char) { c == '+' || c == '-' }

  /** strtol reads blanks, a sign, a prefix for the base and digits up to the first character
      that is none, and nothing else has an influence. */
  lemma ReadsGrammar(blanks: string, sign: string, prefix: string, digits: string, rest: string, base: int, b: int)
    requires forall i :: 0 <= i < |blanks| ==> IsBlank(blanks[i])
    requires sign == "" || sign == "+" || sign == "-"
    requires sign == "" && prefix == "" ==> !IsBlank(CharAt(digits + rest, 0)) && !IsSign(CharAt(digits + rest, 0))
    requires PrefixFor(prefix, base, b) && PrefixEnds(prefix, base, digits + rest)
    requires AllDigits(digits, b) && (rest == "" || !IsDigit(rest[0], b))
    ensures Reads(blanks + sign + prefix + digits + rest, base) ==
      var v := Value(digits, b);
      Reading(Wrap(if sign == "-" then -v else v), |blanks| + |sign| + |prefix| + |digits|)
  {
    var s, text := blanks + sign + prefix + digits + rest, digits + rest;
    var start := |blanks| + |sign| + |prefix|;
    assert s == blanks + sign + (prefix + text) && s[|blanks| + |sign|..] == prefix + text;
    assert sign == "" ==> CharAt(prefix + text, 0) == if prefix == "" then CharAt(text, 0) else prefix[0];
    GrammarStart(s, blanks, sign, prefix + text);
    PrefixIs(s, base, |blanks| + |sign|, prefix, b, text);
    DigitsBehind(blanks + sign + prefix, digits, rest, b);
    ReadsAt(s, base, |blanks|, start, b, start + |digits|);
  }

  lemma GrammarStart(s: string, blanks: string, sign: string, text: string)
    requires s == blanks + sign + text && forall i :: 0 <= i < |blanks| ==> IsBlank(blanks[i])
    requires sign == "" || sign == "+" || sign == "-"
    requires sign == "" ==> !IsBlank(CharAt(text, 0)) && !IsSign(CharAt(text, 0))
    ensures BlanksEnd(s, 0) == |blanks| && SignEnd(s, |blanks|) == |blanks| + |sign|
    ensures CharAt(s, |blanks|) == '-' <==> sign == "-"
  {
    var k := |blanks|;
    assert CharAt(s, k) == if sign == "" then CharAt(text, 0) else sign[0];
    assert forall i :: 0 <= i < k ==> s[i] == blanks[i];
    BlanksEndIs(s, 0, k);
  }

  lemma LowerTable(d: nat)
    requires d < 36
    ensures LOWER[d] as int == if d < 10 then '0' as int + d else 'a' as int + d - 10
  {
  }

  lemma UpperTable(d: nat)
    requires d < 36
    ensures UPPER[d] as int == if d < 10 then '0' as int + d else 'A' as int + d - 10
  {
  }

  /** The values of the digits. */
  lemma DigitTable(c: char, d: int)
    requires 0 <= d < 36
    ensures Digit(c) == d <==> c == LOWER[d] || c == UPPER[d]
  {
    LowerTable(d);
    UpperTable(d);
  }

  const LOWER := "0123456789abcdefghijklmnopqrstuvwxyz"
  const UPPER := "0123456789ABCDEFGHIJKLMNOPQRSTUVWXYZ"

  /** A printed number without pads, or padded with zeros, is a string of digits for the number. */
  lemma PrintedDigits(num: nat, base: nat, width: int, padc: char)
    requires 2 <= base <= 16 && (padc == '0' || width <= |Numeral(num, base)|)
    ensures AllDigits(Printed(num, base, width, padc), base) && Value(Printed(num, base, width, padc), base) == num
  {
    NumeralDigits(num, base);
    NumeralValue(num, base);
    if padc == '0' {
      LeadingZeros(width - |Numeral(num, base)|, Numeral(num, base), base);
    } else {
      assert Printed(num, base, width, padc) == Numeral(num, base);
    }
  }

  /** A string of digits, in front of it blanks, behind it something else. */
  lemma BlanksThenDigits(blanks: string, digits: string, rest: string, base: nat)
    requires 2 <= base <= 16 && digits != "" && AllDigits(digits, base) && Stops(rest)
    requires forall i :: 0 <= i < |blanks| ==> IsBlank(blanks[i])
    ensures Reads(blanks + digits + rest, base) == Reading(Wrap(Value(digits, base)), |blanks| + |digits|)
  {
    var s := blanks + digits + rest;
    var k, e := |blanks|, |blanks| + |digits|;
    assert s[k] == digits[0] && s[k..e] == digits;
    assert forall i :: k <= i < e ==> s[i] == digits[i - k];
    BlanksEndIs(s, 0, k);
    assert e < |s| ==> s[e] == rest[0];
    assert CharAt(s, k + 1) != 'x';
    ReadsAt(s, base, k, k, base, e);
  }

  lemma ZerosReadBack(num: nat, base: nat, width: int, rest: string)
    requires 2 <= base <= 16 && Stops(rest)
    ensures Reads(Printed(num, base, width, '0') + rest, base) ==
            Reading(Wrap(num), |Printed(num, base, width, '0')|)
  {
    var text := Printed(num, base, width, '0');
    PrintedDigits(num, base, width, '0');
    BlanksThenDigits("", text, rest, base);
    assert "" + text + rest == text + rest;
  }

  lemma SpacesReadBack(num: nat, base: nat, width: int, rest: string)
    requires 2 <= base <= 16 && Stops(rest)
    ensures Reads(Printed(num, base, width, ' ') + rest, base) ==
            Reading(Wrap(num), |Printed(num, base, width, ' ')|)
  {
    var digits := Numeral(num, base);
    NumeralDigits(num, base);
    NumeralValue(num, base);
    BlanksThenDigits(Padding(width - |digits|, ' '), digits, rest, base);
  }

  /** %u and %x (and %d of a number that is not negative). */
  lemma PlainReadsBack(num: nat, base: nat, width: int, padc: char, rest: string)
    requires 2 <= base <= 16 && (padc == ' ' || padc == '0') && Stops(rest)
    ensures Reads(Printed(num, base, width, padc) + rest, base) ==
            Reading(Wrap(num), |Printed(num, base, width, padc)|)
  {
    ZerosReadBack(num, base, width, rest);
    SpacesReadBack(num, base, width, rest);
  }

  // ---------- prefixes ----------

  /** Digits behind a front of n characters. */
  lemma DigitsBehind(front: string, digits: string, rest: string, base: int)
    requires AllDigits(digits, base) && (rest == "" || !IsDigit(rest[0], base))
    ensures var s, n, e := front + digits + rest, |front|, |front| + |digits|;
            s[n..e] == digits && (forall i :: n <= i < e ==> IsDigit(s[i], base)) && !IsDigit(CharAt(s, e), base)
  {
    var s, n, e := front + digits + rest, |front|, |front| + |digits|;
    assert forall i :: n <= i < e ==> s[i] == digits[i - n];
    assert e < |s| ==> s[e] == rest[0];
  }

  /** "0x" and digits, read in base 16 or 0. */
  lemma HexThenDigits(digits: string, rest: string, base: int)
    requires (base == 0 || base == 16) && AllDigits(digits, 16) && Stops(rest)
    ensures Reads("0x" + digits + rest, base) == Reading(Wrap(Value(digits, 16)), 2 + |digits|)
  {
    var s := "0x" + digits + rest;
    DigitsBehind("0x", digits, rest, 16);
    HexPrefix(s, base);
    ReadsAt(s, base, 0, 2, 16, 2 + |digits|);
  }

  lemma HexPrefix(s: string, base: int)
    requires (base == 0 || base == 16) && |s| >= 2 && s[0] == '0' && s[1] == 'x'
    ensures BlanksEnd(s, 0) == 0 && SignEnd(s, 0) == 0 && Based(s, base, 0) == (2, 16)
  {
  }

  /** '-' and digits. */
  lemma MinusThenDigits(digits: string, rest: string, base: nat)
    requires 2 <= base <= 16 && AllDigits(digits, base) && Stops(rest)
    ensures Reads("-" + digits + rest, base) == Reading(Wrap(-Value(digits, base)), 1 + |digits|)
  {
    var s := "-" + digits + rest;
    DigitsBehind("-", digits, rest, base);
    assert s[0] == '-';
    BlanksEndIs(s, 0, 0);
    NoHex(digits, rest, base);
    ReadsAt(s, base, 0, 1, base, 1 + |digits|);
  }

  /** Behind the sign there is no "0x". */
  lemma NoHex(digits: string, rest: string, base: nat)
    requires 2 <= base <= 16 && AllDigits(digits, base) && Stops(rest)
    ensures var s := "-" + digits + rest;
            CharAt(s, 1) == '0' ==> CharAt(s, 2) != 'x'
  {
    var s := "-" + digits + rest;
    assert digits == "" && rest != "" ==> s[1] == rest[0];
    assert |digits| == 1 && rest != "" ==> s[2] == rest[0];
    assert |digits| > 1 ==> s[2] == digits[1];
  }

  /** No pads, or zeros. */
  ghost predicate Solid(num: nat, base: nat, width: int, padc: char)
    requires 2 <= base <= 16
  {
    width <= |Numeral(num, base)| || padc == '0'
  }

  /** Other pads right behind a prefix end the number there. */
  lemma PadsStop(num: nat, base: nat, width: int, padc: char)
    requires 2 <= base <= 16 && !Solid(num, base, width, padc) && (padc == ' ' || padc == '-')
    ensures Stops(Printed(num, base, width, padc))
  {
  }

  lemma HexReads(num: nat, width: int, padc: char, base: int)
    requires (base == 0 || base == 16) && (padc == ' ' || padc == '0' || padc == '-')
    ensures Reads("0x" + Printed(num, 16, width, padc), base) ==
            if Solid(num, 16, width, padc) then Reading(Wrap(num), 2 + |Printed(num, 16, width, padc)|) else Reading(0, 2)
  {
    var text := Printed(num, 16, width, padc);
    if Solid(num, 16, width, padc) {
      PrintedDigits(num, 16, width, padc);
      HexThenDigits(text, "", base);
      assert "0x" + text + "" == "0x" + text;
    } else {
      PadsStop(num, 16, width, padc);
      HexThenDigits("", text, base);
      assert "0x" + "" + text == "0x" + text;
    }
  }

  /** '-' and exactly the digits of a number. */
  lemma MinusNumber(num: nat, digits: string, base: nat)
    requires 2 <= base <= 16 && AllDigits(digits, base) && Value(digits, base) == num
    ensures Reads("-" + digits, base) == Reading(Wrap(-(num as int)), 1 + |digits|)
  {
    MinusThenDigits(digits, "", base);
    assert "-" + digits + "" == "-" + digits;
  }

  /** '-' and something else. */
  lemma MinusNothing(rest: string, base: nat)
    requires 2 <= base <= 16 && Stops(rest)
    ensures Reads("-" + rest, base) == Reading(0, 1)
  {
    MinusThenDigits("", rest, base);
    assert "-" + "" + rest == "-" + rest;
  }

  lemma MinusReads(num: nat, width: int, padc: char)
    requires padc == ' ' || padc == '0' || padc == '-'
    ensures Reads("-" + Printed(num, 10, width, padc), 10) ==
            if Solid(num, 10, width, padc) then Reading(Wrap(-(num as int)), 1 + |Printed(num, 10, width, padc)|) else Reading(0, 1)
  {
    var text := Printed(num, 10, width, padc);
    if Solid(num, 10, width, padc) {
      PrintedDigits(num, 10, width, padc);
      MinusNumber(num, text, 10);
    } else {
      PadsStop(num, 10, width, padc);
      MinusNothing(text, 10);
    }
  }

  /** The flag '-' pads a number with dashes in front, and strtol takes the first for a sign. */
  lemma OneDashReads(num: nat, base: nat, width: int)
    requires 2 <= base <= 16 && width == |Numeral(num, base)| + 1
    ensures Reads(Printed(num, base, width, '-'), base) == Reading(Wrap(-(num as int)), |Printed(num, base, width, '-')|)
  {
    var text, digits := Printed(num, base, width, '-'), Numeral(num, base);
    NumeralDigits(num, base);
    NumeralValue(num, base);
    MinusNumber(num, digits, base);
    assert "-" + digits == text;
  }

  lemma DashesRead(num: nat, base: nat, width: int)
    requires 2 <= base <= 16 && width > |Numeral(num, base)| + 1
    ensures Reads(Printed(num, base, width, '-'), base) == Reading(0, 1)
  {
    var text := Printed(num, base, width, '-');
    assert Stops(text[1..]);
    MinusNothing(text[1..], base);
    assert "-" + text[1..] == text;
  }

  /** The pads do not come between the reader and the number. */
  ghost predicate Readable(conv: Conversion, num: int, width: int, padc: char) {
    || Pads(conv, num, width) == 0
    || padc == '0'
    || (padc == ' ' && Prefix(conv, num) == "")
    || (padc == '-' && Prefix(conv, num) == "" && Pads(conv, num, width) == 1 && num % 0x8000_0000 == 0)
  }

  /** The whole text is read, and as the number (a 32-bit one). */
  ghost predicate ReadBack(text: string, base: int, num: int) {
    Reads(text, base) == Reading(Wrap(num), |text|)
  }

  lemma WrapOpposite(num: int)
    ensures Wrap(-num) == Wrap(num) <==> num % 0x8000_0000 == 0
  {
  }

  lemma PlainReadsExactly(conv: Conversion, num: nat, width: int, padc: char)
    requires (padc == ' ' || padc == '0' || padc == '-') && conv != Pointer
    ensures ReadBack(Printed(num, Base(conv), width, padc), Base(conv), num) <==> Readable(conv, num, width, padc)
  {
    var base := Base(conv);
    var digits := |Numeral(num, base)|;
    if padc == '-' && width > digits {
      if width == digits + 1 {
        OneDashReads(num, base, width);
        WrapOpposite(num);
      } else {
        DashesRead(num, base, width);
      }
    } else {
      UndashedReads(num, base, width, padc);
    }
  }

  lemma PointerReadsExactly(num: nat, width: int, padc: char, base: int)
    requires (padc == ' ' || padc == '0' || padc == '-') && (base == 0 || base == 16)
    ensures ReadBack(Formatted(Pointer, num, width, padc), base, num) <==> Readable(Pointer, num, width, padc)
  {
    HexReads(num, width, padc, base);
  }

  lemma NegativeReadsExactly(num: int, width: int, padc: char)
    requires (padc == ' ' || padc == '0' || padc == '-') && num < 0
    ensures ReadBack(Formatted(Signed, num, width, padc), 10, num) <==> Readable(Signed, num, width, padc)
  {
    MinusReads(-num, width, padc);
  }

  /** strtol reads back a formatted number exactly when it is readable. */
  lemma ReadsBackExactly(conv: Conversion, num: int, width: int, padc: char, base: int)
    requires conv.Signed? || num >= 0
    requires padc == ' ' || padc == '0' || padc == '-'
    requires base == Base(conv) || (conv == Pointer && base == 0)
    ensures ReadBack(Formatted(conv, num, width, padc), base, num) <==> Readable(conv, num, width, padc)
  {
    if conv == Pointer {
      PointerReadsExactly(num, width, padc, base);
    } else if num < 0 {
      NegativeReadsExactly(num, width, padc);
    } else {
      assert Formatted(conv, num, width, padc) == Printed(num, base, width, padc);
      PlainReadsExactly(conv, num, width, padc);
    }
  }

  lemma UndashedReads(num: nat, base: nat, width: int, padc: char)
    requires 2 <= base <= 16
    requires padc == ' ' || padc == '0' || (padc == '-' && width <= |Numeral(num, base)|)
    ensures Reads(Printed(num, base, width, padc), base) == Reading(Wrap(num), |Printed(num, base, width, padc)|)
  {
    var pad := if padc == '-' then ' ' else padc;
    PlainReadsBack(num, base, width, pad, "");
    assert Printed(num, base, width, pad) == Printed(num, base, width, padc);
    assert Printed(num, base, width, pad) + "" == Printed(num, base, width, pad);
  }

  /** A pointer in a wide field of spaces is read as 0. */
  lemma WidePointerIsLost()
    ensures Formatted(Pointer, 10, 2, ' ') == "0x a" && Reads("0x a", 0) == Reading(0, 2)
  {
    assert Numeral(10, 16) == [Symbol(10)] == "a";
    assert Padding(1, ' ') == " ";
    HexReads(10, 2, ' ', 0);
  }
}
