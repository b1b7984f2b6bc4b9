/** Printing integers: digits, sign, padding, and the flags and width of a
    conversion specification. */
module Printf {
  import opened Machine
  import opened Arithmetic

  const INTMAX_LIMIT := 0x8000_0000_0000_0000
  const UINTMAX_LIMIT := 0x1_0000_0000_0000_0000

  /** The bases that are not turned away: 17 stands for lower-case hexadecimal. */
  predicate BaseOk(base: int) {
    2 <= base <= 17
  }

  /** The bases 11 to 15 have more digits than their table has characters. */
  predicate FullTable(base: int) {
    base <= 10 || base >= 16
  }

  function Radix(base: int): pos
    requires BaseOk(base)
  {
    if base == 17 then 16 else base
  }

  function DigitChar(base: int, d: nat): char
    requires d < 16
  {
    if d >= 10 && !FullTable(base) then '\0'
    else if base == 17 then "0123456789abcdef"[d] else "0123456789ABCDEF"[d]
  }

  /** A number's digits, most significant first. */
  function Digits(value: nat, base: int): (s: string)
    requires BaseOk(base)
    ensures |s| >= 1
    decreases value
  {
    if value < Radix(base) then [DigitChar(base, value)]
    else
      LessQuotient(value, Radix(base));
      Digits(Over(value, Radix(base)), base) + [DigitChar(base, LastDigit(value, Radix(base)))]
  }

  function Over(value: nat, r: pos): nat {
    DivMod(r, value);
    value / r
  }

  function LastDigit(value: nat, r: pos): (d: nat)
    ensures d < r
  {
    value % r
  }

  lemma OverAndLast(value: nat, r: pos)
    ensures value == Over(value, r) * r + LastDigit(value, r)
    ensures value < r ==> LastDigit(value, r) == value
  {
    DivMod(r, value);
  }

  lemma LessQuotient(value: nat, r: pos)
    requires r >= 2
    ensures (value > 0 ==> Over(value, r) < value) && (Over(value, r) == 0 <==> value < r)
  {
    DivMod(r, value);
    var q := value / r;
    if q >= 1 {
      MulMono(q, 2, r);
    }
    assert q == 0 ==> q * r == 0;
    assert q >= 1 ==> q * r >= r by {
      if q >= 1 {
        MulMono(r, 1, q);
      }
    }
  }

  function Repeat(c: char, n: nat): (s: string)
    ensures |s| == n && forall i :: 0 <= i < n ==> s[i] == c
  {
    seq(n, _ => c)
  }

  predicate IsSign(c: char) {
    c == '-' || c == '+' || c == ' '
  }

  function Sign(i: int, plus: bool, space: bool): string {
    if i < 0 then "-" else if plus then "+" else if space then " " else ""
  }

  /** The shortest text of a number. */
  function Natural(i: int, base: int, plus: bool, space: bool): string
    requires BaseOk(base)
  {
    Sign(i, plus, space) + Digits(if i < 0 then -i else i, base)
  }

  /** Text brought to a width: blanks behind, zeros between sign and digits,
      or blanks in front. */
  function Padded(s: string, width: nat, left: bool, zero: bool): (t: string)
    ensures |t| == if |s| < width then width else |s|
  {
    var n := if |s| < width then width - |s| else 0;
    if left then s + Repeat(' ', n)
    else if zero && s != "" && IsSign(s[0]) then [s[0]] + Repeat('0', n) + s[1..]
    else Repeat(if zero then '0' else ' ', n) + s
  }

  function ClampWidth(width: int): nat {
    if width < 0 then 0 else if width > 255 then 255 else width
  }

  /** The part of a text in front of its first NUL. */
  function UpToNul(s: string): (t: string)
    ensures t <= s && '\0' !in t && (|t| < |s| ==> s[|t|] == '\0')
  {
    if s == "" || s[0] == '\0' then "" else [s[0]] + UpToNul(s[1..])
  }

  lemma {:induction false} NulEnds(s: string, n: nat)
    requires n <= |s| && '\0' !in s[..n] && (n < |s| ==> s[n] == '\0')
    ensures UpToNul(s) == s[..n]
  {
    if n > 0 {
      assert s[..n][0] == s[0] && s[1..][..n - 1] == s[..n][1..];
      NulEnds(s[1..], n - 1);
    }
  }

  /** Digits as they are read back from the buffer: up to the first one that
      the table of the base does not hold. */
  function Readable(s: string, base: int): string {
    if FullTable(base) then s else UpToNul(s)
  }

  /** What __int_str puts in the buffer. */
  function IntText(i: int, base: int, plus: bool, space: bool, width: int, left: bool, zero: bool): string
    requires BaseOk(base)
  {
    Padded(Readable(Natural(i, base, plus, space), base), ClampWidth(width), left, zero)
  }

  /** What __uint_str puts in the buffer. */
  function UintText(value: nat, base: int, width: int, left: bool, zero: bool): string
    requires BaseOk(base)
  {
    Padded(Readable(Digits(value, base), base), ClampWidth(width), left, zero)
  }

  /* ---------- how long a number can be ---------- */

  lemma {:induction false} DigitsLength(value: nat, base: int, k: pos)
    requires BaseOk(base) && value < Pow2(k)
    ensures |Digits(value, base)| <= k
    decreases k
  {
    var r := Radix(base);
    assert Pow2(1) == 2;
    if value >= r && k > 1 {
      var q := Over(value, r);
      LessQuotient(value, r);
      DivMod(r, value);
      MulMono(q, 2, r);
      DigitsLength(q, base, k - 1);
    }
  }

  lemma Pow2Sum(m: nat, n: nat)
    ensures Pow2(m + n) == Pow2(m) * Pow2(n)
    decreases n
  {
    if n > 0 {
      Pow2Sum(m, n - 1);
      Doubled(Pow2(m), Pow2(n - 1));
    }
  }

  lemma Doubled(a: nat, b: nat)
    ensures a * (2 * b) == 2 * (a * b)
  {
  }

  lemma Pow2Sixtyfour()
    ensures Pow2(64) == UINTMAX_LIMIT
  {
    assert Pow2(8) == 0x100;
    Pow2Sum(8, 8);
    Pow2Sum(16, 16);
    Pow2Sum(32, 32);
  }

  /** No 64-bit number has more than 64 digits, so with a sign it fits well
      within the 256 characters of the buffer. */
  lemma FitsBuffer(value: nat, base: int)
    requires BaseOk(base) && value < UINTMAX_LIMIT
    ensures |Digits(value, base)| <= 64
  {
    hide Pow2;
    Pow2Sixtyfour();
    DigitsLength(value, base, 64);
  }

  lemma {:induction false} NoNul(value: nat, base: int)
    requires BaseOk(base) && FullTable(base)
    ensures '\0' !in Digits(value, base)
    decreases value
  {
    if value >= Radix(base) {
      LessQuotient(value, Radix(base));
      NoNul(Over(value, Radix(base)), base);
    }
  }

  /** One more digit than the quotient. */
  lemma DigitsStep(value: nat, base: int)
    requires BaseOk(base)
    ensures Over(value, Radix(base)) == 0 ==> Digits(value, base) == [DigitChar(base, LastDigit(value, Radix(base)))]
    ensures Over(value, Radix(base)) != 0 ==>
              Digits(value, base) == Digits(Over(value, Radix(base)), base) + [DigitChar(base, LastDigit(value, Radix(base)))]
  {
    hide Over, LastDigit;
    LessQuotient(value, Radix(base));
    OverAndLast(value, Radix(base));
  }

  /* ---------- what the digits are ---------- */

  function Power(r: pos, j: nat): pos {
    if j == 0 then 1 else Product(r, Power(r, j - 1))
  }

  function Product(a: pos, b: pos): (c: pos)
    ensures c == a * b
  {
    MulMono(a, 1, b);
    a * b
  }

  /** The digit of value at the j-th place from the right. */
  function Place(value: nat, r: pos, j: nat): (d: nat)
    ensures d < r
  {
    LastDigit(Over(value, Power(r, j)), r)
  }

  lemma DigitCharacter(base: int, d: nat)
    requires d < 16
    ensures DigitChar(base, d) as int
            == if 11 <= base <= 15 && d >= 10 then 0 else if d < 10 then '0' as int + d else if base == 17 then 'a' as int + d - 10 else 'A' as int + d - 10
  {
    assert d == 0 || d == 1 || d == 2 || d == 3 || d == 4 || d == 5 || d == 6 || d == 7
        || d == 8 || d == 9 || d == 10 || d == 11 || d == 12 || d == 13 || d == 14 || d == 15;
  }

  lemma OverTwice(value: nat, r: pos, e: pos)
    ensures Over(Over(value, r), e) == Over(value, Product(r, e))
  {
    var q, l := Over(value, r), LastDigit(value, r);
    var k, m := Over(q, e), LastDigit(q, e);
    OverAndLast(value, r);
    OverAndLast(q, e);
    assert value == (k * e + m) * r + l == k * (r * e) + (m * r + l);
    MulLess(m, e, r);
    DivModOf(Product(r, e), k, m * r + l);
  }

  lemma OverOne(value: nat)
    ensures Over(value, 1) == value
  {
  }

  /** Every digit is the one of its place, and there are no more than needed. */
  lemma {:induction false} DigitAt(value: nat, base: int, j: nat)
    requires BaseOk(base) && j < |Digits(value, base)|
    ensures
      var d, c := Place(value, if base == 17 then 16 else base, j), Digits(value, base)[|Digits(value, base)| - 1 - j];
      c as int == if 11 <= base <= 15 && d >= 10 then 0 else if d < 10 then '0' as int + d else if base == 17 then 'a' as int + d - 10 else 'A' as int + d - 10
    decreases value
  {
    hide Over, LastDigit, DigitChar, Digits, Place;
    var r := Radix(base);
    DigitsStep(value, base);
    LessQuotient(value, r);
    PlaceStep(value, r, j);
    if j == 0 {
      DigitCharacter(base, LastDigit(value, r));
    } else {
      DigitAt(Over(value, r), base, j - 1);
    }
  }

  lemma PlaceStep(value: nat, r: pos, j: nat)
    ensures Place(value, r, j) == if j == 0 then LastDigit(value, r) else Place(Over(value, r), r, j - 1)
  {
    hide Over, LastDigit;
    if j == 0 {
      OverOne(value);
    } else {
      OverTwice(value, r, Power(r, j - 1));
    }
  }

  lemma {:induction false} NoLeadingZero(value: nat, base: int)
    requires BaseOk(base) && FullTable(base)
    ensures value > 0 ==> Digits(value, base)[0] != '0'
    ensures value == 0 ==> Digits(value, base) == "0"
    decreases value
  {
    hide Over, LastDigit, DigitChar, Digits;
    var r := Radix(base);
    DigitsStep(value, base);
    LessQuotient(value, r);
    OverAndLast(value, r);
    DigitCharacter(base, LastDigit(value, r));
    if Over(value, r) != 0 {
      NoLeadingZero(Over(value, r), base);
    }
  }

  /** A width written in decimal is read as that number. */
  lemma {:induction false} WidthReads(n: nat)
    ensures forall k :: 0 <= k < |Digits(n, 10)| ==> IsDigit(Digits(n, 10)[k])
    ensures Decimal(Digits(n, 10)) == n
    decreases n
  {
    hide Over, LastDigit, DigitChar, Digits;
    DigitsStep(n, 10);
    LessQuotient(n, 10);
    OverAndLast(n, 10);
    var d := LastDigit(n, 10);
    DigitCharacter(10, d);
    OneDigit(DigitChar(10, d));
    if Over(n, 10) != 0 {
      WidthReads(Over(n, 10));
      assert Digits(n, 10)[..|Digits(n, 10)| - 1] == Digits(Over(n, 10), 10);
    }
  }

  lemma OneDigit(c: char)
    ensures IsDigit(c) ==> Decimal([c]) == DecimalDigit(c)
  {
    if IsDigit(c) {
      assert [c][..0] == "";
    }
  }

  /* ---------- the buffer ---------- */

  /** The digit loops: the length first, then the digits from the right. */
  method WriteDigits(b: array<char>, at: nat, number: nat, base: int) returns (end: nat)
    requires BaseOk(base) && number < UINTMAX_LIMIT && at <= 1 && b.Length >= 256
    modifies b
    ensures end == at + |Digits(number, base)| < 256 && b[end] == '\0'
    ensures b[at..end] == Digits(number, base) && (FullTable(base) ==> '\0' !in b[at..end])
    ensures b[..at] == old(b[..at])
  {
    hide Digits, Over, LastDigit, DigitChar, Radix;
    FitsBuffer(number, base);
    if FullTable(base) {
      NoNul(number, base);
    }
    end := CountDigits(at, number, base);
    ghost var before := b[..at];
    b[end] := '\0';
    PutDigits(b, at, end, number, base);
    assert b[..at] == before;
  }

  /** do { p++; shifter /= base; } while (shifter != 0) */
  method CountDigits(at: nat, number: nat, base: int) returns (p: nat)
    requires BaseOk(base)
    ensures p == at + |Digits(number, base)|
  {
    hide Digits, Over, LastDigit, DigitChar;
    var r := Radix(base);
    p := at + 1;
    DigitsStep(number, base);
    var shifter: nat := Over(number, r);
    while shifter != 0
      invariant if shifter == 0 then p == at + |Digits(number, base)| else p + |Digits(shifter, base)| == at + |Digits(number, base)|
      decreases shifter
    {
      DigitsStep(shifter, base);
      LessQuotient(shifter, r);
      p := p + 1;
      shifter := Over(shifter, r);
    }
  }

  /** do { *--p = digit[value % base]; value /= base; } while (value != 0) */
  method PutDigits(b: array<char>, at: nat, end: nat, number: nat, base: int)
    requires BaseOk(base) && end == at + |Digits(number, base)| < b.Length
    modifies b
    ensures b[at..end] == Digits(number, base) && b[..at] == old(b[..at]) && b[end] == old(b[end])
  {
    hide Digits, Over, LastDigit, DigitChar;
    var r := Radix(base);
    ghost var all := Digits(number, base);
    DigitsStep(number, base);
    var p := end - 1;
    b[p] := DigitChar(base, LastDigit(number, r));
    var value: nat := Over(number, r);
    assert b[..at] == old(b[..at]);
    assert b[p..end] == [DigitChar(base, LastDigit(number, r))];
    while value != 0
      invariant at <= p < end && b[end] == old(b[end]) && b[..at] == old(b[..at])
      invariant if value == 0 then p == at && b[p..end] == all
                else p == at + |Digits(value, base)| && Digits(value, base) + b[p..end] == all
      decreases value
    {
      DigitsStep(value, base);
      LessQuotient(value, r);
      ghost var tail := b[p..end];
      ghost var c := DigitChar(base, LastDigit(value, r));
      p := p - 1;
      b[p] := DigitChar(base, LastDigit(value, r));
      assert b[p..end] == [c] + tail;
      MoveBracket(Digits(Over(value, r), base), c, tail);
      value := Over(value, r);
    }
  }

  lemma MoveBracket(s: string, c: char, t: string)
    ensures (s + [c]) + t == s + ([c] + t)
  {
  }

  /** strlen of a buffer with a text of at most bound characters. */
  method StrLen(b: array<char>, bound: nat, ghost base: int) returns (n: nat)
    requires bound < b.Length && b[bound] == '\0' && (FullTable(base) ==> '\0' !in b[..bound])
    ensures n <= bound && b[n] == '\0' && '\0' !in b[..n] && b[..n] == Readable(b[..bound], base)
  {
    n := 0;
    while b[n] != '\0'
      invariant n <= bound && '\0' !in b[..n]
      decreases bound - n
    {
      assert b[..n + 1] == b[..n] + [b[n]];
      n := n + 1;
    }
    assert b[..bound][..n] == b[..n];
    NulEnds(b[..bound], n);
    NoEarlyEnd(b[..bound], n, base);
  }

  lemma NoEarlyEnd(s: string, n: nat, base: int)
    requires n <= |s| && (n < |s| ==> s[n] == '\0') && (FullTable(base) ==> '\0' !in s)
    ensures FullTable(base) ==> s[..n] == s
  {
  }

  /** Padding on the right, in place. */
  method PadRight(b: array<char>, length: nat, padding0: nat) returns (end: nat)
    requires length + padding0 <= 255 && b.Length >= 256
    modifies b
    ensures end == length + padding0 && b[..end] == old(b[..length]) + Repeat(' ', padding0) && b[end] == '\0'
  {
    hide Repeat;
    ghost var s := b[..length];
    var padding: nat := padding0;
    end := length;
    RepeatNothing(' ');
    while padding > 0 && end < 255
      invariant padding <= padding0 && end == length + (padding0 - padding) && b[..end] == s + Repeat(' ', padding0 - padding)
      decreases padding
    {
      RepeatNext(' ', padding0 - padding);
      ghost var before := b[..end];
      b[end] := ' ';
      assert b[..end + 1] == before + [' '];
      end := end + 1;
      padding := padding - 1;
    }
    b[end] := '\0';
  }

  /** Writes fill characters behind the first at of a. */
  method AppendFill(a: array<char>, at: nat, fill: char, padding0: nat) returns (output: nat)
    requires at + padding0 <= 255 && a.Length == 256
    modifies a
    ensures output == at + padding0 && a[..output] == old(a[..at]) + Repeat(fill, padding0)
  {
    hide Repeat;
    ghost var head := a[..at];
    var padding: nat := padding0;
    output := at;
    RepeatNothing(fill);
    while padding > 0 && output < 255
      invariant padding <= padding0 && output == at + (padding0 - padding) && a[..output] == head + Repeat(fill, padding0 - padding)
      decreases padding
    {
      RepeatNext(fill, padding0 - padding);
      ghost var before := a[..output];
      a[output] := fill;
      assert a[..output + 1] == before + [fill];
      output := output + 1;
      padding := padding - 1;
    }
  }

  /** Copies the rest of the text in b behind the first at of a. */
  method AppendText(a: array<char>, at: nat, b: array<char>, from: nat, ghost length: nat) returns (output: nat)
    requires a != b && a.Length == 256 && b.Length >= 256 && from <= length < 256 && at + (length - from) <= 255
    requires b[length] == '\0' && forall k :: 0 <= k < length ==> b[k] != '\0'
    modifies a
    ensures output == at + (length - from) && a[..output] == old(a[..at]) + b[from..length]
  {
    ghost var head := a[..at];
    ghost var s := b[..length];
    var input := from;
    output := at;
    assert s[from..input] == [];
    while b[input] != '\0' && output < 255
      invariant from <= input <= length && output == at + (input - from) && b[..length] == s && b[length] == '\0'
      invariant a[..output] == head + s[from..input] && forall k :: 0 <= k < length ==> b[k] != '\0'
      decreases length - input
    {
      ghost var before := a[..output];
      a[output] := b[input];
      assert a[..output + 1] == before + [s[input]];
      assert s[from..input + 1] == s[from..input] + [s[input]];
      output := output + 1;
      input := input + 1;
    }
    assert s[from..length] == b[from..length];
  }

  /** Padding on the left, through a second buffer: a sign stays in front of
      zeros. */
  method PadLeft(b: array<char>, length: nat, padding: nat, zeroPad: bool) returns (end: nat)
    requires length + padding <= 255 && b.Length >= 256 && b[length] == '\0' && '\0' !in b[..length]
    modifies b
    ensures end == length + padding && b[end] == '\0'
    ensures
      var s := old(b[..length]);
      b[..end] == if zeroPad && s != "" && IsSign(s[0]) then [s[0]] + Repeat('0', padding) + s[1..]
                  else Repeat(if zeroPad then '0' else ' ', padding) + s
  {
    hide Repeat;
    ghost var s := b[..length];
    var a := new char[256](_ => '\0');
    var start := 0;
    if zeroPad && IsSign(b[0]) {
      a[0] := b[0];
      start := 1;
    }
    NulFree(s);
    assert start <= length && a[..start] == s[..start];
    var output := AppendFill(a, start, if zeroPad then '0' else ' ', padding);
    output := AppendText(a, output, b, start, length);
    a[output] := '\0';
    ghost var t := a[..output];
    assert b[start..length] == s[start..];
    forall k | 0 <= k <= output {
      b[k] := a[k];
    }
    end := output;
    assert b[..end] == t;
  }

  lemma NulFree(s: string)
    requires '\0' !in s
    ensures forall k :: 0 <= k < |s| ==> s[k] != '\0'
  {
  }

  lemma RepeatNothing(c: char)
    ensures Repeat(c, 0) == ""
  {
  }

  /** The padding shared by both printers. */
  method Pad(b: array<char>, length: nat, width: int, justify: bool, zeroPad: bool) returns (end: nat)
    requires length <= 65 && b.Length >= 256 && b[length] == '\0' && '\0' !in b[..length]
    modifies b
    ensures end < 256 && b[..end] == Padded(old(b[..length]), ClampWidth(width), justify, zeroPad) && b[end] == '\0'
  {
    hide Repeat;
    var padding := ClampWidth(width) - length;
    if padding < 0 {
      padding := 0;
    }
    if justify {
      end := PadRight(b, length, padding);
    } else {
      end := PadLeft(b, length, padding, zeroPad);
    }
  }

  lemma RepeatNext(c: char, n: nat)
    ensures Repeat(c, n + 1) == Repeat(c, n) + [c]
  {
  }

  /** __int_str, for every intmax_t including the least. */
  method IntStr(i: int, b: array<char>, base: int, plus: bool, space: bool, paddingNo: int, justify: bool, zeroPad: bool) returns (end: nat)
    requires -INTMAX_LIMIT <= i < INTMAX_LIMIT && b.Length >= 256
    modifies b
    ensures end < 256 && b[end] == '\0'
    ensures BaseOk(base) ==> b[..end] == IntText(i, base, plus, space, paddingNo, justify, zeroPad)
    ensures !BaseOk(base) ==> end == 0
  {
    hide Digits, Padded;
    if base < 2 || base > 17 {
      b[0] := '\0';
      return 0;
    }
    var p := 0;
    var value: nat;
    if i < 0 {
      b[0] := '-';
      p := 1;
      value := -(i + 1) + 1;
    } else {
      value := i;
      if plus {
        b[0] := '+';
        p := 1;
      } else if space {
        b[0] := ' ';
        p := 1;
      }
    }
    assert b[..p] == Sign(i, plus, space);
    FitsBuffer(value, base);
    var length := WriteDigits(b, p, value, base);
    assert b[..length] == b[..p] + b[p..length];
    length := StrLen(b, length, base);
    end := Pad(b, length, paddingNo, justify, zeroPad);
  }

  /** __uint_str */
  method UintStr(i: nat, b: array<char>, base: int, paddingNo: int, justify: bool, zeroPad: bool) returns (end: nat)
    requires i < UINTMAX_LIMIT && b.Length >= 256
    modifies b
    ensures end < 256 && b[end] == '\0'
    ensures BaseOk(base) ==> b[..end] == UintText(i, base, paddingNo, justify, zeroPad)
    ensures !BaseOk(base) ==> end == 0
  {
    hide Digits, Padded;
    if base < 2 || base > 17 {
      b[0] := '\0';
      return 0;
    }
    FitsBuffer(i, base);
    var length := WriteDigits(b, 0, i, base);
    assert b[..length] == b[0..length];
    length := StrLen(b, length, base);
    end := Pad(b, length, paddingNo, justify, zeroPad);
  }

  /* ---------- conversion specifications ---------- */

  datatype Flags = Flags(left: bool, plus: bool, alt: bool, space: bool, zero: bool)

  predicate IsFlag(c: char) {
    c == '-' || c == '+' || c == '#' || c == ' ' || c == '0'
  }

  predicate IsDigit(c: char) {
    '0' <= c <= '9'
  }

  /** The flags that the characters of s stand for. */
  predicate FlagsOf(s: string, f: Flags) {
    && (f.left <==> '-' in s) && (f.plus <==> '+' in s) && (f.alt <==> '#' in s)
    && (f.space <==> ' ' in s) && (f.zero <==> '0' in s)
  }

  /** The flag loop of vfprintf: any number of flags, in any order. */
  method ParseFlags(format: string, start: nat) returns (f: Flags, end: nat)
    requires start <= |format|
    ensures start <= end <= |format| && FlagsOf(format[start..end], f)
    ensures forall k :: start <= k < end ==> IsFlag(format[k])
    ensures end < |format| ==> !IsFlag(format[end])
  {
    f := Flags(false, false, false, false, false);
    end := start;
    while end < |format| && IsFlag(format[end])
      invariant start <= end <= |format| && FlagsOf(format[start..end], f)
      invariant forall k :: start <= k < end ==> IsFlag(format[k])
    {
      match format[end] {
        case '-' => f := f.(left := true);
        case '+' => f := f.(plus := true);
        case '#' => f := f.(alt := true);
        case ' ' => f := f.(space := true);
        case _ => f := f.(zero := true);
      }
      assert format[start..end + 1] == format[start..end] + [format[end]];
      end := end + 1;
    }
  }

  function DecimalDigit(c: char): nat
    requires IsDigit(c)
  {
    c as int - '0' as int
  }

  /** The number that decimal digits stand for. */
  function Decimal(s: string): nat
    requires forall k :: 0 <= k < |s| ==> IsDigit(s[k])
  {
    if s == "" then 0 else Decimal(s[..|s| - 1]) * 10 + DecimalDigit(s[|s| - 1])
  }

  /** The width loop of vfprintf: however many digits there are, the result is
      the number they stand for, or 255 if that is less. */
  method ParseWidth(format: string, start: nat) returns (width: nat, end: nat)
    requires start <= |format|
    ensures start <= end <= |format| && forall k :: start <= k < end ==> IsDigit(format[k])
    ensures end < |format| ==> !IsDigit(format[end])
    ensures width == if Decimal(format[start..end]) > 255 then 255 else Decimal(format[start..end])
  {
    var lengthSpec := 0;
    end := start;
    while end < |format| && IsDigit(format[end])
      invariant start <= end <= |format| && forall k :: start <= k < end ==> IsDigit(format[k])
      invariant lengthSpec == if Decimal(format[start..end]) < 260 then Decimal(format[start..end]) else 255
    {
      assert format[start..end + 1][..end - start] == format[start..end];
      if lengthSpec <= 25 {
        lengthSpec := lengthSpec * 10;
        lengthSpec := lengthSpec + DecimalDigit(format[end]);
      } else {
        lengthSpec := 255;
      }
      end := end + 1;
    }
    if lengthSpec > 255 {
      lengthSpec := 255;
    }
    width := lengthSpec;
  }

  /** vfprintf for one specification of flags, width and d, i, u, x or X,
      without the '#' flag: arg is an int for d and i, an unsigned int
      otherwise. */
  method FormatInteger(format: string, arg: int, b: array<char>) returns (ok: bool, end: nat, ghost f: Flags, ghost flagsEnd: nat, ghost widthEnd: nat)
    requires b.Length >= 256 && -0x8000_0000 <= arg < 0x1_0000_0000
    modifies b
    ensures flagsEnd <= widthEnd <= |format| && FlagsOf(format[..flagsEnd], f)
    ensures forall k :: flagsEnd <= k < widthEnd ==> IsDigit(format[k])
    ensures ok <==> widthEnd < |format| && format[widthEnd] in {'d', 'i', 'u', 'x', 'X'} && !f.alt && (arg >= 0 || format[widthEnd] in {'d', 'i'})
    ensures ok ==>
              var flags, width := format[..flagsEnd], Decimal(format[flagsEnd..widthEnd]);
              var sign := if arg < 0 then "-" else if '+' in flags then "+" else if ' ' in flags then " " else "";
              var number := match format[widthEnd]
                            case 'x' => Digits(arg, 17)
                            case 'X' => Digits(arg, 16)
                            case 'u' => Digits(arg, 10)
                            case _ => sign + Digits(if arg < 0 then -arg else arg, 10);
              && end < 256
              && b[..end] == Padded(number, if width > 255 then 255 else width, '-' in flags, '0' in flags && '-' !in flags)
  {
    hide Padded, Digits, Decimal;
    var flags, i := ParseFlags(format, 0);
    assert format[0..i] == format[..i];
    var width, j := ParseWidth(format, i);
    f, flagsEnd, widthEnd := flags, i, j;
    end := 0;
    if j == |format| || flags.alt {
      return false, 0, f, flagsEnd, widthEnd;
    }
    var zeroPad := flags.zero;
    if flags.left {
      zeroPad := false;
    }
    var specifier := format[j];
    ok := true;
    if specifier == 'd' || specifier == 'i' {
      end := IntStr(arg, b, 10, flags.plus, flags.space, width, flags.left, zeroPad);
    } else if arg >= 0 && specifier == 'u' {
      end := UintStr(arg, b, 10, width, flags.left, zeroPad);
    } else if arg >= 0 && specifier == 'x' {
      end := UintStr(arg, b, 17, width, flags.left, zeroPad);
    } else if arg >= 0 && specifier == 'X' {
      end := UintStr(arg, b, 16, width, flags.left, zeroPad);
    } else {
      ok := false;
    }
  }
}
