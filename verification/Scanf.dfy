/** Scanning integers, and that it undoes printing them. */
module Scanf {
  import opened Machine
  import opened Arithmetic
  import opened Printf

  const UINT_LIMIT := 0x1_0000_0000
  const INT_LIMIT := 0x8000_0000

  /** scan_is_space */
  predicate IsSpace(c: char) {
    c == ' ' || c == '\t' || c == 0x0C as char || c == '\n' || c == '\r' || c == 0x0B as char
  }

  /** scan_digit_value */
  function DigitValue(c: char, base: int): int {
    var value :=
      if '0' <= c <= '9' then c as int - '0' as int
      else if 'a' <= c <= 'f' then c as int - 'a' as int + 10
      else if 'A' <= c <= 'F' then c as int - 'A' as int + 10
      else -1;
    if value >= base then -1 else value
  }

  /** A stream's input with at most one character pushed back. text is what the
      descriptor delivers; behind it the file ends, or reads fail. */
  class Reader {
    const text: string
    const breaks: bool
    const readable: bool
    var position: nat
    var hasPushback: bool
    var pushback: char
    var eof: bool
    var error: bool

    predicate Valid()
      reads this
    {
      position <= |text| && (hasPushback ==> readable)
    }

    constructor (text: string, breaks: bool, readable: bool)
      ensures Valid() && Remaining() == if readable then text else ""
    {
      this.text, this.breaks, this.readable := text, breaks, readable;
      position, hasPushback, pushback, eof, error := 0, false, ' ', false, false;
    }

    /** What the program can still read. */
    function Remaining(): string
      reads this
    {
      if !readable then ""
      else (if hasPushback then [pushback] else "") + if position <= |text| then text[position..] else ""
    }

    /** fgetc; got is false for EOF, which is told apart by the flags: the end of
        the file, a failed read, or a stream that may not be read. */
    method Fgetc() returns (got: bool, c: char)
      requires Valid()
      modifies this
      ensures Valid() && !hasPushback && (got <==> old(Remaining()) != "") && (got ==> readable)
      ensures if got then old(Remaining()) == [c] + Remaining() else Remaining() == ""
      ensures eof == (old(eof) || (!got && readable && !breaks)) && error == (old(error) || (!got && (!readable || breaks)))
    {
      if !readable {
        error := true;
        return false, ' ';
      }
      if hasPushback {
        hasPushback := false;
        return true, pushback;
      }
      if position == |text| {
        if breaks {
          error := true;
        } else {
          eof := true;
        }
        return false, ' ';
      }
      position := position + 1;
      return true, text[position - 1];
    }

    /** ungetc: one character at a time, and not EOF, for which got is false. */
    method Ungetc(got: bool, c: char) returns (ok: bool)
      requires Valid()
      modifies this
      ensures Valid() && ok == (got && readable && !old(hasPushback))
      ensures Remaining() == if ok then [c] + old(Remaining()) else old(Remaining())
      ensures eof == (old(eof) && !ok) && error == (old(error) || (got && !readable))
    {
      if !got {
        return false;
      }
      if !readable {
        error := true;
        return false;
      }
      if hasPushback {
        return false;
      }
      pushback, hasPushback, eof := c, true, false;
      return true;
    }
  }

  /* ---------- what a conversion takes from its input ---------- */

  function AfterSpace(s: string): string {
    if s != "" && IsSpace(s[0]) then AfterSpace(s[1..]) else s
  }

  /** How many leading characters are digits, up to a limit unless it is
      negative. */
  function DigitRun(s: string, base: int, limit: int): (n: nat)
    ensures n <= |s|
  {
    if s == "" || limit == 0 || DigitValue(s[0], base) < 0 then 0 else 1 + DigitRun(s[1..], base, limit - 1)
  }

  /** The number that digits stand for. */
  function ValueOf(s: string, base: int): int {
    if s == "" then 0 else ValueOf(s[..|s| - 1], base) * base + DigitValue(s[|s| - 1], base)
  }

  function ToUnsigned(x: int): nat {
    x % UINT_LIMIT
  }

  /** The conversion of an unsigned int to int. */
  function ToInt(x: nat): int {
    if x >= INT_LIMIT then x - UINT_LIMIT else x
  }

  function Assigned(value: nat, negative: bool, signed: bool): int {
    var v := if negative then ToUnsigned(0 - value) else value;
    if signed then ToInt(v) else v
  }

  datatype Scanned = EndOfInput | Mismatch(rest: string) | Matched(value: int, rest: string)

  predicate StartsWithSign(s: string) {
    s != "" && (s[0] == '+' || s[0] == '-')
  }

  function AfterSign(s: string): string {
    if StartsWithSign(s) then s[1..] else s
  }

  function Limit(s: string, width: nat): int {
    if width == 0 then -1 else if StartsWithSign(s) then width - 1 else width
  }

  /** Blanks, an optional sign, and the longest run of digits that the width
      allows. */
  function Scan(s: string, base: int, signed: bool, width: nat): Scanned {
    var t := AfterSpace(s);
    if t == "" then EndOfInput
    else
      var digits := AfterSign(t);
      var n := DigitRun(digits, base, Limit(t, width));
      if n == 0 then Mismatch(digits)
      else Matched(Assigned(ToUnsigned(ValueOf(digits[..n], base)), t[0] == '-', signed), digits[n..])
  }

  lemma SpaceCodes(c: char)
    ensures IsSpace(c) <==> c as int in {9, 10, 11, 12, 13, 32}
  {
  }

  /** scan_skip_space */
  method ScanSkipSpace(r: Reader) returns (found: bool, ghost skipped: nat)
    requires r.Valid()
    modifies r
    ensures r.Valid() && r.Remaining() == AfterSpace(old(r.Remaining())) && (found <==> r.Remaining() != "")
    ensures skipped <= |old(r.Remaining())| && r.Remaining() == old(r.Remaining())[skipped..]
    ensures forall k :: 0 <= k < skipped ==> old(r.Remaining())[k] as int in {9, 10, 11, 12, 13, 32}
    ensures found ==> r.Remaining()[0] as int !in {9, 10, 11, 12, 13, 32}
  {
    hide Reader.Remaining, IsSpace;
    ghost var all := r.Remaining();
    skipped := 0;
    while true
      invariant r.Valid() && AfterSpace(r.Remaining()) == AfterSpace(old(r.Remaining()))
      invariant skipped <= |all| && r.Remaining() == all[skipped..]
      invariant forall k :: 0 <= k < skipped ==> all[k] as int in {9, 10, 11, 12, 13, 32}
      decreases |r.Remaining()|
    {
      ghost var s := r.Remaining();
      var got, c := r.Fgetc();
      if !got {
        return false, skipped;
      }
      assert s[0] == c && s[1..] == r.Remaining();
      NextOf(all, skipped, c, r.Remaining());
      SpaceCodes(c);
      if !IsSpace(c) {
        var ok := r.Ungetc(got, c);
        assert [c] + s[1..] == s;
        return true, skipped;
      }
      skipped := skipped + 1;
    }
  }

  /** Wrapping around early makes no difference. */
  lemma WrapStep(value: int, base: int, digit: int)
    ensures ToUnsigned(ToUnsigned(value) * base + digit) == ToUnsigned(value * base + digit)
  {
    var q := value / UINT_LIMIT;
    assert value == q * UINT_LIMIT + ToUnsigned(value);
    assert value * base + digit == (q * base) * UINT_LIMIT + (ToUnsigned(value) * base + digit);
    WrapMultiple(ToUnsigned(value) * base + digit, q * base);
  }

  lemma WrapMultiple(x: int, k: int)
    ensures ToUnsigned(k * UINT_LIMIT + x) == ToUnsigned(x)
  {
  }

  /** value * base + digit, in unsigned arithmetic. */
  function WithDigit(value: nat, base: int, digit: int): nat {
    ToUnsigned(value * base + digit)
  }

  lemma ValueStep(s: string, n: nat, base: int)
    requires n < |s|
    ensures WithDigit(ToUnsigned(ValueOf(s[..n], base)), base, DigitValue(s[n], base)) == ToUnsigned(ValueOf(s[..n + 1], base))
  {
    hide DigitValue, ToUnsigned;
    WrapStep(ValueOf(s[..n], base), base, DigitValue(s[n], base));
    assert s[..n + 1][..n] == s[..n];
  }

  /** The optional sign. */
  method ScanSign(r: Reader) returns (negative: bool, consumed: nat)
    requires r.Valid() && r.Remaining() != ""
    modifies r
    ensures r.Valid() && r.Remaining() == AfterSign(old(r.Remaining()))
    ensures negative <==> old(r.Remaining())[0] == '-'
    ensures consumed == if StartsWithSign(old(r.Remaining())) then 1 else 0
  {
    ghost var t := r.Remaining();
    var got, c := r.Fgetc();
    assert t[0] == c && t[1..] == r.Remaining();
    if c == '+' || c == '-' {
      return c == '-', 1;
    }
    var ok := r.Ungetc(got, c);
    return false, 0;
  }

  /** The digit loop. The character that ends it goes back. */
  method ScanDigits(r: Reader, base: int, limit: int) returns (digits: nat, value: nat)
    requires r.Valid()
    modifies r
    ensures r.Valid() && digits == DigitRun(old(r.Remaining()), base, limit)
    ensures r.Remaining() == old(r.Remaining())[digits..] && value == ToUnsigned(ValueOf(old(r.Remaining())[..digits], base))
  {
    hide DigitValue, ToUnsigned, AfterSpace, RunAt, ValueOf, WithDigit, DigitRun, Reader.Remaining;
    ghost var all := r.Remaining();
    digits, value := 0, 0;
    RunFromStart(all, base, limit);
    NoValue(base);
    var unlimited := limit < 0;
    while unlimited || digits < limit
      invariant r.Valid() && digits <= |all| && r.Remaining() == all[digits..] && (unlimited || digits <= limit)
      invariant DigitRun(all, base, limit) == digits + RunAt(all, digits, base, if unlimited then -1 else limit - digits)
      invariant value == ToUnsigned(ValueOf(all[..digits], base))
      decreases |all| - digits
    {
      RunAtStep(all, digits, base, if unlimited then -1 else limit - digits);
      var got, c := r.Fgetc();
      if !got {
        break;
      }
      NextOf(all, digits, c, r.Remaining());
      var digit := DigitValue(c, base);
      if digit < 0 {
        var ok := r.Ungetc(got, c);
        break;
      }
      ValueStep(all, digits, base);
      value := WithDigit(value, base, digit);
      digits := digits + 1;
    }
    RunAtStep(all, digits, base, if unlimited then -1 else limit - digits);
  }

  lemma NextOf(s: string, k: nat, c: char, rest: string)
    requires k <= |s| && s[k..] == [c] + rest
    ensures k < |s| && c == s[k] && rest == s[k + 1..]
  {
    assert s[k..][0] == c && s[k..][1..] == rest;
  }

  /** The digits from position k on. */
  function RunAt(s: string, k: nat, base: int, limit: int): (n: nat)
    requires k <= |s|
  {
    DigitRun(s[k..], base, limit)
  }

  lemma RunFromStart(s: string, base: int, limit: int)
    ensures s[0..] == s && s[..0] == ""
    ensures DigitRun(s, base, limit) == RunAt(s, 0, base, if limit < 0 then -1 else limit)
  {
    RunUnlimited(s, base, limit);
  }

  lemma RunAtStep(s: string, k: nat, base: int, limit: int)
    requires k <= |s|
    ensures k == |s| || limit == 0 || DigitValue(s[k], base) < 0 ==> RunAt(s, k, base, limit) == 0
    ensures k < |s| && limit != 0 && DigitValue(s[k], base) >= 0 ==>
              RunAt(s, k, base, limit) == 1 + RunAt(s, k + 1, base, if limit < 0 then -1 else limit - 1)
  {
    hide DigitRun, DigitValue;
    RunStep(s[k..], base, limit);
    if k < |s| {
      assert s[k..][1..] == s[k + 1..];
    }
  }

  /** scan_integer */
  method ScanInteger(r: Reader, base: int, signed: bool, width: nat) returns (status: int, value: int)
    requires r.Valid()
    modifies r
    ensures r.Valid()
    ensures
      match Scan(old(r.Remaining()), base, signed, width)
      case EndOfInput => status == -1 && r.Remaining() == ""
      case Mismatch(rest) => status == 0 && r.Remaining() == rest
      case Matched(v, rest) => status == 1 && value == v && r.Remaining() == rest
  {
    hide DigitRun, ValueOf, AfterSpace, AfterSign, Assigned, ToUnsigned, StartsWithSign, Scan, Limit, IsSpace;
    var unlimited := width == 0;
    ghost var s := r.Remaining();
    ScanIs(s, base, signed, width);
    ghost var skipped;
    var found;
    found, skipped := ScanSkipSpace(r);
    if !found {
      return -1, 0;
    }
    var negative, consumed := ScanSign(r);
    var digits, number := ScanDigits(r, base, if unlimited then -1 else width - consumed);
    LimitIs(AfterSpace(s), width);
    assert digits == DigitRun(AfterSign(AfterSpace(s)), base, Limit(AfterSpace(s), width));
    if digits == 0 {
      assert r.Remaining() == r.Remaining()[0..];
      return 0, 0;
    }
    return 1, Assigned(number, negative, signed);
  }

  lemma ScanIs(s: string, base: int, signed: bool, width: nat)
    ensures
      var t := AfterSpace(s);
      var digits, n := AfterSign(t), DigitRun(AfterSign(t), base, Limit(t, width));
      Scan(s, base, signed, width)
      == if t == "" then EndOfInput else if n == 0 then Mismatch(digits)
         else Matched(Assigned(ToUnsigned(ValueOf(digits[..n], base)), t[0] == '-', signed), digits[n..])
  {
    hide DigitRun, ValueOf, AfterSpace, AfterSign, Assigned, ToUnsigned;
  }

  lemma LimitIs(t: string, width: nat)
    ensures Limit(t, width) == if width == 0 then -1 else width - if StartsWithSign(t) then 1 else 0
  {
  }

  lemma NoValue(base: int)
    ensures ToUnsigned(ValueOf("", base)) == 0
  {
  }

  lemma {:induction false} RunAnyNegative(s: string, base: int, a: int, b: int)
    requires a < 0 && b < 0
    ensures DigitRun(s, base, a) == DigitRun(s, base, b)
  {
    if s != "" {
      RunAnyNegative(s[1..], base, a - 1, b - 1);
    }
  }

  lemma RunStep(s: string, base: int, limit: int)
    ensures s == "" || limit == 0 || DigitValue(s[0], base) < 0 ==> DigitRun(s, base, limit) == 0
    ensures s != "" && limit != 0 && DigitValue(s[0], base) >= 0 ==>
              DigitRun(s, base, limit) == 1 + DigitRun(s[1..], base, if limit < 0 then -1 else limit - 1)
  {
    hide DigitValue;
    if s != "" && limit < 0 {
      RunAnyNegative(s[1..], base, limit - 1, -1);
    }
  }

  lemma RunUnlimited(s: string, base: int, limit: int)
    ensures limit < 0 ==> DigitRun(s, base, limit) == DigitRun(s, base, -1)
  {
    if limit < 0 {
      RunAnyNegative(s, base, limit, -1);
    }
  }

  /* ---------- what the pieces are ---------- */

  /** A digit of a base is a decimal digit or a letter of either case whose
      value is below the base; everything else is none. */
  lemma DigitExact(c: char, base: int, d: nat)
    requires 1 <= base <= 16
    ensures DigitValue(c, base) == d <==>
              d < base && (c == "0123456789abcdef"[d] || c == "0123456789ABCDEF"[d])
    ensures DigitValue(c, base) < base && (DigitValue(c, base) < 0 ==> DigitValue(c, base) == -1)
  {
    if d < 16 {
      LowerDigit(d);
      UpperDigit(d);
    }
  }

  /** The run is as long as digits and limit allow. */
  lemma {:induction false} RunExact(s: string, base: int, limit: int)
    ensures
      var n := DigitRun(s, base, limit);
      && (forall k :: 0 <= k < n ==> DigitValue(s[k], base) >= 0)
      && (limit >= 0 ==> n <= limit)
      && (n == |s| || n == limit || DigitValue(s[n], base) < 0)
  {
    hide DigitValue;
    if s != "" && limit != 0 && DigitValue(s[0], base) >= 0 {
      RunExact(s[1..], base, limit - 1);
    }
  }

  /** The stored value is the scanned one, with its sign, modulo 2^32: in the
      range of int, or in that of unsigned int. */
  lemma AssignedExact(value: nat, negative: bool, signed: bool)
    requires value < 0x1_0000_0000
    ensures
      var v: int, exact: int := Assigned(value, negative, signed), if negative then 0 - value else value;
      && (v == exact || v == exact + 0x1_0000_0000 || v == exact - 0x1_0000_0000)
      && (if signed then -0x8000_0000 <= v < 0x8000_0000 else 0 <= v < 0x1_0000_0000)
  {
  }

  /* ---------- scanning undoes printing ---------- */

  predicate AllDigits(s: string, base: int) {
    forall k :: 0 <= k < |s| ==> DigitValue(s[k], base) >= 0
  }

  /** Nothing that could continue a number. */
  predicate Ends(s: string, base: int) {
    s == "" || DigitValue(s[0], base) < 0
  }

  lemma DigitCharValue(base: int, d: nat)
    requires BaseOk(base) && FullTable(base) && d < Radix(base)
    ensures DigitValue(DigitChar(base, d), Radix(base)) == d
    ensures !IsSpace(DigitChar(base, d)) && DigitChar(base, d) != '+' && DigitChar(base, d) != '-'
  {
    if base == 17 {
      LowerDigit(d);
    } else {
      UpperDigit(d);
    }
  }

  lemma LowerDigit(d: nat)
    requires d < 16
    ensures "0123456789abcdef"[d] == if d < 10 then ('0' as int + d) as char else ('a' as int + d - 10) as char
  {
    assert d == 0 || d == 1 || d == 2 || d == 3 || d == 4 || d == 5 || d == 6 || d == 7
        || d == 8 || d == 9 || d == 10 || d == 11 || d == 12 || d == 13 || d == 14 || d == 15;
  }

  lemma UpperDigit(d: nat)
    requires d < 16
    ensures "0123456789ABCDEF"[d] == if d < 10 then ('0' as int + d) as char else ('A' as int + d - 10) as char
  {
    assert d == 0 || d == 1 || d == 2 || d == 3 || d == 4 || d == 5 || d == 6 || d == 7
        || d == 8 || d == 9 || d == 10 || d == 11 || d == 12 || d == 13 || d == 14 || d == 15;
  }

  /** Printed digits are digits, start with no sign and no blank, and stand for
      the number. */
  lemma {:induction false} DigitsValue(value: nat, base: int)
    requires BaseOk(base) && FullTable(base)
    ensures AllDigits(Digits(value, base), Radix(base)) && ValueOf(Digits(value, base), Radix(base)) == value
    ensures
      var c := Digits(value, base)[0];
      !IsSpace(c) && c != '+' && c != '-'
    decreases value
  {
    hide DigitChar, DigitValue, IsSpace;
    var r := Radix(base);
    if value < r {
      DigitCharValue(base, value);
      assert ValueOf("", r) == 0;
    } else {
      LessQuotient(value, r);
      OverAndLast(value, r);
      DigitsValue(Over(value, r), base);
      DigitCharValue(base, LastDigit(value, r));
      assert Digits(value, base)[..|Digits(value, base)| - 1] == Digits(Over(value, r), base);
    }
  }

  lemma {:induction false} ZerosAreNothing(n: nat, base: int)
    requires base > 0
    ensures ValueOf(Repeat('0', n), base) == 0 && AllDigits(Repeat('0', n), base)
  {
    if n > 0 {
      ZerosAreNothing(n - 1, base);
      assert Repeat('0', n)[..n - 1] == Repeat('0', n - 1);
      assert Repeat('0', n)[n - 1] == '0';
    }
  }

  lemma {:induction false} ValueZeros(n: nat, s: string, base: int)
    requires base > 0
    ensures ValueOf(Repeat('0', n) + s, base) == ValueOf(s, base)
    decreases |s|
  {
    hide DigitValue;
    if s == "" {
      ZerosAreNothing(n, base);
      assert Repeat('0', n) + "" == Repeat('0', n);
    } else {
      var m := |s| - 1;
      ValueZeros(n, s[..m], base);
      assert (Repeat('0', n) + s)[..n + m] == Repeat('0', n) + s[..m];
    }
  }

  lemma {:induction false} SkipBlanks(n: nat, s: string)
    requires s == "" || !IsSpace(s[0])
    ensures AfterSpace(Repeat(' ', n) + s) == s
  {
    if n == 0 {
      assert Repeat(' ', 0) + s == s;
    } else {
      SkipBlanks(n - 1, s);
      assert (Repeat(' ', n) + s)[1..] == Repeat(' ', n - 1) + s;
    }
  }

  lemma {:induction false} RunStops(ds: string, tail: string, base: int)
    requires AllDigits(ds, base) && Ends(tail, base)
    ensures DigitRun(ds + tail, base, -1) == |ds|
  {
    hide DigitValue, DigitRun;
    RunStep(ds + tail, base, -1);
    if ds == "" {
      assert ds + tail == tail;
    } else {
      assert (ds + tail)[1..] == ds[1..] + tail;
      RunStops(ds[1..], tail, base);
    }
  }

  predicate SignOrNone(s: string) {
    s == "" || s == "+" || s == "-"
  }

  /** Blanks, sign, zeros and digits scan to the number; the rest stays. */
  lemma NumberScans(lead: nat, sign: string, zeros: nat, value: nat, base: int, tail: string, signed: bool)
    requires BaseOk(base) && FullTable(base) && value < UINT_LIMIT && SignOrNone(sign) && Ends(tail, Radix(base))
    ensures Scan(Repeat(' ', lead) + (sign + ((Repeat('0', zeros) + Digits(value, base)) + tail)), Radix(base), signed, 0)
            == Matched(Assigned(value, sign == "-", signed), tail)
  {
    hide Digits, DigitValue, DigitRun, ValueOf, Assigned, AfterSpace, Ends, Repeat;
    var r := Radix(base);
    var ds := Repeat('0', zeros) + Digits(value, base);
    var body := sign + (ds + tail);
    DigitsValue(value, base);
    ZerosAreNothing(zeros, r);
    ValueZeros(zeros, Digits(value, base), r);
    FirstOfNumber(sign, zeros, value, base, tail);
    SkipBlanks(lead, body);
    RunStops(ds, tail, r);
    assert AfterSign(body) == ds + tail;
    assert (ds + tail)[..|ds|] == ds && (ds + tail)[|ds|..] == tail;
  }

  lemma FirstOfNumber(sign: string, zeros: nat, value: nat, base: int, tail: string)
    requires BaseOk(base) && FullTable(base) && SignOrNone(sign)
    ensures
      var ds := Repeat('0', zeros) + Digits(value, base);
      var body := sign + (ds + tail);
      && body != "" && !IsSpace(body[0])
      && (StartsWithSign(body) <==> sign != "") && (body[0] == '-' <==> sign == "-")
      && (sign != "" ==> body[1..] == ds + tail) && (sign == "" ==> body == ds + tail)
  {
    hide Digits;
    DigitsValue(value, base);
    var ds := Repeat('0', zeros) + Digits(value, base);
    assert ds[0] == if zeros > 0 then '0' else Digits(value, base)[0];
  }

  /** A minus sign in front of an unsigned conversion: the number is taken
      from 2^32. */
  lemma MinusUnsigned(value: nat, base: int, tail: string)
    requires (base == 10 || base == 16 || base == 17) && 0 < value < 0x1_0000_0000 && Ends(tail, Radix(base))
    ensures Scan("-" + (Digits(value, base) + tail), if base == 10 then 10 else 16, false, 0) == Matched(0x1_0000_0000 - value, tail)
  {
    hide Digits, Scan, Ends;
    NumberScans(0, "-", 0, value, base, tail, false);
    assert Repeat(' ', 0) + ("-" + ((Repeat('0', 0) + Digits(value, base)) + tail)) == "-" + (Digits(value, base) + tail);
  }

  /** A width counts the sign and the digits: what it cuts off stays. */
  lemma WidthCuts(sign: string, ds: string, more: string, base: int, signed: bool, width: pos)
    requires base > 0 && SignOrNone(sign) && AllDigits(ds, base) && ds != "" && |sign| + |ds| == width
    requires !IsSpace(ds[0]) && ds[0] != '+' && ds[0] != '-'
    ensures Scan(sign + (ds + more), base, signed, width) == Matched(Assigned(ToUnsigned(ValueOf(ds, base)), sign == "-", signed), more)
  {
    hide DigitValue, DigitRun, ValueOf, Assigned, ToUnsigned;
    var t := sign + (ds + more);
    if sign == "" {
      assert t == ds + more;
    } else {
      assert t[0] == sign[0] && t[1..] == ds + more;
    }
    RunCut(ds, more, base);
    assert (ds + more)[..|ds|] == ds && (ds + more)[|ds|..] == more;
  }

  lemma {:induction false} RunCut(ds: string, more: string, base: int)
    requires AllDigits(ds, base)
    ensures DigitRun(ds + more, base, |ds|) == |ds|
  {
    hide DigitValue;
    if ds != "" {
      assert (ds + more)[1..] == ds[1..] + more;
      RunCut(ds[1..], more, base);
    }
  }

  lemma StoredBack(i: int)
    requires -INT_LIMIT <= i < INT_LIMIT
    ensures Assigned(if i < 0 then -i else i, i < 0, true) == i
  {
    if i < 0 {
      assert ToUnsigned(i) == i + UINT_LIMIT;
    }
  }

  lemma EndsAfterBlanks(n: nat, rest: string, base: int)
    requires Ends(rest, base)
    ensures Ends(Repeat(' ', n) + rest, base)
  {
    if n == 0 {
      assert Repeat(' ', n) + rest == rest;
    }
  }

  lemma PaddedParts(printed: string, d: string, width: nat, left: bool, zero: bool)
    requires printed == "" || (|printed| == 1 && IsSign(printed[0]))
    requires d != "" && !IsSign(d[0])
    ensures
      var s := printed + d;
      var n := if |s| < width then width - |s| else 0;
      Padded(s, width, left, zero)
      == if left then printed + d + Repeat(' ', n)
         else if zero then printed + Repeat('0', n) + d
         else Repeat(' ', n) + printed + d
  {
    hide Repeat;
    var s := printed + d;
    if printed != "" {
      assert s[0] == printed[0] && s[1..] == d && [s[0]] == printed;
    } else {
      assert s == d;
    }
  }

  lemma Assembled(lead: string, sign: string, zeros: string, d: string, trail: string, rest: string)
    ensures (lead + sign + zeros + d + trail) + rest == lead + (sign + ((zeros + d) + (trail + rest)))
  {
  }

  lemma RepeatSum(c: char, m: nat, n: nat)
    ensures Repeat(c, m) + Repeat(c, n) == Repeat(c, m + n) && Repeat(c, 0) == ""
  {
  }

  /** The padded text in five pieces: blanks, sign, zeros, digits, blanks. */
  lemma PaddedPieces(blank: nat, sign: string, d: string, width: nat, left: bool, zero: bool)
    requires |Repeat(' ', blank) + sign| <= 1 && (sign != "" ==> IsSign(sign[0])) && d != "" && !IsSign(d[0])
    ensures
      var s := Repeat(' ', blank) + sign + d;
      var n := if |s| < width then width - |s| else 0;
      Padded(s, width, left, zero)
      == Repeat(' ', if left || zero then blank else n + blank) + sign + Repeat('0', if zero && !left then n else 0) + d
         + if left then Repeat(' ', n) else ""
  {
    hide Padded, Repeat;
    var printed := Repeat(' ', blank) + sign;
    var s := printed + d;
    var n := if |s| < width then width - |s| else 0;
    FirstBlank(blank, sign);
    PaddedParts(printed, d, width, left, zero);
    RepeatSum(' ', n, blank);
    RepeatSum('0', 0, 0);
    FivePieces(Repeat(' ', n), Repeat(' ', blank), sign, Repeat('0', n), d);
  }

  lemma FirstBlank(blank: nat, sign: string)
    requires |Repeat(' ', blank) + sign| <= 1 && (sign != "" ==> IsSign(sign[0]))
    ensures var printed := Repeat(' ', blank) + sign; printed == "" || (|printed| == 1 && IsSign(printed[0]))
  {
  }

  /** How IntText lays a number out. */
  lemma Layout(i: int, base: int, plus: bool, space: bool, width: nat, left: bool, zero: bool, rest: string)
      returns (lead: nat, sign: string, zeros: nat, tail: string)
    requires BaseOk(base) && FullTable(base)
    ensures SignOrNone(sign) && (sign == "-" <==> i < 0)
    ensures
      var natural := Natural(i, base, plus, space);
      tail == (if left && |natural| < width then Repeat(' ', width - |natural|) else "") + rest
    ensures
      var ds := Repeat('0', zeros) + Digits(if i < 0 then -i else i, base);
      Padded(Natural(i, base, plus, space), width, left, zero) + rest == Repeat(' ', lead) + (sign + (ds + tail))
  {
    hide Digits, Repeat, Padded;
    var v := if i < 0 then -i else i;
    DigitsValue(v, base);
    var printed, d := Sign(i, plus, space), Digits(v, base);
    var natural := Natural(i, base, plus, space);
    var n := if |natural| < width then width - |natural| else 0;
    sign := if printed == " " then "" else printed;
    var blank := if printed == " " then 1 else 0;
    SignPieces(i, plus, space);
    PaddedPieces(blank, sign, d, width, left, zero);
    lead := if left || zero then blank else n + blank;
    zeros := if zero && !left then n else 0;
    var trail := if left then Repeat(' ', n) else "";
    tail := trail + rest;
    Assembled(Repeat(' ', lead), sign, Repeat('0', zeros), d, trail, rest);
    RepeatSum(' ', 0, 0);
  }

  lemma SignPieces(i: int, plus: bool, space: bool)
    ensures
      var printed := Sign(i, plus, space);
      var blank, sign := if printed == " " then 1 else 0, if printed == " " then "" else printed;
      Repeat(' ', blank) + sign == printed && |printed| <= 1 && (sign != "" ==> IsSign(sign[0]))
  {
  }

  lemma FivePieces(a: string, b: string, c: string, z: string, d: string)
    ensures (b + c) + d + a == b + c + "" + d + a
    ensures (b + c) + z + d == b + c + z + d + ""
    ensures a + (b + c) + d == (a + b) + c + "" + d + ""
  {
  }

  /** %d: for every int, every combination of flags and every width, scanning
      what was printed gives the number back and stops right after it. */
  lemma PrintedIntScans(i: int, plus: bool, space: bool, width: int, left: bool, zero: bool, rest: string)
    requires -INT_LIMIT <= i < INT_LIMIT && Ends(rest, 10)
    ensures
      var text, natural, w := IntText(i, 10, plus, space, width, left, zero), Natural(i, 10, plus, space), ClampWidth(width);
      && |text| == (if |natural| < w then w else |natural|)
      && Scan(text + rest, 10, true, 0) == Matched(i, (if left && |natural| < w then Repeat(' ', w - |natural|) else "") + rest)
  {
    hide Digits, Padded, Scan, Assigned, Ends, Natural, Repeat;
    var w, natural := ClampWidth(width), Natural(i, 10, plus, space);
    var lead, sign, zeros, tail := Layout(i, 10, plus, space, w, left, zero, rest);
    if left && |natural| < w {
      EndsAfterBlanks(w - |natural|, rest, 10);
    } else {
      assert "" + rest == rest;
    }
    NumberScans(lead, sign, zeros, if i < 0 then -i else i, 10, tail, true);
    StoredBack(i);
  }

  /** %u, %x and %X: likewise for every unsigned int. */
  lemma PrintedUintScans(value: nat, base: int, width: int, left: bool, zero: bool, rest: string)
    requires value < UINT_LIMIT && (base == 10 || base == 16 || base == 17) && Ends(rest, Radix(base))
    ensures
      var text, natural, w := UintText(value, base, width, left, zero), Digits(value, base), ClampWidth(width);
      && |text| == (if |natural| < w then w else |natural|)
      && Scan(text + rest, if base == 10 then 10 else 16, false, 0) == Matched(value, (if left && |natural| < w then Repeat(' ', w - |natural|) else "") + rest)
  {
    hide Digits, Padded, Scan, Ends, Repeat;
    var w, natural := ClampWidth(width), Digits(value, base);
    assert Natural(value, base, false, false) == natural;
    var lead, sign, zeros, tail := Layout(value, base, false, false, w, left, zero, rest);
    if left && |natural| < w {
      EndsAfterBlanks(w - |natural|, rest, Radix(base));
    } else {
      assert "" + rest == rest;
    }
    NumberScans(lead, sign, zeros, value, base, tail, false);
  }
}
