/** Numbers in text: what strtol and atoll read, and how a number is written. */
module Decimals {

  const INT64_MAX := 0x7fff_ffff_ffff_ffff

  // The value of a digit, 99 for any other character.
  function DigitValue(c: char): nat {
    if '0' <= c <= '9' then c as int - '0' as int
    else if 'a' <= c <= 'z' then c as int - 'a' as int + 10
    else if 'A' <= c <= 'Z' then c as int - 'A' as int + 10
    else 99
  }

  predicate IsDigit(c: char, base: nat) {
    DigitValue(c) < base
  }

  // The longest run of digits, onto what was read before, and the text after it.
  function TakeDigits(s: string, base: nat, acc: nat): (r: (nat, string))
    ensures |r.1| <= |s|
    ensures s != "" && IsDigit(s[0], base) ==> |r.1| < |s|
    decreases |s|
  {
    if s == "" || !IsDigit(s[0], base) then (acc, s)
    else TakeDigits(s[1..], base, acc * base + DigitValue(s[0]))
  }

  function Saturated(n: int): int {
    if n > INT64_MAX then INT64_MAX else if n < -INT64_MAX - 1 then -INT64_MAX - 1 else n
  }

  predicate IsSpace(c: char) { c in " \t\n\U{0B}\U{0C}\r" }

  function SkipSpaces(s: string): (r: string)
    ensures |r| <= |s|
    decreases |s|
  {
    if s != "" && IsSpace(s[0]) then SkipSpaces(s[1..]) else s
  }

  // The base that strtol chooses when asked for base 0, and where the digits begin.
  function ChooseBase(s: string): (r: (nat, string))
    ensures |r.1| <= |s|
  {
    if |s| > 2 && s[0] == '0' && (s[1] == 'x' || s[1] == 'X') && IsDigit(s[2], 16) then (16, s[2..])
    else if s != "" && s[0] == '0' then (8, s)
    else (10, s)
  }

  function Unsign(s: string): (r: (int, string))
    ensures |r.1| <= |s|
  {
    if s != "" && s[0] == '-' then (-1, s[1..])
    else if s != "" && s[0] == '+' then (1, s[1..])
    else (1, s)
  }

  // strtol(s, &end, 0): the value, and the text at `end`, which is s itself when nothing was read.
  function Strtol(s: string): (r: (int, string))
    ensures |r.1| <= |s|
  {
    var (sign, unsigned) := Unsign(SkipSpaces(s));
    var (base, digits) := ChooseBase(unsigned);
    var (n, rest) := TakeDigits(digits, base, 0);
    if rest == digits then (0, s) else (Saturated(sign * n), rest)
  }

  // atoll(s), and atol(s) on a 64-bit machine.
  function Atoll(s: string): int {
    var (sign, digits) := Unsign(SkipSpaces(s));
    Saturated(sign * TakeDigits(digits, 10, 0).0)
  }

  // ---------- Writing numbers ----------

  function DigitChar(d: nat): (c: char)
    requires d < 10
    ensures IsDigit(c, 10) && DigitValue(c) == d && (c == '0' <==> d == 0)
    ensures c != '.' && c != '-' && c != '+' && !IsSpace(c)
  {
    ('0' as int + d) as char
  }

  function Decimal(n: nat): (s: string)
    ensures s != ""
  {
    if n < 10 then [DigitChar(n)] else Decimal(n / 10) + [DigitChar(n % 10)]
  }

  ghost predicate AllDigits(s: string, base: nat) {
    forall i :: 0 <= i < |s| ==> IsDigit(s[i], base)
  }

  // What follows a number: not another digit.
  predicate Stops(rest: string, base: nat) {
    rest == "" || !IsDigit(rest[0], base)
  }

  lemma {:induction false} DecimalShape(n: nat)
    ensures AllDigits(Decimal(n), 10)
    ensures Decimal(n)[0] == '0' <==> n == 0
    ensures n == 0 ==> Decimal(n) == "0"
    ensures Decimal(n)[0] != '-' && Decimal(n)[0] != '+' && !IsSpace(Decimal(n)[0])
  {
    if n >= 10 {
      DecimalShape(n / 10);
    }
  }

  // Reading a run of digits one more at the end.
  lemma {:induction false} TakeDigitsSnoc(s: string, c: char, rest: string, base: nat, acc: nat)
    requires AllDigits(s, base) && IsDigit(c, base) && Stops(rest, base)
    ensures TakeDigits(s + [c] + rest, base, acc) == (TakeDigits(s, base, acc).0 * base + DigitValue(c), rest)
    decreases |s|
  {
    var all := s + [c] + rest;
    if s == "" {
      assert all[0] == c && all[1..] == rest;
    } else {
      assert all[0] == s[0] && all[1..] == s[1..] + [c] + rest;
      TakeDigitsSnoc(s[1..], c, rest, base, acc * base + DigitValue(s[0]));
    }
  }

  lemma {:induction false} DecimalReads(n: nat, rest: string)
    requires Stops(rest, 10)
    ensures TakeDigits(Decimal(n) + rest, 10, 0) == (n, rest)
  {
    if n < 10 {
      TakeDigitsSnoc("", DigitChar(n), rest, 10, 0);
      assert Decimal(n) + rest == "" + [DigitChar(n)] + rest;
    } else {
      DecimalShape(n / 10);
      DecimalReads(n / 10, "");
      assert Decimal(n / 10) + "" == Decimal(n / 10);
      TakeDigitsSnoc(Decimal(n / 10), DigitChar(n % 10), rest, 10, 0);
    }
  }

  // Every number that fits comes back; a larger one comes back as the largest that fits.
  lemma AtollDecimal(n: nat)
    ensures Atoll(Decimal(n)) == Saturated(n)
    ensures Atoll(Decimal(n)) == n <==> n <= INT64_MAX
  {
    DecimalShape(n);
    DecimalReads(n, "");
    assert Decimal(n) + "" == Decimal(n);
  }

  lemma StrtolDecimal(n: nat, rest: string)
    requires Stops(rest, 10) && (rest != "" ==> rest[0] != 'x' && rest[0] != 'X')
    ensures Strtol(Decimal(n) + rest) == (Saturated(n), rest)
  {
    DecimalShape(n);
    var s := Decimal(n) + rest;
    assert s[0] == Decimal(n)[0];
    assert SkipSpaces(s) == s && Unsign(s) == (1, s);
    if n == 0 {
      assert s == "0" + rest && s[1..] == rest;
      assert TakeDigits(s, 8, 0) == TakeDigits(rest, 8, 0) == (0, rest);
    } else {
      assert ChooseBase(s) == (10, s);
      DecimalReads(n, rest);
    }
  }

  // A digit stands for its place among 0 to 9, and a number is written with the last digit last.
  lemma DecimalByDigits(n: nat, d: nat)
    requires d < 10
    ensures Decimal(d) == ["0123456789"[d]]
    ensures n > 0 ==> Decimal(10 * n + d) == Decimal(n) + ["0123456789"[d]]
  {
    assert (10 * n + d) / 10 == n && (10 * n + d) % 10 == d;
  }

  // White space is the blank and the control characters from tab to carriage return.
  lemma SpacesAre(c: char)
    ensures IsSpace(c) <==> c == ' ' || 9 <= c as int <= 13
  {
    assert '\t' as int == 9 && '\n' as int == 10 && '\U{0B}' as int == 11 && '\U{0C}' as int == 12 && '\r' as int == 13;
  }

  predicate Blank(s: string) {
    forall i :: 0 <= i < |s| ==> IsSpace(s[i])
  }

  lemma {:induction false} SkipBlank(blank: string, s: string)
    requires Blank(blank) && (s != "" ==> !IsSpace(s[0]))
    ensures SkipSpaces(blank + s) == s
    decreases |blank|
  {
    if blank == "" {
      assert blank + s == s;
    } else {
      assert (blank + s)[0] == blank[0] && (blank + s)[1..] == blank[1..] + s;
      SkipBlank(blank[1..], s);
    }
  }

  // White space and a sign may stand in front of a number, and anything but a digit behind.
  lemma AtollSigned(blank: string, sign: string, n: nat, rest: string)
    requires Blank(blank) && sign in ["", "+", "-"] && Stops(rest, 10)
    ensures Atoll(blank + (sign + (Decimal(n) + rest))) == Saturated(if sign == "-" then -1 * n else n)
  {
    hide TakeDigits, Decimal, SkipSpaces, IsSpace, Saturated;
    DecimalShape(n);
    DecimalReads(n, rest);
    var s := Decimal(n) + rest;
    assert s[0] == Decimal(n)[0];
    var all := sign + s;
    if sign == "" {
      assert all == s;
    } else {
      assert all[0] == sign[0] && all[1..] == s;
      SpacesAre(all[0]);
    }
    SkipBlank(blank, all);
  }

  // So it is with strtol, as long as no x follows a zero.
  lemma StrtolSigned(blank: string, sign: string, n: nat, rest: string)
    requires Blank(blank) && sign in ["", "+", "-"] && Stops(rest, 10) && (rest != "" ==> rest[0] != 'x' && rest[0] != 'X')
    ensures Strtol(blank + (sign + (Decimal(n) + rest))) == (Saturated(if sign == "-" then -1 * n else n), rest)
  {
    hide TakeDigits, Decimal, SkipSpaces, IsSpace, Saturated, ChooseBase;
    DecimalShape(n);
    var s := Decimal(n) + rest;
    assert s[0] == Decimal(n)[0];
    DecimalChosen(n, rest);
    var all := sign + s;
    if sign == "" {
      assert all == s;
    } else {
      assert all[0] == sign[0] && all[1..] == s;
      SpacesAre(all[0]);
    }
    SkipBlank(blank, all);
  }

  lemma DecimalChosen(n: nat, rest: string)
    requires Stops(rest, 10) && (rest != "" ==> rest[0] != 'x' && rest[0] != 'X')
    ensures var (base, digits) := ChooseBase(Decimal(n) + rest);
            TakeDigits(digits, base, 0) == (n, rest) && rest != digits
  {
    DecimalShape(n);
    var s := Decimal(n) + rest;
    assert s[0] == Decimal(n)[0];
    if n == 0 {
      assert s == "0" + rest && s[1..] == rest;
      assert TakeDigits(s, 8, 0) == TakeDigits(rest, 8, 0) == (0, rest);
    } else {
      assert ChooseBase(s) == (10, s);
      DecimalReads(n, rest);
    }
    assert |s| > |rest|;
  }

  // Where no number begins nothing is read.
  lemma StrtolNone(s: string)
    requires s == "" || (s[0] != '+' && s[0] != '-' && !IsSpace(s[0]) && !('0' <= s[0] <= '9'))
    ensures Strtol(s) == (0, s)
  {}

  // What does not fit 64 bits becomes the nearest number that does.
  lemma SaturatedIsNearest(n: int)
    ensures -0x8000_0000_0000_0000 <= Saturated(n) <= 0x7fff_ffff_ffff_ffff
    ensures Saturated(n) == n <==> -0x8000_0000_0000_0000 <= n <= 0x7fff_ffff_ffff_ffff
    ensures n < 0 ==> n <= Saturated(n) < 0
    ensures n >= 0 ==> 0 <= Saturated(n) <= n
  {}

  // ---------- Leading zeros ----------

  // The number that the digits write in the base.
  ghost function ValueIn(digits: string, base: nat): nat
    decreases |digits|
  {
    if digits == "" then 0
    else ValueIn(digits[..|digits| - 1], base) * base + DigitValue(digits[|digits| - 1])
  }

  lemma {:induction false} TakeDigitsValue(digits: string, rest: string, base: nat)
    requires AllDigits(digits, base) && Stops(rest, base)
    ensures TakeDigits(digits + rest, base, 0) == (ValueIn(digits, base), rest)
    decreases |digits|
  {
    if digits == "" {
      assert digits + rest == rest;
    } else {
      var n := |digits| - 1;
      var front := digits[..n];
      assert digits == front + [digits[n]];
      TakeDigitsValue(front, "", base);
      assert front + "" == front;
      TakeDigitsSnoc(front, digits[n], rest, base, 0);
    }
  }

  // After a zero strtol reads in base 8, as far as the digits of that base go.
  lemma StrtolOctal(digits: string, rest: string)
    requires AllDigits(digits, 8) && Stops(rest, 8)
    requires digits == "" && rest != "" ==> rest[0] != 'x' && rest[0] != 'X'
    ensures Strtol("0" + digits + rest) == (Saturated(ValueIn(digits, 8)), rest)
  {
    var s := "0" + digits + rest;
    var after := digits + rest;
    assert s[0] == '0' && s[1..] == after;
    assert SkipSpaces(s) == s && Unsign(s) == (1, s);
    if |s| > 1 {
      assert s[1] == after[0];
      assert digits != "" ==> after[0] == digits[0];
      assert digits == "" ==> after == rest;
    }
    assert ChooseBase(s) == (8, s);
    TakeDigitsValue(digits, rest, 8);
    assert TakeDigits(s, 8, 0) == TakeDigits(after, 8, 0);
  }

  // After 0x or 0X it reads in base 16.
  lemma StrtolHex(x: char, digits: string, rest: string)
    requires x == 'x' || x == 'X'
    requires digits != "" && AllDigits(digits, 16) && Stops(rest, 16)
    ensures Strtol("0" + [x] + (digits + rest)) == (Saturated(ValueIn(digits, 16)), rest)
  {
    hide TakeDigits, Saturated;
    var after := digits + rest;
    var s := "0" + [x] + after;
    assert s[0] == '0' && s[1] == x && s[2] == after[0] == digits[0] && s[2..] == after;
    assert SkipSpaces(s) == s && Unsign(s) == (1, s);
    TakeDigitsValue(digits, rest, 16);
    assert |after| > |rest|;
  }

  lemma HexDigits(d: nat)
    requires d < 16
    ensures DigitValue("0123456789abcdef"[d]) == DigitValue("0123456789ABCDEF"[d]) == d
  {}

  // The same digits mean the same in base 8 as in base 10 only if they come to less than 8.
  lemma {:induction false} OctalIsDecimalExactly(digits: string)
    requires AllDigits(digits, 8)
    ensures ValueIn(digits, 8) <= ValueIn(digits, 10)
    ensures ValueIn(digits, 8) == ValueIn(digits, 10) <==> ValueIn(digits, 10) < 8
    decreases |digits|
  {
    if digits != "" {
      OctalIsDecimalExactly(digits[..|digits| - 1]);
    }
  }
}
