/** Decimal integers as the source's `%d` prints them and its integer parser reads them. */
module Decimal {
  import opened Wire

  predicate IsDigit(c: char) {
    '0' <= c <= '9'
  }

  predicate AllDigits(s: string) {
    forall i :: 0 <= i < |s| ==> IsDigit(s[i])
  }

  function DigitValue(c: char): nat
    requires IsDigit(c)
  {
    c as int - '0' as int
  }

  function DigitChar(d: nat): (c: char)
    requires d < 10
    ensures IsDigit(c) && DigitValue(c) == d
  {
    "0123456789"[d]
  }

  function DigitsValue(s: string): nat
    requires AllDigits(s)
  {
    if s == "" then 0 else 10 * DigitsValue(s[..|s| - 1]) + DigitValue(s[|s| - 1])
  }

  /** `%d` of a non-negative integer. */
  function Print(n: nat): (s: string)
    ensures s != "" && AllDigits(s)
  {
    if n < 10 then [DigitChar(n)] else Print(n / 10) + [DigitChar(n % 10)]
  }

  /** `%d` of any integer. */
  function PrintSigned(n: int): string {
    if n < 0 then "-" + Print(-n) else Print(n)
  }

  predicate InInt64(n: int) {
    MIN_INT64 <= n <= MAX_INT64
  }

  function Unsigned(s: string): string {
    if s != "" && (s[0] == '+' || s[0] == '-') then s[1..] else s
  }

  /** The base-10, 64-bit integer parser: an optional sign, then one or more digits. */
  function ParseInt(s: string): Option<int> {
    var digits := Unsigned(s);
    if digits == "" || !AllDigits(digits) then None
    else
      var magnitude: int := DigitsValue(digits);
      var n: int := if s[0] == '-' then -magnitude else magnitude;
      if InInt64(n) then Some(n) else None
  }

  function Zeros(k: nat): (s: string)
    ensures |s| == k && forall i :: 0 <= i < k ==> s[i] == '0'
  {
    if k == 0 then "" else "0" + Zeros(k - 1)
  }

  function Magnitude(n: int): nat {
    if n < 0 then -n else n
  }

  predicate SignFits(sign: string, n: int) {
    || (sign == "" && n >= 0)
    || (sign == "+" && n >= 0)
    || (sign == "-" && n <= 0)
  }

  predicate SpelledWith(s: string, n: int, sign: string, zeros: nat) {
    SignFits(sign, n) && s == sign + (Zeros(zeros) + Print(Magnitude(n)))
  }

  /** Every way to write n: a fitting sign, leading zeros, then the printed magnitude. */
  ghost predicate Spells(s: string, n: int) {
    exists sign, zeros: nat :: SpelledWith(s, n, sign, zeros)
  }

  lemma {:induction false} PrintedValue(n: nat)
    ensures DigitsValue(Print(n)) == n
  {
    if n >= 10 {
      var s := Print(n);
      assert s[..|s| - 1] == Print(n / 10);
      PrintedValue(n / 10);
    } else {
      assert Print(n)[..0] == "";
    }
  }

  lemma {:induction false} LeadingZeros(k: nat, s: string)
    requires AllDigits(s)
    ensures AllDigits(Zeros(k) + s) && DigitsValue(Zeros(k) + s) == DigitsValue(s)
    decreases k + |s|
  {
    var padded := Zeros(k) + s;
    if s != "" {
      assert padded[..|padded| - 1] == Zeros(k) + s[..|s| - 1];
      LeadingZeros(k, s[..|s| - 1]);
    } else if k > 0 {
      assert padded[..|padded| - 1] == Zeros(k - 1) + s;
      LeadingZeros(k - 1, s);
    }
  }

  lemma PrintAppends(v: nat, d: nat)
    requires v > 0 && d < 10
    ensures Print(10 * v + d) == Print(v) + [DigitChar(d)]
  {
    assert (10 * v + d) / 10 == v && (10 * v + d) % 10 == d;
  }

  lemma Associates(a: string, b: string, c: string)
    ensures (a + b) + c == a + (b + c)
  {
  }

  lemma DigitIsItself(c: char)
    requires IsDigit(c)
    ensures [DigitChar(DigitValue(c))] == [c] == Print(DigitValue(c))
  {
  }

  /** Behind zeros and a printed value, one more digit makes ten times that value and the digit. */
  lemma PaddingAppends(k: nat, v: nat, c: char)
    requires IsDigit(c)
    ensures (Zeros(k) + Print(v)) + [c] == Zeros(if v == 0 then k + 1 else k) + Print(10 * v + DigitValue(c))
  {
    DigitIsItself(c);
    if v == 0 {
      assert Print(0) == "0" && Zeros(k) + "0" == Zeros(k + 1);
    } else {
      PrintAppends(v, DigitValue(c));
      Associates(Zeros(k), Print(v), [c]);
    }
  }

  /** A digit string is its value printed, behind some zeros. */
  lemma {:induction false} DigitsArePadding(s: string) returns (k: nat)
    requires s != "" && AllDigits(s)
    ensures s == Zeros(k) + Print(DigitsValue(s))
  {
    hide Print, DigitValue;
    var init, last := s[..|s| - 1], s[|s| - 1];
    assert s == init + [last];
    if init == "" {
      k := 0;
      DigitIsItself(last);
      assert DigitsValue(init) == 0;
    } else {
      k := DigitsArePadding(init);
      PaddingAppends(k, DigitsValue(init), last);
      k := if DigitsValue(init) == 0 then k + 1 else k;
    }
  }

  lemma ParsedSplits(s: string, n: int) returns (sign: string, digits: string)
    requires ParseInt(s) == Some(n)
    ensures SignFits(sign, n) && digits != "" && AllDigits(digits)
    ensures s == sign + digits && DigitsValue(digits) == Magnitude(n) && InInt64(n)
  {
    digits := Unsigned(s);
    sign := if digits == s then "" else [s[0]];
  }

  lemma SplitIsParsed(sign: string, digits: string, n: int)
    requires SignFits(sign, n) && digits != "" && AllDigits(digits)
    requires DigitsValue(digits) == Magnitude(n) && InInt64(n)
    ensures ParseInt(sign + digits) == Some(n)
  {
    assert IsDigit(digits[0]);
    assert Unsigned(sign + digits) == digits;
  }

  /** The parser accepts exactly the spellings of the 64-bit integers. */
  lemma ParseIntExact(s: string, n: int)
    ensures ParseInt(s) == Some(n) <==> InInt64(n) && Spells(s, n)
  {
    if ParseInt(s) == Some(n) {
      var sign, digits := ParsedSplits(s, n);
      var zeros := DigitsArePadding(digits);
      assert s == sign + (Zeros(zeros) + Print(Magnitude(n)));
      assert SpelledWith(s, n, sign, zeros);
    }
    if InInt64(n) && Spells(s, n) {
      var sign, zeros: nat :| SpelledWith(s, n, sign, zeros);
      var digits := Zeros(zeros) + Print(Magnitude(n));
      LeadingZeros(zeros, Print(Magnitude(n)));
      PrintedValue(Magnitude(n));
      SplitIsParsed(sign, digits, n);
      assert s == sign + digits;
    }
  }

  lemma PrintedSpells(n: int)
    ensures Spells(PrintSigned(n), n)
  {
    var sign, printed := if n < 0 then "-" else "", Print(Magnitude(n));
    assert Zeros(0) + printed == printed;
    assert sign + printed == PrintSigned(n);
    assert SpelledWith(PrintSigned(n), n, sign, 0);
  }

  /** A digit string counts in tens, its digits from 48 on in the character code. */
  lemma AppendedDigit(s: string, c: char)
    requires AllDigits(s) && 48 <= c as int <= 57
    ensures AllDigits(s + [c]) && DigitsValue(s + [c]) == 10 * DigitsValue(s) + (c as int - 48)
    ensures DigitsValue("") == 0
  {
    assert (s + [c])[..|s|] == s;
  }
}
