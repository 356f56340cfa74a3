/** The C number scanners behind Content-Length, chunk sizes and percent decoding. */
module Numbers {
  import opened Text

  /** One more than the largest unsigned 64-bit value. */
  const UINT64: nat := 0x1_0000_0000_0000_0000

  predicate IsSpace(c: char)
  {
    c == ' ' || '\t' <= c <= '\r'
  }

  /** Value of a hexadecimal digit; 16 marks a character that is not one. */
  function DigitValue(c: char): (d: nat)
    ensures d <= 16
    ensures d < 16 ==> DigitChar(d) == c || 'a' <= c <= 'f'
  {
    if '0' <= c <= '9' then c as int - '0' as int
    else if 'a' <= c <= 'f' then c as int - 'a' as int + 10
    else if 'A' <= c <= 'F' then c as int - 'A' as int + 10
    else 16
  }

  function DigitChar(d: nat): char
    requires d < 16
  {
    if d < 10 then ('0' as int + d) as char else ('A' as int + d - 10) as char
  }

  predicate AllDigits(s: string, base: nat)
  {
    forall k :: 0 <= k < |s| ==> DigitValue(s[k]) < base
  }

  /** Length of the longest leading run of digits. */
  function DigitRun(s: string, base: nat): (n: nat)
    ensures n <= |s| && AllDigits(s[..n], base)
    ensures n < |s| ==> DigitValue(s[n]) >= base
  {
    if s == "" || DigitValue(s[0]) >= base then 0 else
      var n := DigitRun(s[1..], base);
      assert s[..n + 1] == [s[0]] + s[1..][..n];
      n + 1
  }

  function ValueOf(digits: string, base: nat): nat
  {
    if digits == "" then 0
    else ValueOf(digits[..|digits| - 1], base) * base + DigitValue(digits[|digits| - 1])
  }

  function SkipSpaces(s: string): string
  {
    if s != "" && IsSpace(s[0]) then SkipSpaces(s[1..]) else s
  }

  datatype Scanned = NoDigits | Number(negative: bool, magnitude: nat)

  /** Leading blanks, an optional sign, an optional 0x in base 16, then as many digits as there are. */
  function Scan(s: string, base: nat): Scanned
  {
    var t := SkipSpaces(s);
    var unsigned := if t != "" && (t[0] == '-' || t[0] == '+') then t[1..] else t;
    var bare := if base == 16 && HasHexPrefix(unsigned) then unsigned[2..] else unsigned;
    var n := DigitRun(bare, base);
    if n == 0 then NoDigits else Number(t != "" && t[0] == '-', ValueOf(bare[..n], base))
  }

  predicate HasHexPrefix(s: string)
  {
    |s| >= 3 && s[0] == '0' && (s[1] == 'x' || s[1] == 'X') && DigitValue(s[2]) < 16
  }

  /** strtol: no digits read as zero. */
  function SignedValue(s: string, base: nat): int
  {
    match Scan(s, base)
    case NoDigits => 0
    case Number(negative, magnitude) => if negative then 0 - magnitude else magnitude
  }

  /** stoul and stoull; None stands for the exceptions invalid_argument and out_of_range. */
  function Unsigned(s: string, base: nat): (r: Option<nat>)
    ensures r.Some? ==> r.value < UINT64
  {
    match Scan(s, base)
    case NoDigits => None
    case Number(negative, magnitude) =>
      if magnitude >= UINT64 then None
      else if negative then Some((UINT64 - magnitude) % UINT64)
      else Some(magnitude)
  }

  lemma DigitRoundTrip(d: nat)
    requires d < 16
    ensures DigitValue(DigitChar(d)) == d
  {}

  lemma ValueOfSnoc(front: string, c: char, base: nat)
    ensures ValueOf(front + [c], base) == ValueOf(front, base) * base + DigitValue(c)
  {
    assert (front + [c])[..|front|] == front;
  }

  lemma Quotient(n: nat, base: nat)
    requires 2 <= base <= n
    ensures n / base < n && n / base * base + n % base == n
  {}

  /** How an output stream prints a number. */
  function Digits(n: nat, base: nat): string
    requires 2 <= base <= 16
    decreases n
  {
    if n < base then [DigitChar(n)]
    else
      Quotient(n, base);
      Digits(n / base, base) + [DigitChar(n % base)]
  }

  lemma {:induction false} DigitsReadBack(n: nat, base: nat)
    requires 2 <= base <= 16
    ensures Digits(n, base) != "" && AllDigits(Digits(n, base), base)
    ensures ValueOf(Digits(n, base), base) == n
    decreases n
  {
    DigitRoundTrip(n % base);
    if n < base {
      SingleDigit(n, base);
    } else {
      Quotient(n, base);
      var front, c := Digits(n / base, base), DigitChar(n % base);
      DigitsReadBack(n / base, base);
      ValueOfSnoc(front, c, base);
      assert Digits(n, base) == front + [c];
    }
  }

  lemma SingleDigit(n: nat, base: nat)
    requires n < base <= 16
    ensures AllDigits([DigitChar(n)], base) && ValueOf([DigitChar(n)], base) == n
  {
    DigitRoundTrip(n);
    ValueOfSnoc("", DigitChar(n), base);
    assert "" + [DigitChar(n)] == [DigitChar(n)];
  }

  /** A digit text is scanned exactly, whatever follows it, as long as that does not continue the number. */
  lemma RunOfDigits(text: string, tail: string, base: nat)
    requires AllDigits(text, base) && (tail != "" ==> DigitValue(tail[0]) >= base)
    ensures DigitRun(text + tail, base) == |text|
  {
    hide DigitValue;
    var s := text + tail;
    var n := DigitRun(s, base);
    assert forall k :: 0 <= k < |text| ==> s[k] == text[k];
    assert forall k :: 0 <= k < n ==> s[..n][k] == s[k] && DigitValue(s[k]) < base;
    assert tail != "" ==> s[|text|] == tail[0];
  }

  lemma ScanOfDigits(text: string, tail: string, base: nat)
    requires text != "" && AllDigits(text, base) && base <= 16
    requires tail != "" ==> DigitValue(tail[0]) >= base && tail[0] != 'x' && tail[0] != 'X'
    ensures Scan(text + tail, base) == Number(false, ValueOf(text, base))
  {
    var s := text + tail;
    assert DigitValue(s[0]) < 16;
    assert SkipSpaces(s) == s;
    assert forall k :: 0 <= k < |text| ==> s[k] == text[k];
    assert tail != "" ==> s[|text|] == tail[0];
    assert !HasHexPrefix(s);
    RunOfDigits(text, tail, base);
    assert s[..|text|] == text;
    hide DigitValue, AllDigits, DigitRun, SkipSpaces, HasHexPrefix, ValueOf;
  }

  lemma ScanOfNegative(text: string, base: nat)
    requires text != "" && AllDigits(text, base) && base <= 16
    ensures Scan("-" + text, base) == Number(true, ValueOf(text, base))
  {
    var s := "-" + text;
    assert s[0] == '-' && s[1..] == text && SkipSpaces(s) == s;
    assert !HasHexPrefix(text) by {
      assert |text| >= 2 ==> DigitValue(text[1]) < base;
    }
    RunOfDigits(text, "", base);
    assert text + "" == text && text[..|text|] == text;
    hide DigitValue, AllDigits, DigitRun, SkipSpaces, HasHexPrefix, ValueOf;
  }

  lemma UnsignedOfDigits(text: string, tail: string, base: nat)
    requires text != "" && AllDigits(text, base) && base <= 16 && ValueOf(text, base) < UINT64
    requires tail != "" ==> DigitValue(tail[0]) >= base && tail[0] != 'x' && tail[0] != 'X'
    ensures Unsigned(text + tail, base) == Some(ValueOf(text, base))
  {
    ScanOfDigits(text, tail, base);
  }
}
