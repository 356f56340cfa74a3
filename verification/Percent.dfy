/** Percent coding of query values, and the exact set of strings it carries faithfully. */
module Percent {
  import opened Text
  import opened Numbers

  /** The characters `encode` writes as %XX; note that '%' itself and '"' are not among them. */
  predicate Reserved(c: char)
  {
    || c == '!' || c == '#' || c == '$' || '&' <= c <= ',' || '/' <= c <= ';'
    || c == '=' || c == '?' || c == '@' || c == '[' || c == ']'
  }

  function EncodedChar(c: char): string
  {
    if c == ' ' then "+"
    else if Reserved(c) then ['%', DigitChar(c as int / 16), DigitChar(c as int % 16)]
    else [c]
  }

  function Encoded(s: string): string
  {
    FlatMap(EncodedChar, s)
  }

  /** The character two following characters decode to: strtol in base 16, cut to one byte. */
  function DecodedPair(pair: string): char
  {
    (SignedValue(pair, 16) % 256) as char
  }

  function Decoded(s: string): string
  {
    if s == "" then ""
    else if s[0] == '%' && |s| >= 3 then [DecodedPair(s[1..3])] + Decoded(s[3..])
    else [if s[0] == '+' then ' ' else s[0]] + Decoded(s[1..])
  }

  method Encode(value: string) returns (result: string)
    ensures result == Encoded(value)
  {
    result := "";
    for i := 0 to |value|
      invariant result == Encoded(value[..i])
    {
      var chr := value[i];
      FlatMapNext(EncodedChar, value, i);
      if chr == ' ' {
        result := result + "+";
      } else if Reserved(chr) {
        result := result + ("%" + [DigitChar(chr as int / 16)] + [DigitChar(chr as int % 16)]);
      } else {
        result := result + [chr];
      }
    }
    assert value[..|value|] == value;
  }

  method Decode(value: string) returns (result: string)
    ensures result == Decoded(value)
  {
    result := "";
    var i := 0;
    while i < |value|
      invariant 0 <= i <= |value|
      invariant result + Decoded(value[i..]) == Decoded(value)
    {
      DecodedStep(value, i);
      hide Decoded, DecodedPair;
      var chr := value[i];
      ghost var before, start := result, i;
      if chr == '%' && i + 2 < |value| {
        var hex := Substr(value, i + 1, 2);
        result := result + [DecodedPair(hex)];
        i := i + 2;
      } else if chr == '+' {
        result := result + " ";
      } else {
        result := result + [chr];
      }
      i := i + 1;
      Associative(before, [result[|before|]], Decoded(value[i..]));
      assert result == before + [result[|before|]];
    }
  }

  /** One turn of the decoding loop. */
  lemma DecodedStep(value: string, i: nat)
    requires i < |value|
    ensures Decoded(value[i..]) ==
            if value[i] == '%' && i + 2 < |value| then [DecodedPair(Substr(value, i + 1, 2))] + Decoded(value[i + 3..])
            else [if value[i] == '+' then ' ' else value[i]] + Decoded(value[i + 1..])
  {
    hide DecodedPair;
    assert value[i..][1..] == value[i + 1..];
    if i + 2 < |value| {
      assert value[i..][1..3] == Substr(value, i + 1, 2) && value[i..][3..] == value[i + 3..];
    }
  }

  /** A query value cannot disturb the '&' and '=' structure around it. */
  lemma {:induction false} EncodedHasNoSeparators(s: string)
    ensures '&' !in Encoded(s) && '=' !in Encoded(s)
  {
    if s != "" {
      EncodedHasNoSeparators(s[1..]);
      EncodedCharHasNoSeparators(s[0]);
    }
  }

  lemma EncodedCharHasNoSeparators(c: char)
    ensures '&' !in EncodedChar(c) && '=' !in EncodedChar(c)
  {}

  lemma OneDigitValue(b: char)
    ensures DigitRun([b], 16) == if DigitValue(b) < 16 then 1 else 0
    ensures ValueOf([b], 16) == DigitValue(b)
  {
    ValueOfSnoc("", b, 16);
    assert "" + [b] == [b];
  }

  /** What strtol makes of one blank or sign and one more character: at most one digit. */
  lemma PaddedValue(a: char, b: char)
    requires IsSpace(a) || a == '-' || a == '+'
    ensures SignedValue([a, b], 16) ==
            if DigitValue(b) == 16 then 0 else if a == '-' then 0 - DigitValue(b) else DigitValue(b)
  {
    var pair := [a, b];
    assert pair[1..] == [b] && [b][1..] == "" && [b][..1] == [b];
    OneDigitValue(b);
    assert DigitRun("", 16) == 0;
    if IsSpace(a) {
      assert SkipSpaces("") == "";
      assert SkipSpaces([b]) == if IsSpace(b) then "" else [b];
      assert SkipSpaces(pair) == SkipSpaces([b]);
    }
  }

  lemma BareValue(a: char, b: char)
    requires !IsSpace(a) && a != '-' && a != '+'
    ensures SignedValue([a, b], 16) ==
            if DigitValue(a) == 16 then 0
            else if DigitValue(b) == 16 then DigitValue(a)
            else DigitValue(a) * 16 + DigitValue(b)
  {
    OneDigitValue(a);
    OneDigitValue(b);
    ValueOfSnoc([a], b, 16);
    assert [a] + [b] == [a, b] && [a, b] + "" == [a, b];
    if DigitValue(b) < 16 && DigitValue(a) < 16 {
      ScanOfDigits([a, b], "", 16);
    } else if DigitValue(a) < 16 {
      if b == 'x' || b == 'X' {
        assert [a, b][1..] == [b] && [a, b][..1] == [a];
        assert DigitRun([a, b], 16) == 1;
      } else {
        ScanOfDigits([a], [b], 16);
      }
    } else {
      assert DigitRun([a, b], 16) == 0;
    }
  }

  /** Two hexadecimal digits are read back as the character they were made from. */
  lemma HexPair(c: char)
    requires Reserved(c)
    ensures DecodedPair([DigitChar(c as int / 16), DigitChar(c as int % 16)]) == c
  {
    hide SignedValue;
    DigitRoundTrip(c as int / 16);
    DigitRoundTrip(c as int % 16);
    BareValue(DigitChar(c as int / 16), DigitChar(c as int % 16));
  }

  lemma EncodedCharUndone(c: char, rest: string)
    requires c != '%'
    ensures Decoded(EncodedChar(c) + rest) == [c] + Decoded(rest)
  {
    var s := EncodedChar(c) + rest;
    if c == ' ' || !Reserved(c) {
      assert s[1..] == rest;
    } else {
      assert s[1..3] == [DigitChar(c as int / 16), DigitChar(c as int % 16)] && s[3..] == rest;
      HexPair(c);
    }
  }

  lemma {:induction false} PlainPrefixUndone(s: string, rest: string)
    requires '%' !in s
    ensures Decoded(Encoded(s) + rest) == s + Decoded(rest)
  {
    hide Decoded, EncodedChar;
    if s != "" {
      PlainPrefixUndone(s[1..], rest);
      Associative(EncodedChar(s[0]), Encoded(s[1..]), rest);
      EncodedCharUndone(s[0], Encoded(s[1..]) + rest);
      Associative([s[0]], s[1..], Decoded(rest));
    } else {
      assert Encoded(s) + rest == rest && s + Decoded(rest) == Decoded(rest);
    }
  }

  /** No digit is ever written raw, so what follows a raw '%' never spells "25". */
  lemma PairIsNotPercent(a: char, b: char)
    requires !('0' <= a <= '9') && (a == '%' || !('0' <= b <= '9'))
    ensures DecodedPair([a, b]) != '%'
  {
    hide SignedValue;
    if IsSpace(a) || a == '-' || a == '+' {
      PaddedValue(a, b);
    } else {
      BareValue(a, b);
    }
  }

  /** The two characters the encoder leaves after a raw '%'. */
  lemma EncodedStart(u: string)
    requires |Encoded(u)| >= 2
    ensures var e := Encoded(u); !('0' <= e[0] <= '9') && (e[0] == '%' || !('0' <= e[1] <= '9'))
  {
    assert Encoded(u) == EncodedChar(u[0]) + Encoded(u[1..]);
    EncodedCharStart(u[0]);
    if |EncodedChar(u[0])| == 1 && u[1..] != "" {
      EncodedCharStart(u[1]);
      assert Encoded(u[1..]) == EncodedChar(u[1]) + Encoded(u[1..][1..]);
    }
  }

  lemma EncodedCharStart(c: char)
    ensures 1 <= |EncodedChar(c)| <= 3 && !('0' <= EncodedChar(c)[0] <= '9')
    ensures |EncodedChar(c)| > 1 ==> EncodedChar(c)[0] == '%'
  {}

  /** Where the first '%' of `s` is and what becomes of it. */
  predicate RoundTrips(s: string)
  {
    var p := IndexOf(s, '%');
    p == |s| || |Encoded(s[p..])| < 3
  }

  /** In terms of the value alone: nothing follows its first '%', or one character that is written raw or as '+'. */
  lemma RoundTripsIff(s: string)
    ensures var p := IndexOf(s, '%');
            RoundTrips(s) <==> |s| - p <= 1 || (|s| - p == 2 && !Reserved(s[p + 1]))
  {
    var u := s[IndexOf(s, '%')..];
    if |u| >= 1 {
      EncodedPercentFirst(u);
    }
    if |u| >= 2 {
      EncodedCharStart(u[1]);
      assert Encoded(u[1..]) == EncodedChar(u[1]) + Encoded(u[1..][1..]);
    }
    if |u| >= 3 {
      EncodedCharStart(u[2]);
      assert Encoded(u[1..][1..]) == EncodedChar(u[2]) + Encoded(u[1..][1..][1..]);
    }
  }

  lemma EncodedPercentFirst(u: string)
    requires u != "" && u[0] == '%'
    ensures Encoded(u) == "%" + Encoded(u[1..])
  {
    assert EncodedChar('%') == "%";
  }

  lemma EncodedAtPercent(s: string, p: nat)
    requires p == IndexOf(s, '%') < |s|
    ensures Encoded(s[p..]) == "%" + Encoded(s[p + 1..])
    ensures Decoded(Encoded(s)) == s[..p] + Decoded(Encoded(s[p..]))
  {
    hide Decoded, EncodedChar;
    var t, u := s[..p], s[p..];
    assert s == t + u && u[1..] == s[p + 1..];
    EncodedPercentFirst(u);
    calc {
      Decoded(Encoded(s));
      { FlatMapConcat(EncodedChar, t, u); }
      Decoded(Encoded(t) + Encoded(u));
      { PlainPrefixUndone(t, Encoded(u)); }
      t + Decoded(Encoded(u));
    }
  }

  /** A value that does not survive changes exactly at its first '%'. */
  lemma LossIsAtFirstPercent(s: string)
    requires !RoundTrips(s)
    ensures var p := IndexOf(s, '%'); var t := Decoded(Encoded(s));
            p < |s| && p < |t| && t[..p] == s[..p] && t[p] != '%'
  {
    var p := IndexOf(s, '%');
    EncodedAtPercent(s, p);
    var e := Encoded(s[p + 1..]);
    EncodedStart(s[p + 1..]);
    assert Encoded(s[p..])[1..3] == [e[0], e[1]];
    PairIsNotPercent(e[0], e[1]);
  }

  /** For instance "%ab", which comes back as the single character 171. */
  lemma PercentLost()
    ensures Encoded("%ab") == "%ab" && Decoded("%ab") == [171 as char]
    ensures !RoundTrips("%ab")
  {
    hide EncodedChar, Decoded;
    PercentKept();
    PercentTaken();
    IndexOfUnique("%ab", '%', 0);
    assert "%ab"[0..] == "%ab";
  }

  lemma PercentKept()
    ensures Encoded("%ab") == "%ab"
  {
    var s := "%ab";
    assert EncodedChar('%') == "%" && EncodedChar('a') == "a" && EncodedChar('b') == "b";
    hide EncodedChar;
    FlatMapNext(EncodedChar, s, 0);
    FlatMapNext(EncodedChar, s, 1);
    FlatMapNext(EncodedChar, s, 2);
    assert s[..0] == "" && s[..3] == s;
    hide FlatMap;
    assert "" + "%" + "a" + "b" == s;
  }

  lemma PercentTaken()
    ensures Decoded("%ab") == [171 as char]
  {
    var s := "%ab";
    assert s[1..3] == ['a', 'b'] && s[3..] == "";
    BareValue('a', 'b');
    hide SignedValue;
    assert DecodedPair(['a', 'b']) == 171 as char;
    hide DecodedPair;
    assert Decoded("") == "";
  }

  /** The exact round-trip set: no '%', or too little text after the first one for it to be decoded. */
  lemma RoundTripIff(s: string)
    ensures Decoded(Encoded(s)) == s <==> RoundTrips(s)
  {
    hide EncodedChar, DecodedPair;
    var p := IndexOf(s, '%');
    if p == |s| {
      PlainPrefixUndone(s, "");
      assert Encoded(s) + "" == Encoded(s) && s + Decoded("") == s;
    } else if RoundTrips(s) {
      EncodedAtPercent(s, p);
      ShortSuffixUndone(s[p..]);
      assert s == s[..p] + s[p..];
    } else {
      LossIsAtFirstPercent(s);
    }
  }

  lemma ShortSuffixUndone(s: string)
    requires s != "" && s[0] == '%' && |Encoded(s)| < 3
    ensures Decoded(Encoded(s)) == s
  {
    var u := s[1..];
    EncodedPercentFirst(s);
    assert s == "%" + u;
    if u == "" {
      assert Encoded(s) == "%";
    } else {
      EncodedCharStart(u[0]);
      assert Encoded(u) == EncodedChar(u[0]) + Encoded(u[1..]);
      assert u[1..] == "" by {
        assert u[1..] != "" ==> Encoded(u[1..]) == EncodedChar(u[1]) + Encoded(u[1..][1..]);
        if u[1..] != "" {
          EncodedCharStart(u[1]);
        }
      }
      assert u == [u[0]] && Encoded(u) == EncodedChar(u[0]);
      var c := EncodedChar(u[0])[0];
      assert Encoded(s) == ['%', c] && Encoded(s)[1..] == EncodedChar(u[0]) == [c];
      assert Decoded([c]) == u by {
        if u[0] == '%' {
          assert [c][1..] == "";
        } else {
          EncodedCharUndone(u[0], "");
          assert [c] + "" == [c];
        }
      }
    }
  }
}
