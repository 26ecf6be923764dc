/** Positional numerals as text: what printing a number means and what reading one means. */
module Numerals {
  import opened Bits
  import opened Results
  import opened Sequences

  predicate ValidBase(base: int) {
    2 <= base <= 36
  }

  function DigitChar(d: nat, upper: bool): char
    requires d < 36
  {
    if d < 10 then '0' + d as char
    else (if upper then 'A' else 'a') + (d - 10) as char
  }

  /** The digit a character stands for; 36 when it is not a digit. */
  function DigitOf(c: char): (d: nat)
    ensures d <= 36
  {
    if '0' <= c <= '9' then c as int - '0' as int
    else if 'a' <= c <= 'z' then c as int - 'a' as int + 10
    else if 'A' <= c <= 'Z' then c as int - 'A' as int + 10
    else 36
  }

  predicate AllDigits(s: string, base: nat) {
    forall i :: 0 <= i < |s| ==> DigitOf(s[i]) < base
  }

  /** Digits of `v`, most significant first; zero has none. */
  function Digits(v: nat, base: nat, upper: bool): string
    requires ValidBase(base)
  {
    if v == 0 then "" else Digits(v / base, base, upper) + [DigitChar(v % base, upper)]
  }

  /** Digits still to come out of `v`, then those already out, least significant first. */
  ghost predicate Emitted(whole: string, v: nat, base: nat, upper: bool, out: string)
    requires ValidBase(base)
  {
    whole == Digits(v, base, upper) + Reversed(out)
  }

  /** Taking one digit off `v` and appending it to the output keeps the whole numeral. */
  lemma EmitDigit(whole: string, v: nat, base: nat, upper: bool, out: string)
    requires ValidBase(base) && v > 0 && Emitted(whole, v, base, upper, out)
    ensures v / base >= 0 && v % base < 36
    ensures Emitted(whole, v / base, base, upper, out + [DigitChar(v % base, upper)])
  {
    DivBound(v, base);
    ReversedSnoc(out, DigitChar(v % base, upper));
  }

  /** The number a string of digits denotes. */
  function ParseDigits(s: string, base: nat): nat
    requires AllDigits(s, base)
  {
    if s == "" then 0
    else ParseDigits(s[..|s| - 1], base) * base + DigitOf(s[|s| - 1])
  }

  lemma ParseSnoc(s: string, c: char, base: nat)
    requires AllDigits(s, base) && DigitOf(c) < base
    ensures AllDigits(s + [c], base)
    ensures ParseDigits(s + [c], base) == ParseDigits(s, base) * base + DigitOf(c)
  {
    assert (s + [c])[..|s|] == s;
  }

  lemma DigitCharReads(d: nat, upper: bool)
    requires d < 36
    ensures DigitOf(DigitChar(d, upper)) == d
  {
  }

  /** Reading the digits of a number gives the number back. */
  lemma {:induction false} DigitsParse(v: nat, base: nat, upper: bool)
    requires ValidBase(base)
    ensures AllDigits(Digits(v, base, upper), base)
    ensures ParseDigits(Digits(v, base, upper), base) == v
  {
    if v > 0 {
      var q, d := v / base, v % base;
      DivDecreases(v, base);
      DigitsParse(q, base, upper);
      var front := Digits(q, base, upper);
      assert Digits(v, base, upper) == front + [DigitChar(d, upper)];
      DigitCharReads(d, upper);
      ParseSnoc(front, DigitChar(d, upper), base);
      DivModIdentity(v, base);
    }
  }

  lemma SmallDiv(v: nat, base: nat)
    requires v < base
    ensures v / base == 0 && v % base == v
  {
  }

  lemma DivAtLeastOne(v: nat, base: nat)
    requires 0 < base <= v
    ensures v / base > 0
  {
    DivModIdentity(v, base);
  }

  /** Printed digits never start with a zero. */
  lemma {:induction false} NoLeadingZero(v: nat, base: nat, upper: bool)
    requires ValidBase(base) && v > 0
    ensures Digits(v, base, upper) != "" && Digits(v, base, upper)[0] != '0'
  {
    if v < base {
      SmallDiv(v, base);
      DigitCharReads(v, upper);
    } else {
      DivAtLeastOne(v, base);
      DivDecreases(v, base);
      NoLeadingZero(v / base, base, upper);
    }
  }

  /** Digits in the letter case that printing uses. */
  predicate Cased(s: string, upper: bool) {
    forall i :: 0 <= i < |s| && DigitOf(s[i]) < 36 ==> s[i] == DigitChar(DigitOf(s[i]), upper)
  }

  lemma {:induction false} NoLeadingZeroPositive(s: string, base: nat)
    requires AllDigits(s, base) && s != "" && s[0] != '0'
    ensures ParseDigits(s, base) > 0
  {
    var front := s[..|s| - 1];
    if |s| == 1 {
      assert front == "";
    } else {
      NoLeadingZeroPositive(front, base);
      MulMono(1, ParseDigits(front, base), base);
    }
  }

  lemma DigitsSnoc(q: nat, d: nat, base: nat, upper: bool)
    requires ValidBase(base) && d < base && q * base + d > 0
    ensures Digits(q * base + d, base, upper) == Digits(q, base, upper) + [DigitChar(d, upper)]
  {
    var v := q * base + d;
    DivModUnique(v, q, d, base);
  }

  /** A numeral without leading zero is the printed form of the number it denotes: the form is canonical. */
  lemma {:induction false} CanonicalNumeral(s: string, base: nat, upper: bool)
    requires ValidBase(base) && AllDigits(s, base) && Cased(s, upper)
    requires s != "" ==> s[0] != '0'
    ensures s == Digits(ParseDigits(s, base), base, upper)
  {
    if s != "" {
      var n := |s| - 1;
      var front, d := s[..n], DigitOf(s[n]);
      CanonicalNumeral(front, base, upper);
      NoLeadingZeroPositive(s, base);
      var q := ParseDigits(front, base);
      assert s[n] == DigitChar(d, upper) && s == front + [s[n]];
      assert ParseDigits(s, base) == q * base + d;
      DigitsSnoc(q, d, base, upper);
    }
  }

  /** The prefix that announces a base. */
  function Introducer(base: int, upper: bool): string {
    match base
    case 2 => if upper then "0B" else "0b"
    case 8 => "0"
    case 16 => if upper then "0X" else "0x"
    case _ => ""
  }

  /** The printed form of a number: zero is always the bare digit. */
  function Text(v: nat, base: int, introducer: bool, upper: bool): string
    requires ValidBase(base)
  {
    if v == 0 then "0"
    else (if introducer then Introducer(base, upper) else "") + Digits(v, base, upper)
  }

  /** The digits, in the order of what they stand for. */
  const UPPER: string := "0123456789ABCDEFGHIJKLMNOPQRSTUVWXYZ"
  const LOWER: string := "0123456789abcdefghijklmnopqrstuvwxyz"

  /** A digit is printed as the character of its place, in the letter case asked for. */
  lemma DigitPrinted(d: nat, upper: bool)
    requires d < 36
    ensures |UPPER| == |LOWER| == 36
    ensures DigitChar(d, upper) == if upper then UPPER[d] else LOWER[d]
  {
  }

  /** Every character of either case is read as its place, and no other character is a digit. */
  lemma DigitMeaning(c: char, d: nat)
    requires d < 36
    ensures |UPPER| == |LOWER| == 36
    ensures DigitOf(c) == d <==> c == UPPER[d] || c == LOWER[d]
    ensures DigitOf(c) <= 36
  {
    DigitPrinted(d, true);
    DigitPrinted(d, false);
    DigitCharReads(d, true);
    DigitCharReads(d, false);
    hide UPPER, LOWER;
  }

  /**
   * What the text of a number is: the introducer asked for and then, without a leading zero, digits of the
   * base in the letter case asked for, whose positional value is the number; the bare digit for zero.
   */
  ghost predicate IsNumeral(t: string, v: nat, base: int, introducer: bool, upper: bool) {
    if v == 0 then t == "0"
    else
      var p :=
        if !introducer then ""
        else if base == 2 then (if upper then "0B" else "0b")
        else if base == 8 then "0"
        else if base == 16 then (if upper then "0X" else "0x")
        else "";
      && 2 <= base <= 36 && |p| < |t| && t[..|p|] == p && t[|p|] != '0'
      && AllDigits(t[|p|..], base) && ParseDigits(t[|p|..], base) == v && InCase(t[|p|..], upper)
  }

  /** Printing gives the text of the number in every base, with or without introducer, in either case. */
  lemma TextIsNumeral(v: nat, base: int, introducer: bool, upper: bool)
    requires ValidBase(base)
    ensures IsNumeral(Text(v, base, introducer, upper), v, base, introducer, upper)
  {
    hide Digits, ParseDigits, DigitOf;
    if v > 0 {
      var p, d := if introducer then Introducer(base, upper) else "", Digits(v, base, upper);
      var t := Text(v, base, introducer, upper);
      NoLeadingZero(v, base, upper);
      DigitsParse(v, base, upper);
      DigitsCased(v, base, upper);
      IntroducedText(t, p, d);
    }
  }

  lemma ZeroNumeral(base: int, introducer: bool, upper: bool)
    ensures IsNumeral("0", 0, base, introducer, upper)
  {
  }

  /** No letter of the other case. */
  ghost predicate InCase(d: string, upper: bool) {
    forall i :: 0 <= i < |d| ==> if upper then !('a' <= d[i] <= 'z') else !('A' <= d[i] <= 'Z')
  }

  lemma IntroducedText(t: string, p: string, d: string)
    requires t == p + d && d != ""
    ensures |p| < |t| && t[..|p|] == p && t[|p|..] == d && t[|p|] == d[0]
  {
  }

  lemma {:induction false} DigitsCased(v: nat, base: int, upper: bool)
    requires ValidBase(base)
    ensures InCase(Digits(v, base, upper), upper)
  {
    if v > 0 {
      DivDecreases(v, base);
      DigitsCased(v / base, base, upper);
      DigitInCase(v % base, upper);
    }
  }

  lemma DigitInCase(d: nat, upper: bool)
    requires d < 36
    ensures InCase([DigitChar(d, upper)], upper)
  {
  }

  /** The texts `from_string` reads, and nothing else, with their numbers. */
  lemma DenotedGrammar(s: string)
    ensures Denoted("") == Some(0)
    ensures s != "" && AllDigits(s, 2) ==> Denoted("0b" + s) == Denoted("0B" + s) == Some(ParseDigits(s, 2))
    ensures s != "" && AllDigits(s, 16) ==> Denoted("0x" + s) == Denoted("0X" + s) == Some(ParseDigits(s, 16))
    ensures AllDigits(s, 10) && s != "" ==> Denoted(s) == Some(ParseDigits(s, 10))
    ensures Denoted(s).Some? ==>
              || s == "" || AllDigits(s, 10)
              || (|s| > 2 && s[..2] in {"0b", "0B"} && AllDigits(s[2..], 2))
              || (|s| > 2 && s[..2] in {"0x", "0X"} && AllDigits(s[2..], 16))
  {
    if s != "" {
      PrefixedText("0b", s);
      PrefixedText("0B", s);
      PrefixedText("0x", s);
      PrefixedText("0X", s);
      DecimalText(s);
    }
    OnlyNumerals(s);
    hide *;
  }

  lemma DecimalText(s: string)
    requires s != ""
    ensures AllDigits(s, 10) ==> Denoted(s) == Some(ParseDigits(s, 10))
  {
    hide ParseDigits;
    assert |s| >= 2 && AllDigits(s, 10) ==> DigitOf(s[1]) < 10;
  }

  lemma OnlyNumerals(s: string)
    ensures Denoted(s).Some? ==>
              || s == "" || AllDigits(s, 10)
              || (|s| > 2 && s[..2] in {"0b", "0B"} && AllDigits(s[2..], 2))
              || (|s| > 2 && s[..2] in {"0x", "0X"} && AllDigits(s[2..], 16))
  {
    hide ParseDigits, AllDigits;
    if HasPrefix(s, 'b', 'B') || HasPrefix(s, 'x', 'X') {
      assert s[..2] == [s[0], s[1]];
    }
  }

  lemma PrefixedText(p: string, s: string)
    requires p in {"0b", "0B", "0x", "0X"} && s != ""
    ensures Denoted(p + s) == InBase(s, if p[1] in {'b', 'B'} then 2 else 16)
  {
    hide InBase;
    assert (p + s)[2..] == s && (p + s)[0] == '0' && (p + s)[1] == p[1];
  }

  /** The number a text denotes to the reader, however large: the base comes from the prefix. */
  function Denoted(s: string): Option<nat> {
    if s == "" then Some(0)
    else if HasPrefix(s, 'b', 'B') then InBase(s[2..], 2)
    else if HasPrefix(s, 'o', 'O') then None
    else if HasPrefix(s, 'x', 'X') then InBase(s[2..], 16)
    else InBase(s, 10)
  }

  function InBase(s: string, base: nat): Option<nat> {
    if AllDigits(s, base) then Some(ParseDigits(s, base)) else None
  }

  predicate HasPrefix(s: string, lower: char, upper: char) {
    |s| >= 3 && s[0] == '0' && (s[1] == lower || s[1] == upper)
  }

  /** Printing then reading in a base whose prefix the reader knows is the identity, whatever the size. */
  lemma TextParses(v: nat, base: int, introducer: bool, upper: bool)
    requires base == 10 || (introducer && (base == 2 || base == 16))
    ensures Denoted(Text(v, base, introducer, upper)) == Some(v)
  {
    if v == 0 {
      ZeroParses();
    } else {
      DigitsParse(v, base, upper);
      if base == 10 {
        PlainDigits(v, base, introducer, upper);
      } else {
        PrefixedDigits(v, base, upper);
      }
    }
  }

  lemma ZeroParses()
    ensures Denoted("0") == Some(0)
  {
    ParseSnoc("", '0', 10);
    assert "" + ['0'] == "0";
  }

  lemma PlainDigits(v: nat, base: int, introducer: bool, upper: bool)
    requires v > 0 && base == 10
    ensures Denoted(Text(v, base, introducer, upper)) == InBase(Digits(v, 10, upper), 10)
  {
    NoLeadingZero(v, 10, upper);
    assert Text(v, base, introducer, upper) == Digits(v, 10, upper);
  }

  lemma PrefixedDigits(v: nat, base: int, upper: bool)
    requires v > 0 && (base == 2 || base == 16)
    ensures Denoted(Text(v, base, true, upper)) == InBase(Digits(v, base, upper), base)
  {
    PrefixRecognized(Introducer(base, upper), Digits(v, base, upper), base, upper);
    NoLeadingZero(v, base, upper);
  }

  lemma PrefixRecognized(intro: string, digits: string, base: int, upper: bool)
    requires (base == 2 || base == 16) && intro == Introducer(base, upper)
    ensures digits != "" ==> Denoted(intro + digits) == InBase(digits, base)
  {
    hide InBase;
    var t := intro + digits;
    assert t[2..] == digits;
    assert t[0] == '0' && t[1] == intro[1];
  }

  /** Octal output announces itself with a bare zero, so the reader takes its digits for decimal ones. */
  lemma OctalReadsAsDecimal(v: nat, upper: bool)
    requires v > 0
    ensures AllDigits(Digits(v, 8, upper), 10)
    ensures Denoted(Text(v, 8, true, upper)) == Some(ParseDigits(Digits(v, 8, upper), 10))
  {
    var d := Digits(v, 8, upper);
    DigitsParse(v, 8, upper);
    NoLeadingZero(v, 8, upper);
    assert Text(v, 8, true, upper) == ['0'] + d;
    BareZeroIgnored(d);
  }

  lemma BareZeroIgnored(d: string)
    requires d != "" && AllDigits(d, 8)
    ensures AllDigits(d, 10)
    ensures Denoted(['0'] + d) == Some(ParseDigits(d, 10))
  {
    hide ParseDigits;
    var t := ['0'] + d;
    assert t[1] == d[0] && DigitOf(d[0]) < 8;
    OctalDigitsDecimal(d);
  }

  lemma {:induction false} OctalDigitsDecimal(d: string)
    requires AllDigits(d, 8)
    ensures AllDigits(['0'] + d, 10) && AllDigits(d, 10)
    ensures ParseDigits(['0'] + d, 10) == ParseDigits(d, 10)
  {
    assert AllDigits(['0'] + d, 10);
    if d == "" {
      ParseSnoc("", '0', 10);
      assert [] + ['0'] == ['0'] + d;
    } else {
      OctalDigitsDecimal(d[..|d| - 1]);
      assert (['0'] + d)[..|d|] == ['0'] + d[..|d| - 1];
    }
  }

  /** Octal text denotes the number it was printed from exactly below eight, and a greater one from there on. */
  lemma OctalReadsBack(v: nat, upper: bool)
    ensures Denoted(Text(v, 8, true, upper)).Some?
    ensures Denoted(Text(v, 8, true, upper)) == Some(v) <==> v < 8
    ensures v >= 8 ==> Denoted(Text(v, 8, true, upper)).value > v
  {
    if v == 0 {
      ZeroParses();
    } else {
      OctalReadsAsDecimal(v, upper);
      DecimalReadingGrows(v, upper);
    }
  }

  /**
   * Read back into `bits` bits, the numbers below eight come back; as long as the decimal reading fits
   * the bits, no other number does.
   */
  lemma OctalReadsModulo(v: nat, upper: bool, bits: nat)
    requires v < Pow2(bits)
    ensures Denoted(Text(v, 8, true, upper)).Some?
    ensures var d := Denoted(Text(v, 8, true, upper)).value;
            && (v < 8 ==> d % Pow2(bits) == v)
            && (d < Pow2(bits) ==> (d % Pow2(bits) == v <==> v < 8))
  {
    hide Pow2, Denoted, Text;
    OctalReadsBack(v, upper);
    var d := Denoted(Text(v, 8, true, upper)).value;
    if d < Pow2(bits) {
      ModSmall(d, Pow2(bits));
    }
  }

  /** The decimal reading of a number of n octal digits has at most n decimal digits. */
  lemma {:induction false} DecimalReadingBound(v: nat, n: nat, upper: bool)
    requires v < Pow2(3 * n)
    ensures AllDigits(Digits(v, 8, upper), 10)
    ensures ParseDigits(Digits(v, 8, upper), 10) < Pow10(n)
  {
    if v > 0 {
      assert n > 0 && Pow2(3) == 8;
      Pow2Add(3, 3 * (n - 1));
      DecimalReadingBound(v / 8, n - 1, upper);
      DigitCharReads(v % 8, upper);
      ParseSnoc(Digits(v / 8, 8, upper), DigitChar(v % 8, upper), 10);
    }
  }

  ghost function Pow10(n: nat): (p: nat)
    ensures p > 0
  {
    if n == 0 then 1 else 10 * Pow10(n - 1)
  }

  lemma {:induction false} Pow10Add(a: nat, b: nat)
    ensures Pow10(a + b) == Pow10(a) * Pow10(b)
  {
    if a > 0 {
      Pow10Add(a - 1, b);
      assert Pow10(a + b) == 10 * Pow10(a - 1 + b);
    }
  }

  lemma Pow10Square(k: nat, p: nat)
    requires Pow10(k) == p
    ensures Pow10(2 * k) == p * p && Pow10(2 * k + 1) == 10 * (p * p)
  {
    Pow10Add(k, k);
  }

  lemma DecimalDigitsFit()
    ensures Pow10(154) < Pow2(512)
  {
    Pow2Sizes();
    PowSquare(64, 0x1_0000_0000_0000_0000);
    PowSquare(128, 0x1_0000_0000_0000_0000_0000_0000_0000_0000);
    PowSquare(256, 0x1_0000_0000_0000_0000_0000_0000_0000_0000_0000_0000_0000_0000_0000_0000_0000_0000);
    assert Pow10(0) == 1;
    hide Pow10, Pow2;
    Pow10Square(0, 1);
    Pow10Square(1, 10);
    Pow10Square(2, 100);
    Pow10Square(4, 1_0000);
    Pow10Square(9, 10_0000_0000);
    Pow10Square(19, 1000_0000_0000_0000_0000);
    Pow10Square(38, 100_0000_0000_0000_0000_0000_0000_0000_0000_0000);
    var p := 1_0000_0000_0000_0000_0000_0000_0000_0000_0000_0000_0000_0000_0000_0000_0000_0000_0000_0000_0000;
    Pow10Square(77, 10 * p);
  }

  /** Up to 154 octal digits nothing wraps in 512 bits: only the numbers below eight come back. */
  lemma OctalReadsIn512(v: nat, upper: bool)
    requires v < Pow2(462)
    ensures Denoted(Text(v, 8, true, upper)).Some?
    ensures Denoted(Text(v, 8, true, upper)).value % Pow2(512) == v <==> v < 8
  {
    hide Pow2, Denoted, Text;
    Pow2Mono(462, 512);
    OctalReadsModulo(v, upper, 512);
    DecimalDigitsFit();
    DecimalReadingBound(v, 154, upper);
    if v > 0 {
      OctalReadsAsDecimal(v, upper);
    } else {
      OctalReadsBack(v, upper);
    }
  }

  lemma {:induction false} DecimalReadingGrows(v: nat, upper: bool)
    ensures AllDigits(Digits(v, 8, upper), 10)
    ensures v < 8 ==> ParseDigits(Digits(v, 8, upper), 10) == v
    ensures v >= 8 ==> ParseDigits(Digits(v, 8, upper), 10) > v
  {
    if v > 0 {
      DecimalReadingGrows(v / 8, upper);
      DigitCharReads(v % 8, upper);
      ParseSnoc(Digits(v / 8, 8, upper), DigitChar(v % 8, upper), 10);
    }
  }
}
