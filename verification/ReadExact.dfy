/** When a typed buffer holds the number its text denotes, and what it holds instead when it does not. */
module ReadExact {
  import opened BigArithmetic
  import opened BigSigned
  import opened Bits
  import opened Buffers
  import opened Convert
  import opened Numerals
  import opened Results

  // ---- unsigned fields ----

  /**
   * An unsigned field takes the texts whose number modulo 2^512 is below 2^bits, and holds the number
   * they denote exactly when that number itself is below 2^bits.
   */
  lemma UnsignedReadExact(text: string, bits: nat)
    requires Width(bits)
    ensures Written(text, false).Err? ==> ReadUnsigned(text, bits) == Err(Written(text, false).error)
    ensures Written(text, false).Ok? ==>
              var d, r := Written(text, false).value, ReadUnsigned(text, bits);
              && (r.Ok? <==> d % Pow2(512) < Pow2(bits)) && (r.Err? ==> r.error == OutOfRange)
              && (r.Ok? ==> LittleEndian(r.value) == d % Pow2(512))
              && (r.Ok? && LittleEndian(r.value) == d <==> 0 <= d < Pow2(bits))
  {
    hide Pow2, BitLength, LowBytes, LittleEndian, Written, Wrap;
    if Written(text, false).Ok? {
      var d := Written(text, false).value;
      var v := Wrap(d);
      WrapIsMod(d);
      WrapExact(d);
      BitLengthFits(v, bits);
      Pow2Mono(bits, 512);
      BufferOfLowBytes(v, bits / 8);
      if v < Pow2(bits) {
        ModSmall(v, Pow2(bits));
      }
    }
  }

  // ---- signed fields ----

  /** Numbers that N-bit two's complement can hold. */
  ghost predicate InRange(x: int, bits: nat)
    requires bits > 0
  {
    0 - Pow2(bits - 1) <= x < Pow2(bits - 1)
  }

  /**
   * A signed field holds the number its text denotes exactly when that number is in range. It takes the
   * text when the number is in range modulo 2^512, at 64, 128 and 256 bits also when it is 2^(bits - 1)
   * modulo 2^512; what it then holds is the number modulo 2^bits, put in range.
   */
  lemma SignedReadExact(text: string, bits: nat)
    requires Width(bits)
    ensures Written(text, true).Err? ==> ReadSigned(text, bits) == Err(Written(text, true).error)
    ensures Written(text, true).Ok? ==>
              var d, r, half := Written(text, true).value, ReadSigned(text, bits), Pow2(bits - 1);
              && (r.Ok? <==> || (d + half) % Pow2(512) < Pow2(bits)
                             || (bits in {64, 128, 256} && (d - half) % Pow2(512) == 0))
              && (r.Err? ==> r.error == OutOfRange)
              && (r.Ok? ==> SignedValue(r.value) == (d + half) % Pow2(bits) - half)
              && (r.Ok? && SignedValue(r.value) == d <==> InRange(d, bits))
  {
    hide Pow2, LowBytes, LittleEndian, Written, Signed, SignedValue, Wrap;
    if Written(text, true).Ok? {
      var d := Written(text, true).value;
      SignedResidue(d, bits);
      if AcceptsSigned(Signed(Wrap(d)), bits) {
        SignedImage(Wrap(d), bits);
      }
      InRangeModulo(d, bits);
    }
  }

  /** A number in range is its own residue, and the only one in its class. */
  lemma InRangeModulo(d: int, bits: nat)
    requires Width(bits)
    ensures InRange(d, bits) <==> (d + Pow2(bits - 1)) % Pow2(bits) - Pow2(bits - 1) == d
    ensures InRange(d, bits) ==> (d + Pow2(bits - 1)) % Pow2(512) < Pow2(bits)
  {
    hide Pow2;
    var y := d + Pow2(bits - 1);
    EvenPower(bits - 1);
    Pow2Mono(bits, 512);
    DivModIdentity(y, Pow2(bits));
    if InRange(d, bits) {
      ModSmall(y, Pow2(bits));
      ModSmall(y, Pow2(512));
    }
  }

  /** The range the 512 bits kept of a number fall in, told from the number. */
  lemma SignedResidue(d: int, bits: nat)
    requires Width(bits)
    ensures var x, half := Signed(Wrap(d)), Pow2(bits - 1);
            && (InRange(x, bits) <==> (d + half) % Pow2(512) < Pow2(bits))
            && (bits < 512 ==> (x == half <==> (d - half) % Pow2(512) == 0))
            && (InRange(x, bits) ==> (d + half) % Pow2(bits) - half == x)
            && (x == half ==> (d + half) % Pow2(bits) == 0)
  {
    hide Pow2, Wrap, Signed;
    EvenPower(bits - 1);
    Pow2Add(512 - bits, bits);
    if bits < 512 {
      EvenPower(511 - bits);
    }
    var k := SignedParts(d);
    ResidueRange(d, Signed(Wrap(d)), k, Pow2(bits - 1), Pow2(512 - bits), Pow2(bits), Pow2(512));
  }

  lemma SignedParts(d: int) returns (k: int)
    ensures var x := Signed(Wrap(d)); d == k * Pow2(512) + x && 0 - Pow2(512) <= 2 * x < Pow2(512)
  {
    hide Pow2, Wrap;
    WrapIsMod(d);
    EvenPower(511);
    var q := d / Pow2(512);
    DivModIdentity(d, Pow2(512));
    MulDist(q, 1, Pow2(512));
    k := if Signed(Wrap(d)) < 0 then q + 1 else q;
  }

  lemma ResidueRange(d: int, x: int, k: int, half: int, rest: int, p: int, m: int)
    requires half > 0 && rest > 0 && p == 2 * half && m == rest * p
    requires d == k * m + x && 0 - m <= 2 * x < m
    ensures p > 0 && m > 0
    ensures 0 - half <= x < half <==> (d + half) % m < p
    ensures rest > 1 ==> (x == half <==> (d - half) % m == 0)
    ensures 0 - half <= x < half ==> (d + half) % p == x + half
    ensures x == half ==> (d + half) % p == 0
  {
    MulMono(1, rest, p);
    if rest > 1 {
      MulMono(2, rest, p);
    }
    ResidueMod(d + half, x + half, k, m);
    ResidueMod(d - half, x - half, k, m);
    if 0 - half <= x <= half {
      MulAssoc(k, rest, p);
      ResidueMod(d + half, x + half, k * rest, p);
    }
  }

  /** A remainder that is off by less than the modulus on either side. */
  lemma ResidueMod(d: int, y: int, k: int, m: int)
    requires m > 0 && d == k * m + y && 0 - m <= y <= m
    ensures d % m == if y < 0 then y + m else if y == m then 0 else y
  {
    MulDist(k, 1, m);
    MulDist(k, 0 - 1, m);
    if y < 0 {
      DivModUnique(d, k - 1, y + m, m);
    } else if y == m {
      DivModUnique(d, k + 1, 0, m);
    } else {
      DivModUnique(d, k, y, m);
    }
  }

  lemma SignedImage(v: nat, bits: nat)
    requires Width(bits) && v < Pow2(512) && AcceptsSigned(Signed(v), bits)
    ensures var x := Signed(v);
            SignedValue(LowBytes(v, bits / 8)) == if x < Pow2(bits - 1) then x else 0 - x
    ensures Signed(v) >= Pow2(bits - 1) ==> Signed(v) != 0
  {
    hide Pow2, LowBytes, LittleEndian, Signed, Negative;
    assert 8 * (bits / 8) == bits;
    EvenPower(bits - 1);
    BufferOfLowBytes(v, bits / 8);
    SignOfBuffer(LowBytes(v, bits / 8));
    SignedWords(v, bits);
    LowBitsOf(v, Signed(v), Pow2(bits - 1), Pow2(512 - bits));
  }

  lemma SignedWords(v: nat, bits: nat)
    requires Width(bits) && v < Pow2(512)
    ensures var x := Signed(v); v == if x < 0 then x + Pow2(512 - bits) * (2 * Pow2(bits - 1)) else x
    ensures Signed(v) < Pow2(511)
  {
    hide Pow2;
    EvenPower(bits - 1);
    EvenPower(511);
    Pow2Add(512 - bits, bits);
  }

  /** The low part of a number stored in two's complement. */
  lemma LowBitsOf(v: nat, x: int, half: nat, rest: nat)
    requires half > 0 && rest > 0 && v == (if x < 0 then x + rest * (2 * half) else x) && 0 - half <= x <= half
    ensures v % (2 * half) == if x < 0 then x + 2 * half else x
  {
    if x < 0 {
      MulDist(rest - 1, 1, 2 * half);
      DivModUnique(v, rest - 1, x + 2 * half, 2 * half);
    } else {
      DivModUnique(v, 0, x, 2 * half);
    }
  }

  // ---- significant bytes of a signed buffer, and what is printed ----

  /** The buffer without the trailing 0xFF bytes, which stand for the sign. */
  lemma TrimmedValue(b: seq<byte>)
    requires Negative(b)
    ensures var n := Trimmed(b, 255); SignedValue(b) == LittleEndian(b[..n]) - Pow2(8 * n)
  {
    hide Pow2, LittleEndian, Trimmed;
    var n := Trimmed(b, 255);
    var rest := |b| - n;
    assert b == b[..n] + Fill(rest, 255);
    LittleEndianAppend(b[..n], Fill(rest, 255));
    OnesFill(rest);
    Pow2Add(8 * n, 8 * rest);
    assert 8 * n + 8 * rest == 8 * |b|;
    OnesProduct(LittleEndian(b[..n]), Pow2(8 * n), Pow2(8 * rest));
  }

  lemma BelowOnes(b: seq<byte>)
    requires |b| > 0 && b[|b| - 1] != 255
    ensures LittleEndian(b) < Pow2(8 * |b|) - Pow2(8 * (|b| - 1))
  {
    hide Pow2, LittleEndian;
    var n := |b| - 1;
    assert b == b[..n] + [b[n]];
    assert LittleEndian([b[n]]) == b[n] by { LastByte(b[n]); }
    LittleEndianAppend(b[..n], [b[n]]);
    LittleEndianBound(b[..n]);
    NextByte(|b|);
    MulMono(b[n], 254, Pow2(8 * n));
  }

  lemma LastByte(x: byte)
    ensures LittleEndian([x]) == x
  {
  }

  /**
   * A negative buffer has at most k significant bytes exactly when k bytes of two's complement hold the
   * number; it has none at all exactly for -1.
   */
  lemma SignedSizeFits(b: seq<byte>, k: nat)
    requires Negative(b) && 0 < k < |b|
    ensures ByteSize(b, true) <= k <==> SignedValue(b) >= 0 - Pow2(8 * k - 1)
    ensures ByteSize(b, true) == 0 <==> SignedValue(b) == 0 - 1
  {
    hide Pow2, LittleEndian, Trimmed, SignedValue;
    var n := Trimmed(b, 255);
    TrimmedValue(b);
    Pow2Zero();
    if n == 0 {
      NoBytes(b);
    } else {
      BelowOnes(b[..n]);
      SignOfBuffer(b[..n]);
      Pow2Mono(0, 8 * (n - 1));
      Halves(n);
      Halves(k);
      if k >= n {
        Pow2Mono(8 * n - 1, 8 * k - 1);
      } else {
        Pow2Mono(8 * k, 8 * (n - 1));
      }
      if k > n {
        Pow2Mono(8 * n, 8 * k - 1);
      }
    }
  }

  lemma Pow2Zero()
    ensures Pow2(0) == 1
  {
  }

  lemma Halves(k: nat)
    requires k > 0
    ensures Pow2(8 * k) == 2 * Pow2(8 * k - 1)
  {
  }

  lemma NoBytes(b: seq<byte>)
    ensures LittleEndian(b[..0]) == 0
  {
  }

  /**
   * An unsigned buffer is printed in the base asked for exactly when its number fits k bytes and the base
   * is one from 2 to 36; the number 0 is printed in any base.
   */
  lemma UnsignedPrintExact(b: seq<byte>, k: nat, base: int)
    ensures var v, r := LittleEndian(b), UnsignedText(b, k, base);
            && (v >= Pow2(8 * k) ==> r == Err(OutOfRange))
            && (v < Pow2(8 * k) && v != 0 && !(2 <= base <= 36) ==> r == Err(ConversionUnavailable))
            && (v < Pow2(8 * k) && (v == 0 || 2 <= base <= 36) ==> r.Ok? && IsNumeral(r.value, v, base, true, true))
  {
    hide Pow2, LittleEndian, IsNumeral, Text;
    ByteSizeFits(b, k);
    UnsignedTextIs(b, k, base);
  }

  /**
   * A signed buffer is printed in the base asked for exactly when its number, if negative, fits k bytes of
   * two's complement and, if not, k bytes without a sign, and the base is one from 2 to 36; with k = 0 only
   * the number 0 is. In the four bases of the reader the text denotes the number.
   */
  lemma IntegerPrintExact(b: seq<byte>, k: nat, base: int)
    requires 0 < |b| <= 64
    ensures var x, r := SignedValue(b), IntegerText(b, k, base);
            var fits := if k == 0 then x == 0 else 0 - Pow2(8 * k - 1) <= x < Pow2(8 * k);
            && (!fits ==> r == Err(OutOfRange))
            && (fits && x != 0 && !(2 <= base <= 36) ==> r == Err(ConversionUnavailable))
            && (fits && (x == 0 || 2 <= base <= 36) ==> r.Ok? && IsSignedNumeral(r.value, x, base, true, true))
            && (r.Ok? && base in {2, 8, 10, 16} ==> Written(r.value, true) == Ok(x))
  {
    hide Pow2, LittleEndian, Written, PrintValue, IsNumeral, UnsignedText;
    if Negative(b) {
      NegativePrintExact(b, k, base);
    } else {
      if base in {2, 8, 10, 16} {
        PrintedBack(b, k, base);
      }
      UnsignedPrintExact(b, k, base);
      Pow2Zero();
      if k > 0 {
        Halves(k);
      }
    }
  }

  lemma PrintedBack(b: seq<byte>, k: nat, base: int)
    requires base in {2, 8, 10, 16}
    ensures var v, r := LittleEndian(b), UnsignedText(b, k, base);
            r.Ok? ==> Written(r.value, true) == Ok(v) && (v > 0 ==> Written("-" + r.value, true) == Ok(0 - v))
  {
    hide LittleEndian, Written, PrintValue, ByteSize;
    PrintedDenotes(LittleEndian(b), base, true);
  }

  lemma NegativePrintExact(b: seq<byte>, k: nat, base: int)
    requires 0 < |b| <= 64 && Negative(b)
    ensures var x, r := SignedValue(b), IntegerText(b, k, base);
            var fits := k > 0 && 0 - Pow2(8 * k - 1) <= x;
            && x < 0
            && (!fits ==> r == Err(OutOfRange))
            && (fits && !(2 <= base <= 36) ==> r == Err(ConversionUnavailable))
            && (fits && 2 <= base <= 36 ==> r.Ok? && IsSignedNumeral(r.value, x, base, true, true))
            && (r.Ok? && base in {2, 8, 10, 16} ==> Written(r.value, true) == Ok(x))
  {
    hide Pow2, LittleEndian, Written, PrintValue, ByteSize, LowBytes, Wrap, SignExtended, Negative, UnsignedText;
    SignOfBuffer(b);
    var m := Pow2(8 * |b|) - LittleEndian(b);
    MagnitudeOf(b, 8 * |b|);
    BufferOfLowBytes(m, 64);
    ModSmall(m, Pow2(512));
    UnsignedPrintExact(LowBytes(m, 64), k, base);
    IntegerTextIs(b, k, base);
    if base in {2, 8, 10, 16} {
      PrintedBack(LowBytes(m, 64), k, base);
    }
    Pow2Zero();
    if k > 0 {
      NegativeSize(b, k);
      Halves(k);
    }
  }

  lemma NegativeSize(b: seq<byte>, k: nat)
    requires Negative(b) && k > 0
    ensures ByteSize(b, true) <= k <==> SignedValue(b) >= 0 - Pow2(8 * k - 1)
  {
    hide Pow2, LittleEndian, ByteSize, SignedValue;
    if k < |b| {
      SignedSizeFits(b, k);
    } else {
      NegativeLeast(b);
      Pow2Mono(8 * |b| - 1, 8 * k - 1);
    }
  }

  lemma NegativeLeast(b: seq<byte>)
    requires Negative(b)
    ensures SignedValue(b) >= 0 - Pow2(8 * |b| - 1)
  {
    hide Pow2, LittleEndian;
    SignOfBuffer(b);
    Halves(|b|);
  }

  // ---- what is read wrongly ----

  /** At 512 bits the numerals of the numbers from 2^511 up come out negative. */
  lemma HighNumerals(v: nat, base: int)
    requires Pow2(511) <= v < Pow2(512) && base in {2, 8, 10, 16}
    ensures PrintValue(v, base).Ok? && ReadSigned(PrintValue(v, base).value, 512).Ok?
    ensures SignedValue(ReadSigned(PrintValue(v, base).value, 512).value) == v - Pow2(512)
  {
    hide Pow2, PrintValue, SignedValue, ReadSigned, Written;
    PrintedDenotes(v, base, true);
    SignedReadExact(PrintValue(v, base).value, 512);
    EvenPower(511);
    DivModUnique(v + Pow2(511), 1, v - Pow2(511), Pow2(512));
    DivModIdentity(v + Pow2(511), Pow2(512));
  }

  /** The numeral of 2^512 - 1 is taken at every width and read as -1. */
  lemma AllOnesNumeral(bits: nat, base: int)
    requires Width(bits) && base in {2, 8, 10, 16}
    ensures PrintValue(Pow2(512) - 1, base).Ok? && ReadSigned(PrintValue(Pow2(512) - 1, base).value, bits).Ok?
    ensures SignedValue(ReadSigned(PrintValue(Pow2(512) - 1, base).value, bits).value) == 0 - 1
  {
    hide Pow2, PrintValue, SignedValue, ReadSigned, Written;
    var d, half, rest := Pow2(512) - 1, Pow2(bits - 1), Pow2(512 - bits);
    PrintedDenotes(d, base, true);
    SignedReadExact(PrintValue(d, base).value, bits);
    EvenPower(bits - 1);
    Pow2Mono(bits, 512);
    Pow2Add(512 - bits, bits);
    DivModUnique(d + half, 1, half - 1, Pow2(512));
    DivModUnique(d + half, rest, half - 1, Pow2(bits));
  }

  /** At 64, 128 and 256 bits the numeral of 2^(bits - 1) is taken and read as the minimum. */
  lemma LeastMagnitudeNumeral(bits: nat, base: int)
    requires bits in {64, 128, 256} && base in {2, 8, 10, 16}
    ensures PrintValue(Pow2(bits - 1), base).Ok? && ReadSigned(PrintValue(Pow2(bits - 1), base).value, bits).Ok?
    ensures SignedValue(ReadSigned(PrintValue(Pow2(bits - 1), base).value, bits).value) == 0 - Pow2(bits - 1)
  {
    hide Pow2, PrintValue, SignedValue, ReadSigned, Written;
    var half := Pow2(bits - 1);
    PrintedDenotes(half, base, true);
    SignedReadExact(PrintValue(half, base).value, bits);
    EvenPower(bits - 1);
    DivModUnique(half + half, 1, 0, Pow2(bits));
    ModSmall(0, Pow2(512));
  }

  /** The numeral of 2^512 is taken at every width and read as 0. */
  lemma OverlongNumeral(bits: nat, base: int)
    requires Width(bits) && base in {2, 8, 10, 16}
    ensures PrintValue(Pow2(512), base).Ok? && ReadUnsigned(PrintValue(Pow2(512), base).value, bits).Ok?
    ensures LittleEndian(ReadUnsigned(PrintValue(Pow2(512), base).value, bits).value) == 0
  {
    hide Pow2, PrintValue, LittleEndian, ReadUnsigned, Written;
    PrintedDenotes(Pow2(512), base, false);
    UnsignedReadExact(PrintValue(Pow2(512), base).value, bits);
    DivModUnique(Pow2(512), 1, 0, Pow2(512));
  }
}
