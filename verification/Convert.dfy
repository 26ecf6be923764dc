/** Conversions between typed little-endian buffers and text. */
module Convert {
  import opened BigArithmetic
  import opened BigSigned
  import opened BigUnsigned
  import opened Bits
  import opened Buffers
  import opened Numerals
  import opened Results
  import opened Words

  predicate Width(bits: nat) {
    bits == 8 || bits == 16 || bits == 32 || bits == 64 || bits == 128 || bits == 256 || bits == 512
  }

  // ---- significant bytes of a buffer ----

  /** Length once the trailing bytes equal to `fill` are gone. */
  function Trimmed(value: seq<byte>, fill: byte): (n: nat)
    ensures n <= |value|
    ensures forall k :: n <= k < |value| ==> value[k] == fill
    ensures n > 0 ==> value[n - 1] != fill
  {
    if |value| > 0 && value[|value| - 1] == fill then Trimmed(value[..|value| - 1], fill) else |value|
  }

  predicate Negative(value: seq<byte>) {
    |value| > 0 && value[|value| - 1] >= 128
  }

  /** Significant bytes; a negative number keeps one 0xFF when its last byte would read as positive. */
  function ByteSize(value: seq<byte>, isSigned: bool): (n: nat)
    ensures n <= |value|
  {
    if isSigned && Negative(value) then
      var n := Trimmed(value, 255);
      if n > 0 && value[n - 1] < 128 && n != |value| then n + 1 else n
    else Trimmed(value, 0)
  }

  method ValueByteSize(value: seq<byte>, isSigned: bool) returns (size: nat)
    ensures size == ByteSize(value, isSigned)
  {
    size := |value|;
    if size > 0 {
      var expected: byte := if isSigned && value[size - 1] >= 128 then 0xFF else 0x00;
      assert value[..size] == value;
      hide Trimmed;
      while size > 0
        invariant size <= |value|
        invariant Trimmed(value, expected) == Trimmed(value[..size], expected)
      {
        if value[size - 1] != expected {
          TrimStop(value, expected, size);
          if expected == 0xFF && value[size - 1] < 128 {
            if size != |value| {
              size := size + 1;
            }
          }
          break;
        }
        TrimStep(value, expected, size);
        size := size - 1;
      }
    }
  }

  lemma TrimStep(value: seq<byte>, fill: byte, n: nat)
    requires 0 < n <= |value| && value[n - 1] == fill
    ensures Trimmed(value[..n], fill) == Trimmed(value[..n - 1], fill)
  {
    assert value[..n][..n - 1] == value[..n - 1];
  }

  lemma TrimStop(value: seq<byte>, fill: byte, n: nat)
    requires 0 < n <= |value| && value[n - 1] != fill
    ensures Trimmed(value[..n], fill) == n
  {
  }

  /** The significant bytes of an unsigned buffer fit in k bytes exactly when the number does. */
  lemma ByteSizeFits(value: seq<byte>, k: nat)
    ensures ByteSize(value, false) <= k <==> LittleEndian(value) < Pow2(8 * k)
  {
    var n := Trimmed(value, 0);
    TrimKeepsValue(value, n);
    LittleEndianBound(value[..n]);
    if n <= k {
      Pow2Mono(8 * n, 8 * k);
    } else {
      TopByte(value[..n]);
      Pow2Mono(8 * k, 8 * (n - 1));
    }
  }

  lemma TrimKeepsValue(value: seq<byte>, n: nat)
    requires n <= |value| && forall k :: n <= k < |value| ==> value[k] == 0
    ensures LittleEndian(value) == LittleEndian(value[..n])
  {
    assert value == value[..n] + Fill(|value| - n, 0);
    LittleEndianAppend(value[..n], Fill(|value| - n, 0));
    ZeroFill(|value| - n);
  }

  lemma TopByte(b: seq<byte>)
    requires |b| > 0 && b[|b| - 1] > 0
    ensures LittleEndian(b) >= Pow2(8 * (|b| - 1))
  {
    var n := |b| - 1;
    assert b == b[..n] + [b[n]];
    LittleEndianAppend(b[..n], [b[n]]);
    assert LittleEndian([b[n]]) == b[n];
    MulMono(1, b[n], Pow2(8 * n));
  }

  // ---- reading a number ----

  /** Character of a zero-terminated string. */
  function At(s: string, i: nat): char {
    if i < |s| then s[i] else '\0'
  }

  predicate IsSpace(c: char) {
    c == ' ' || '\t' <= c <= '\r'
  }

  function SkipSpaces(s: string, n: nat): (e: nat)
    requires n <= |s|
    ensures n <= e <= |s|
    decreases |s| - n
  {
    if n < |s| && IsSpace(s[n]) then SkipSpaces(s, n + 1) else n
  }

  function DigitsEnd(s: string, n: nat, base: nat): (e: nat)
    requires n <= |s|
    ensures n <= e <= |s| && AllDigits(s[n..e], base)
    decreases |s| - n
  {
    if n < |s| && DigitOf(s[n]) < base then DigitsEnd(s, n + 1, base) else n
  }

  datatype Form = Form(base: nat, start: nat, quoted: bool)

  /** Base of the digits, where they start, and whether a quote must close them. */
  function DetectForm(s: string, b: nat): (f: Form)
    requires b <= |s|
    ensures b <= f.start <= |s| && f.base in {2, 8, 10, 16}
  {
    if At(s, b) == '0' then
      if At(s, b + 1) == 'x' || At(s, b + 1) == 'X' then Form(16, b + 2, false)
      else if At(s, b + 1) == 'b' || At(s, b + 1) == 'B' then Form(2, b + 2, false)
      else Form(8, b + 1, false)
    else if (At(s, b) == 'x' || At(s, b) == 'X') && At(s, b + 1) == '\'' then Form(16, b + 2, true)
    else Form(10, b, false)
  }

  /** The number a text denotes when no unit may follow it, however large. */
  function Written(s: string, acceptNegative: bool): Result<int> {
    var a := SkipSpaces(s, 0);
    var negative := At(s, a) == '-';
    if negative && !acceptNegative then Err(InvalidNumber)
    else WrittenFrom(s, if negative || At(s, a) == '+' then a + 1 else a, negative)
  }

  /** The number behind the sign. */
  function WrittenFrom(s: string, b: nat, negative: bool): Result<int>
    requires b <= |s|
  {
    var f := DetectForm(s, b);
    var e := DigitsEnd(s, f.start, f.base);
    var v := ParseDigits(s[f.start..e], f.base);
    if f.quoted && At(s, e) != '\'' then Err(InvalidNumber)
    else
      var t := SkipSpaces(s, if f.quoted then e + 1 else e);
      if At(s, t) != '\0' then Err(InvalidNumber)
      else Ok(if negative then 0 - v else v)
  }

  /** What `string_to_int` makes of the number: 512 bits of it. */
  ghost function Kept(r: Result<int>): (k: Result<nat>)
    ensures k.Ok? ==> k.value < Pow2(512)
  {
    match r
    case Err(e) => Err(e)
    case Ok(d) => Ok(Wrap(d))
  }

  ghost function ReadNumber(s: string, acceptNegative: bool): (r: Result<nat>)
    ensures r.Ok? ==> r.value < Pow2(512)
  {
    Kept(Written(s, acceptNegative))
  }

  lemma WrapSum(x: nat, y: nat)
    ensures Wrap(Wrap(x) + Wrap(y)) == Wrap(x + y)
  {
    hide Wrap, Pow2;
    var k := WrapParts(x);
    var j := WrapParts(y);
    MulDist(k, j, Pow2(512));
    WrapShift(Wrap(x) + Wrap(y), k + j);
  }

  lemma Doublings(v: nat, base: nat)
    requires v < Pow2(512)
    ensures Wrap(v + v) == Wrap(2 * v)
    ensures Wrap(Wrap(2 * v) + Wrap(2 * v)) == Wrap(4 * v)
    ensures Wrap(Wrap(4 * v) + Wrap(4 * v)) == Wrap(8 * v)
    ensures Wrap(Wrap(8 * v) + Wrap(8 * v)) == Wrap(16 * v)
    ensures Wrap(Wrap(2 * v) + Wrap(8 * v)) == Wrap(10 * v)
    ensures base in {2, 8, 10, 16} ==>
              v * base == if base == 2 then 2 * v else if base == 8 then 8 * v
                          else if base == 10 then 10 * v else 16 * v
  {
    hide Wrap, Pow2;
    WrapSum(2 * v, 2 * v);
    WrapSum(4 * v, 4 * v);
    WrapSum(8 * v, 8 * v);
    WrapSum(2 * v, 8 * v);
  }

  /** result * base, with a few additions. */
  method TimesBase(result: Uint512, base: nat)
    requires result.Valid() && base in {2, 8, 10, 16}
    modifies result.value
    ensures result.Value() == Wrap(old(result.Value()) * base)
  {
    hide Val, Pow2, Wrap;
    ghost var v := result.Value();
    Doublings(v, base);
    result.AddAssign(result);
    if base == 10 {
      var eight := new Uint512.Copy(result);
      eight.AddAssign(eight);
      eight.AddAssign(eight);
      result.AddAssign(eight);
    } else if base != 2 {
      result.AddAssign(result);
      result.AddAssign(result);
      if base == 16 {
        result.AddAssign(result);
      }
    }
  }

  /** Value of a digit character; letters are folded to upper case by clearing bit 5. */
  function DigitValue(c: char): nat
    requires DigitOf(c) < 16
  {
    if c <= '9' then c as int - '0' as int
    else
      FoldLetter(c);
      BitAnd(c as int, 0x5F) - ('A' as int - 10)
  }

  lemma FoldLetter(c: char)
    requires 10 <= DigitOf(c) < 16
    ensures BitAnd(c as int, 0x5F) == DigitOf(c) - 10 + 'A' as int
  {
    assert BitAnd(2, 2) == 2 && BitAnd(3, 2) == 2;
    hide BitAnd;
    FoldCode(c as int);
  }

  lemma FoldCode(a: nat)
    requires 64 <= a < 128 && BitAnd(2, 2) == 2 && BitAnd(3, 2) == 2
    ensures BitAnd(a, 0x5F) == 64 + a % 32
  {
    hide BitAnd;
    var h1 := a / 2;
    var h2 := h1 / 2;
    var h3 := h2 / 2;
    var h4 := h3 / 2;
    var h5 := h4 / 2;
    assert h5 == 2 || h5 == 3;
    AndOdd(a, 47);
    AndOdd(h1, 23);
    AndOdd(h2, 11);
    AndOdd(h3, 5);
    AndOdd(h4, 2);
  }

  /** Read a number, moving along the text one character at a time; no unit may follow it. */
  method StringToInt(number: string, acceptNegative: bool) returns (r: Result<Uint512>)
    ensures r.Ok? ==> r.value.Valid() && fresh(r.value) && fresh(r.value.value)
    ensures r.Ok? ==> ReadNumber(number, acceptNegative) == Ok(r.value.Value())
    ensures r.Err? ==> ReadNumber(number, acceptNegative) == Err(r.error)
  {
    hide Val, Pow2, Wrap, ParseDigits, WrittenFrom, DetectForm;
    var negative := false;
    var n := 0;
    while IsSpace(At(number, n))
      invariant n <= |number| && SkipSpaces(number, n) == SkipSpaces(number, 0)
      decreases |number| - n
    {
      n := n + 1;
    }
    if At(number, n) == '+' {
      n := n + 1;
    } else if At(number, n) == '-' {
      if !acceptNegative {
        return Err(InvalidNumber);
      }
      n := n + 1;
      negative := true;
    }
    r := StringToIntFrom(number, n, negative);
  }

  /** The rest of the reading, once the sign is known. */
  method StringToIntFrom(number: string, b: nat, negative: bool) returns (r: Result<Uint512>)
    requires b <= |number|
    ensures r.Ok? ==> r.value.Valid() && fresh(r.value) && fresh(r.value.value)
    ensures r.Ok? ==> Kept(WrittenFrom(number, b, negative)) == Ok(r.value.Value())
    ensures r.Err? ==> Kept(WrittenFrom(number, b, negative)) == Err(r.error)
  {
    hide Val, Pow2, Wrap, ParseDigits, DetectForm, DigitsEnd;
    var n, base, expectQuote := ReadPrefix(number, b);
    ghost var start := n;
    var result;
    result, n := ReadRun(number, n, base);
    if expectQuote {
      if At(number, n) != '\'' {
        return Err(InvalidNumber);
      }
      n := n + 1;
    }
    ghost var after := n;
    while IsSpace(At(number, n))
      invariant after <= n <= |number| && SkipSpaces(number, n) == SkipSpaces(number, after)
      decreases |number| - n
    {
      n := n + 1;
    }
    if At(number, n) != '\0' {
      return Err(InvalidNumber);
    }
    if negative {
      WrapNegation(ParseDigits(number[start..DigitsEnd(number, start, base)], base));
      result := result.Negate();
    }
    return Ok(result);
  }

  /** The prefix of a number, which gives its base. */
  method ReadPrefix(number: string, b: nat) returns (n: nat, base: nat, expectQuote: bool)
    requires b <= |number|
    ensures n <= |number| && base in {2, 8, 10, 16}
    ensures DetectForm(number, b) == Form(base, n, expectQuote)
  {
    n, base, expectQuote := b, 10, false;
    if At(number, n) == '0' {
      if At(number, n + 1) == 'x' || At(number, n + 1) == 'X' {
        n := n + 2;
        base := 16;
      } else if At(number, n + 1) == 'b' || At(number, n + 1) == 'B' {
        n := n + 2;
        base := 2;
      } else {
        n := n + 1;
        base := 8;
      }
    } else if At(number, n) == 'x' || At(number, n) == 'X' {
      if At(number, n + 1) == '\'' {
        n := n + 2;
        base := 16;
        expectQuote := true;
      }
    }
  }

  /** The digit loop of one base. */
  method ReadRun(number: string, start: nat, base: nat) returns (result: Uint512, n: nat)
    requires start <= |number| && base in {2, 8, 10, 16}
    ensures n == DigitsEnd(number, start, base)
    ensures result.Valid() && fresh(result) && fresh(result.value)
    ensures result.Value() == Wrap(ParseDigits(number[start..n], base))
  {
    ParseNothing(base);
    hide Val, Pow2, Wrap, ParseDigits;
    result := new Uint512();
    n := start;
    assert number[start..start] == "";
    while DigitOf(At(number, n)) < base
      invariant start <= n <= |number| && DigitsEnd(number, n, base) == DigitsEnd(number, start, base)
      invariant result.Valid() && fresh(result) && fresh(result.value)
      invariant AllDigits(number[start..n], base)
      invariant result.Value() == Wrap(ParseDigits(number[start..n], base))
      decreases |number| - n
    {
      DigitValueReads(number[n]);
      var digit := new Uint512.From64(DigitValue(number[n]));
      TimesBase(result, base);
      result.AddAssign(digit);
      RunStep(number, start, n, base);
      n := n + 1;
    }
  }

  /** One more digit of a run. */
  lemma RunStep(number: string, start: nat, n: nat, base: nat)
    requires start <= n < |number| && AllDigits(number[start..n], base) && DigitOf(number[n]) < base
    ensures AllDigits(number[start..n + 1], base)
    ensures Wrap(ParseDigits(number[start..n + 1], base))
         == Wrap(Wrap(Wrap(ParseDigits(number[start..n], base)) * base) + DigitOf(number[n]))
  {
    hide Wrap, ParseDigits;
    assert number[start..n + 1] == number[start..n] + [number[n]];
    ParseSnoc(number[start..n], number[n], base);
    WrapHorner(ParseDigits(number[start..n], base), base, DigitOf(number[n]));
  }

  lemma DigitValueReads(c: char)
    requires DigitOf(c) < 16
    ensures DigitValue(c) == DigitOf(c)
  {
    if c > '9' {
      FoldLetter(c);
    }
  }

  // ---- typed buffers ----

  /** Bytes of an unsigned field, or why the text does not fit it. */
  ghost function ReadUnsigned(text: string, bits: nat): Result<seq<byte>> {
    match ReadNumber(text, false)
    case Err(e) => Err(e)
    case Ok(v) => if bits != 512 && BitLength(v) > bits then Err(OutOfRange) else Ok(LowBytes(v, bits / 8))
  }

  method StringToUInteger(value: string, maxSize: nat) returns (r: Result<seq<byte>>)
    requires Width(maxSize)
    ensures r == ReadUnsigned(value, maxSize)
  {
    hide Val, Pow2, BitLength, ReadNumber, LowBytes, Image;
    var number := StringToInt(value, false);
    if number.Err? {
      return Err(number.error);
    }
    var n := number.value;
    if maxSize != 512 {
      var size := n.BitSize();
      if size > maxSize {
        return Err(OutOfRange);
      }
    }
    ImageIsLowBytes(n.value[..]);
    LowBytesPrefix(n.Value(), maxSize / 8, 64);
    return Ok(Image(n.value[..])[..maxSize / 8]);
  }

  /**
   * Numbers a signed field of `bits` bits takes. At 64, 128 and 256 bits the check for the minimum
   * looks only at the low words, which +2^(bits - 1) shares with it.
   */
  ghost predicate AcceptsSigned(x: int, bits: nat)
    requires bits > 0
  {
    || bits == 512
    || 0 - Pow2(bits - 1) <= x < Pow2(bits - 1)
    || (bits in {64, 128, 256} && x == Pow2(bits - 1))
  }

  ghost function ReadSigned(text: string, bits: nat): Result<seq<byte>>
    requires bits > 0
  {
    match ReadNumber(text, true)
    case Err(e) => Err(e)
    case Ok(v) => if AcceptsSigned(Signed(v), bits) then Ok(LowBytes(v, bits / 8)) else Err(OutOfRange)
  }

  method StringToInteger(value: string, maxSize: nat) returns (r: Result<seq<byte>>)
    requires Width(maxSize)
    ensures r == ReadSigned(value, maxSize)
  {
    hide Val, Pow2, BitLength, ReadNumber, LowBytes, Image, Signed;
    var number := StringToInt(value, true);
    if number.Err? {
      return Err(number.error);
    }
    var n := new Int512.FromUnsigned(number.value);
    var bitSize := n.BitSize();
    BitLengthFits(Abs(n.Value()), maxSize - 1);
    if maxSize != 512 && bitSize > maxSize - 1 {
      var isZero := false;
      if bitSize == maxSize {
        isZero := IsMinimum(n, maxSize);
      }
      OutsideRange(n.Value(), bitSize, maxSize);
      if !isZero {
        return Err(OutOfRange);
      }
    }
    ImageIsLowBytes(n.value[..]);
    LowBytesPrefix(n.Unsigned(), maxSize / 8, 64);
    return Ok(Image(n.value[..])[..maxSize / 8]);
  }

  lemma OutsideRange(x: int, size: nat, bits: nat)
    requires Width(bits) && bits != 512 && size == BitLength(Abs(x)) && size > bits - 1
    ensures size != bits ==> !AcceptsSigned(x, bits)
    ensures AcceptsSigned(x, bits) <==>
              x == 0 - Pow2(bits - 1) || (bits in {64, 128, 256} && x == Pow2(bits - 1))
  {
    hide Pow2, BitLength;
    BitLengthFits(Abs(x), bits - 1);
    BitLengthFits(Abs(x), bits);
    EvenPower(bits - 1);
  }

  /** The comparison with the minimum of the width: an `xor` with its bits must leave zero words. */
  method IsMinimum(n: Int512, maxSize: nat) returns (isZero: bool)
    requires n.Valid() && Width(maxSize) && maxSize != 512
    requires BitLength(Abs(n.Value())) == maxSize
    ensures isZero <==> AcceptsSigned(n.Value(), maxSize)
  {
    hide Val, Pow2, BitLength, Signed, BitXor, AcceptsSigned, Abs;
    LowWords(n.value[..], n.Value(), maxSize);
    var z := new Int512.Copy(n);
    XorZero(z.value[0], 0xFFFF_FFFF_8000_0000);
    XorZero(z.value[0], 0xFFFF_FFFF_FFFF_8000);
    XorZero(z.value[0], 0xFFFF_FFFF_FFFF_FF80);
    XorZero(z.value[0], 0x8000_0000_0000_0000);
    XorZero(z.value[1], 0x8000_0000_0000_0000);
    XorZero(z.value[3], 0x8000_0000_0000_0000);
    match maxSize {
      case 256 =>
        isZero := z.value[0] == 0 && z.value[1] == 0 && z.value[2] == 0
          && BitXor(z.value[3], 0x8000_0000_0000_0000) == 0;
      case 128 =>
        isZero := z.value[0] == 0 && BitXor(z.value[1], 0x8000_0000_0000_0000) == 0;
      case 64 =>
        isZero := BitXor(z.value[0], 0x8000_0000_0000_0000) == 0;
      case 32 =>
        isZero := BitXor(z.value[0], 0xFFFF_FFFF_8000_0000) == 0;
      case 16 =>
        isZero := BitXor(z.value[0], 0xFFFF_FFFF_FFFF_8000) == 0;
      case _ =>
        isZero := BitXor(z.value[0], 0xFFFF_FFFF_FFFF_FF80) == 0;
    }
  }

  /** What the compared words say about a number whose magnitude has exactly `bits` bits. */
  lemma LowWords(s: seq<Word>, x: int, bits: nat)
    requires |s| == 8 && Width(bits) && bits != 512
    requires Val(s) < Pow2(512) && x == Signed(Val(s)) && BitLength(Abs(x)) == bits
    ensures bits == 256 ==> (AcceptsSigned(x, bits) <==>
              s[0] == 0 && s[1] == 0 && s[2] == 0 && s[3] == 0x8000_0000_0000_0000)
    ensures bits == 128 ==> (AcceptsSigned(x, bits) <==> s[0] == 0 && s[1] == 0x8000_0000_0000_0000)
    ensures bits == 64 ==> (AcceptsSigned(x, bits) <==> s[0] == 0x8000_0000_0000_0000)
    ensures bits == 32 ==> (AcceptsSigned(x, bits) <==> s[0] == 0xFFFF_FFFF_8000_0000)
    ensures bits == 16 ==> (AcceptsSigned(x, bits) <==> s[0] == 0xFFFF_FFFF_FFFF_8000)
    ensures bits == 8 ==> (AcceptsSigned(x, bits) <==> s[0] == 0xFFFF_FFFF_FFFF_FF80)
  {
    hide Val, Pow2, BitLength;
    Pow2Sizes();
    BitLengthFits(Abs(x), bits);
    BitLengthFits(Abs(x), bits - 1);
    var k := if bits < 64 then 1 else bits / 64;
    Pow2Mono(bits, 64 * k);
    LowPart(s, k, x);
    if bits < 64 {
      SmallMinimum(s, x, bits);
    } else {
      EvenPower(bits - 1);
      TopBitOnly(s, k);
    }
  }

  lemma SmallMinimum(s: seq<Word>, x: int, bits: nat)
    requires |s| == 8 && bits in {8, 16, 32}
    requires Val(s[..1]) == if x > 0 then x else Pow2(64) - Abs(x)
    requires x != 0 && Pow2(bits - 1) <= Abs(x) < Pow2(bits)
    ensures bits == 32 ==> (AcceptsSigned(x, bits) <==> s[0] == 0xFFFF_FFFF_8000_0000)
    ensures bits == 16 ==> (AcceptsSigned(x, bits) <==> s[0] == 0xFFFF_FFFF_FFFF_8000)
    ensures bits == 8 ==> (AcceptsSigned(x, bits) <==> s[0] == 0xFFFF_FFFF_FFFF_FF80)
  {
    assert Val(s[..1]) == s[0] by { assert Val(s[..1][1..]) == 0; }
    HalfSizes();
    hide Val, Pow2;
  }

  lemma HalfSizes()
    ensures Pow2(7) == 0x80 && Pow2(15) == 0x8000 && Pow2(31) == 0x8000_0000
    ensures Pow2(8) == 0x100 && Pow2(16) == 0x1_0000 && Pow2(32) == 0x1_0000_0000
    ensures Pow2(64) == 0x1_0000_0000_0000_0000
  {
    Pow2Sizes();
    EvenPower(7);
    EvenPower(15);
    EvenPower(31);
  }

  /** The low words of a number of small magnitude hold it modulo their size. */
  lemma LowPart(s: seq<Word>, k: nat, x: int)
    requires |s| == 8 && 0 < k <= 8 && Val(s) < Pow2(512) && x == Signed(Val(s))
    requires x != 0 && Abs(x) < Pow2(64 * k)
    ensures Val(s[..k]) == if x > 0 then x else Pow2(64 * k) - Abs(x)
  {
    hide Val, Pow2;
    ValSplit(s, k);
    ValBound(s[..k]);
    Pow2Add(64 * k, 64 * (8 - k));
    LowResidue(x, Val(s[..k]), Val(s[k..]), Pow2(64 * k), Pow2(64 * (8 - k)));
  }

  lemma LowResidue(x: int, l: nat, h: nat, p: nat, q: nat)
    requires l < p && x != 0 && Abs(x) < p
    requires l + p * h == if x > 0 then x else p * q - Abs(x)
    ensures l == if x > 0 then x else p - Abs(x)
  {
    if x > 0 {
      DivModUnique(x, h, l, p);
      DivModUnique(x, 0, x, p);
    } else {
      ComplementParts(q, p, Abs(x));
      DivModUnique(l + p * h, h, l, p);
      DivModUnique(l + p * h, q - 1, p - Abs(x), p);
    }
  }

  lemma ComplementParts(q: int, p: int, a: int)
    ensures p * q - a == (q - 1) * p + (p - a)
  {
  }

  /** Only the top bit of k words is set exactly when the words say so. */
  lemma TopBitOnly(s: seq<Word>, k: nat)
    requires 0 < k <= |s|
    ensures Val(s[..k]) == Pow2(64 * k - 1) <==>
              (forall i :: 0 <= i < k - 1 ==> s[i] == 0) && s[k - 1] == 0x8000_0000_0000_0000
  {
    hide Val, Pow2;
    ValPrefix(s, k - 1);
    ValBound(s[..k - 1]);
    ValIsZero(s[..k - 1]);
    Pow2Sizes();
    EvenPower(63);
    Pow2Add(64 * (k - 1), 63);
    var p, low := Pow2(64 * (k - 1)), Val(s[..k - 1]);
    if low + p * s[k - 1] == p * 0x8000_0000_0000_0000 {
      DivModUnique(p * 0x8000_0000_0000_0000, s[k - 1], low, p);
      DivModUnique(p * 0x8000_0000_0000_0000, 0x8000_0000_0000_0000, 0, p);
    }
  }

  // ---- printing ----

  /** Text of an unsigned value, with its base prefix and upper case letters. */
  function PrintValue(v: nat, base: int): Result<string> {
    if v == 0 then Ok("0")
    else if ValidBase(base) then Ok(Text(v, base, true, true))
    else Err(ConversionUnavailable)
  }

  ghost function UnsignedText(value: seq<byte>, bytesForSize: nat, base: int): Result<string> {
    if ByteSize(value, false) > bytesForSize then Err(OutOfRange) else PrintValue(LittleEndian(value), base)
  }

  /** The 64 bytes of a signed buffer extended with its sign. */
  function SignExtended(value: seq<byte>): seq<byte>
    requires |value| <= 64
  {
    value + Fill(64 - |value|, if Negative(value) then 255 else 0)
  }

  /** The number a buffer holds in two's complement. */
  ghost function SignedValue(b: seq<byte>): int {
    if Negative(b) then LittleEndian(b) - Pow2(8 * |b|) else LittleEndian(b)
  }

  ghost function IntegerText(value: seq<byte>, bytesForSize: nat, base: int): Result<string>
    requires 0 < |value| <= 64
  {
    if Negative(value) then
      if ByteSize(value, true) > bytesForSize then Err(OutOfRange)
      else
        match UnsignedText(LowBytes(Wrap(0 - LittleEndian(SignExtended(value))), 64), bytesForSize, base)
        case Err(e) => Err(e)
        case Ok(t) => Ok("-" + t)
    else UnsignedText(value, bytesForSize, base)
  }

  method UIntegerToString(value: seq<byte>, bytesForSize: nat, base: int) returns (r: Result<string>)
    requires |value| <= 64
    ensures r == UnsignedText(value, bytesForSize, base)
    ensures r.Ok? ==> IsNumeral(r.value, LittleEndian(value), base, true, true)
  {
    hide LittleEndian, LoadWord, Val, Pow2, Load, IsNumeral;
    var size := ValueByteSize(value, false);
    if size > bytesForSize {
      return Err(OutOfRange);
    }
    var v := new Uint512.FromWords(Load(value + Fill(64 - |value|, 0)));
    LoadValue(value + Fill(64 - |value|, 0));
    LittleEndianAppend(value, Fill(64 - |value|, 0));
    ZeroFill(64 - |value|);
    r := v.ToString(base, true, true);
  }

  method IntegerToString(value: seq<byte>, bytesForSize: nat, base: int) returns (r: Result<string>)
    requires 0 < |value| <= 64
    ensures r == IntegerText(value, bytesForSize, base)
    ensures r.Ok? ==> IsSignedNumeral(r.value, SignedValue(value), base, true, true)
  {
    hide LittleEndian, LoadWord, Val, Pow2, Load, Wrap, Image, LowBytes, UnsignedText, IsNumeral, SignedValue,
      IsSignedNumeral;
    IntegerTextIs(value, bytesForSize, base);
    if value[|value| - 1] >= 128 {
      var size := ValueByteSize(value, true);
      if size > bytesForSize {
        return Err(OutOfRange);
      }
      var image := value[..size];
      if size < 56 {
        image := image + Fill(56 - size, 255) + Fill(8, 255);
      } else {
        var clear := size - 56;
        if clear < 8 {
          image := image + Fill(8 - clear, 255);
        }
      }
      assert image == SignExtended(value);
      LoadValue(image);
      var v := new Int512.FromWords(Load(image));
      v := v.Negate();
      ImageIsLowBytes(v.value[..]);
      r := UIntegerToString(Image(v.value[..]), bytesForSize, base);
      return if r.Ok? then Ok("-" + r.value) else r;
    }
    r := UIntegerToString(value, bytesForSize, base);
  }

  /** What is printed is the text of the number in the base asked for, whatever the width and the base. */
  lemma UnsignedTextIs(value: seq<byte>, k: nat, base: int)
    ensures UnsignedText(value, k, base).Ok? ==>
              IsNumeral(UnsignedText(value, k, base).value, LittleEndian(value), base, true, true)
  {
    hide LittleEndian, IsNumeral, Text;
    ZeroNumeral(base, true, true);
    if ValidBase(base) {
      TextIsNumeral(LittleEndian(value), base, true, true);
    }
  }

  lemma IntegerTextIs(value: seq<byte>, k: nat, base: int)
    requires 0 < |value| <= 64
    ensures IntegerText(value, k, base).Ok? ==>
              IsSignedNumeral(IntegerText(value, k, base).value, SignedValue(value), base, true, true)
  {
    hide LittleEndian, IsNumeral, UnsignedText, Pow2, Wrap, LowBytes, SignExtended, ByteSize, Negative;
    SignOfBuffer(value);
    if Negative(value) {
      var m := Pow2(8 * |value|) - LittleEndian(value);
      MagnitudeOf(value, 8 * |value|);
      BufferOfLowBytes(m, 64);
      ModSmall(m, Pow2(512));
      UnsignedTextIs(LowBytes(m, 64), k, base);
      var t := UnsignedText(LowBytes(m, 64), k, base);
      assert t.Ok? ==> ("-" + t.value)[1..] == t.value;
    } else {
      UnsignedTextIs(value, k, base);
    }
  }

  // ---- round trips ----

  /** Printed text holds no space, sign or quote where the reader looks for them, and only digits after the prefix. */
  lemma PrintedForm(v: nat, base: int)
    requires v > 0 && base in {2, 8, 10, 16}
    ensures var t := Text(v, base, true, true);
            var d := Digits(v, base, true);
            && AllDigits(d, base) && ParseDigits(d, base) == v
            && t == Introducer(base, true) + d && d != "" && d[0] != '0' && DigitOf(d[0]) < base
  {
    DigitsParse(v, base, true);
    NoLeadingZero(v, base, true);
  }

  lemma {:induction false} DigitsRunToEnd(s: string, n: nat, base: nat)
    requires n <= |s| && AllDigits(s[n..], base)
    ensures DigitsEnd(s, n, base) == |s|
    decreases |s| - n
  {
    if n < |s| {
      assert s[n] == s[n..][0];
      assert s[n + 1..] == s[n..][1..];
      DigitsRunToEnd(s, n + 1, base);
    }
  }

  /** Printed text, wherever it starts, denotes the number. */
  lemma WrittenPrinted(prefix: string, v: nat, base: int, negative: bool)
    requires v > 0 && base in {2, 8, 10, 16}
    ensures WrittenFrom(prefix + Text(v, base, true, true), |prefix|, negative) == Ok(if negative then 0 - v else v)
  {
    hide Digits, ParseDigits, WrittenFrom, DetectForm;
    var d := Digits(v, base, true);
    PrintedForm(v, base);
    DetectPrinted(prefix, d, base);
    var s := prefix + Text(v, base, true, true);
    assert s[|prefix| + |Introducer(base, true)|..] == d;
    WrittenWholeRun(s, |prefix|, Form(base, |prefix| + |Introducer(base, true)|, false), negative);
  }

  /** When nothing but digits follows the prefix, the number is what the digits denote. */
  lemma WrittenWholeRun(s: string, b: nat, f: Form, negative: bool)
    requires b <= |s| && DetectForm(s, b) == f && !f.quoted && AllDigits(s[f.start..], f.base)
    ensures var v := ParseDigits(s[f.start..], f.base);
            WrittenFrom(s, b, negative) == Ok(if negative then 0 - v else v)
  {
    hide ParseDigits, DetectForm;
    DigitsRunToEnd(s, f.start, f.base);
    assert s[f.start..|s|] == s[f.start..];
  }

  lemma DetectPrinted(prefix: string, d: string, base: int)
    requires base in {2, 8, 10, 16} && d != "" && d[0] != '0' && DigitOf(d[0]) < base
    ensures DetectForm(prefix + (Introducer(base, true) + d), |prefix|)
         == Form(base, |prefix| + |Introducer(base, true)|, false)
  {
    var s, b := prefix + (Introducer(base, true) + d), |prefix|;
    if base == 10 {
      assert s[b] == d[0];
    } else if base == 8 {
      assert s[b] == '0' && s[b + 1] == d[0];
    } else {
      assert s[b] == '0' && s[b + 1] == Introducer(base, true)[1];
    }
  }

  lemma WrittenZero(acceptNegative: bool)
    ensures Written("0", acceptNegative) == Ok(0)
  {
    assert SkipSpaces("0", 0) == 0 && DetectForm("0", 0) == Form(8, 1, false);
    assert DigitsEnd("0", 1, 8) == 1 && "0"[1..1] == "";
  }

  /** The numeral of a number denotes it, with or without a minus sign, whatever its size. */
  lemma PrintedDenotes(v: nat, base: int, acceptNegative: bool)
    requires base in {2, 8, 10, 16}
    ensures PrintValue(v, base).Ok?
    ensures Written(PrintValue(v, base).value, acceptNegative) == Ok(v)
    ensures v > 0 ==> Written("-" + PrintValue(v, base).value, true) == Ok(0 - v)
  {
    if v == 0 {
      WrittenZero(acceptNegative);
    } else {
      var t := Text(v, base, true, true);
      PrintedStart(v, base);
      PlainSign(t, acceptNegative);
      MinusSign(t);
      hide *;
      WrittenPrinted("", v, base, false);
      assert "" + t == t;
      WrittenPrinted("-", v, base, true);
    }
  }

  /** The reader undoes the printer. */
  lemma ReadNumberPrinted(v: nat, base: int, acceptNegative: bool)
    requires base in {2, 8, 10, 16} && v < Pow2(512)
    ensures PrintValue(v, base).Ok?
    ensures ReadNumber(PrintValue(v, base).value, acceptNegative) == Ok(v)
    ensures v > 0 ==> ReadNumber("-" + PrintValue(v, base).value, true) == Ok(Wrap(0 - v))
  {
    hide Written, PrintValue, Wrap, Pow2;
    PrintedDenotes(v, base, acceptNegative);
    WrapSmall(v);
  }

  lemma PlainSign(t: string, acceptNegative: bool)
    requires SkipSpaces(t, 0) == 0 && At(t, 0) != '-' && At(t, 0) != '+'
    ensures Written(t, acceptNegative) == WrittenFrom(t, 0, false)
  {
  }

  lemma MinusSign(t: string)
    requires SkipSpaces("-" + t, 0) == 0 && At("-" + t, 0) == '-'
    ensures Written("-" + t, true) == WrittenFrom("-" + t, |"-"|, true)
  {
    hide WrittenFrom;
  }

  lemma PrintedStart(v: nat, base: int)
    requires v > 0 && base in {2, 8, 10, 16}
    ensures var t := Text(v, base, true, true);
            && SkipSpaces(t, 0) == 0 && At(t, 0) != '-' && At(t, 0) != '+'
            && SkipSpaces("-" + t, 0) == 0 && At("-" + t, 0) == '-'
  {
    var t := Text(v, base, true, true);
    PrintedForm(v, base);
    hide Digits, ParseDigits;
    assert t[0] == '0' || t[0] == Digits(v, base, true)[0];
    assert ("-" + t)[0] == '-';
  }

  /** Printing an unsigned field and reading it back gives the same bytes, whatever the width and the base. */
  lemma UnsignedRoundTrip(b: seq<byte>, bits: nat, base: int)
    requires Width(bits) && |b| == bits / 8 && base in {2, 8, 10, 16}
    ensures UnsignedText(b, bits / 8, base).Ok?
    ensures ReadUnsigned(UnsignedText(b, bits / 8, base).value, bits) == Ok(b)
  {
    hide Pow2, BitLength, ReadNumber, PrintValue, LowBytes, LittleEndian;
    var v := LittleEndian(b);
    LittleEndianBound(b);
    Pow2Mono(bits, 512);
    ByteSizeFits(b, bits / 8);
    ReadNumberPrinted(v, base, false);
    BitLengthFits(v, bits);
    LowBytesOfBuffer(b);
  }

  /** The same for signed fields: every two's complement buffer, the minimum and -1 included. */
  lemma SignedRoundTrip(b: seq<byte>, bits: nat, base: int)
    requires Width(bits) && |b| == bits / 8 && base in {2, 8, 10, 16}
    ensures IntegerText(b, bits / 8, base).Ok?
    ensures ReadSigned(IntegerText(b, bits / 8, base).value, bits) == Ok(b)
  {
    hide IntegerText, ReadSigned;
    if Negative(b) {
      NegativeRoundTrip(b, bits, base);
    } else {
      PositiveRoundTrip(b, bits, base);
    }
  }

  lemma NegativeRoundTrip(b: seq<byte>, bits: nat, base: int)
    requires Width(bits) && |b| == bits / 8 && base in {2, 8, 10, 16} && Negative(b)
    ensures IntegerText(b, bits / 8, base).Ok?
    ensures ReadSigned(IntegerText(b, bits / 8, base).value, bits) == Ok(b)
  {
    hide Pow2, BitLength, ReadNumber, PrintValue, LowBytes, LittleEndian, Wrap;
    var v := LittleEndian(b);
    SignOfBuffer(b);
    LowBytesOfBuffer(b);
    EvenPower(bits - 1);
    EvenPower(511);
    Pow2Mono(bits - 1, 511);
    var m := Pow2(bits) - v;
    MagnitudeOf(b, bits);
    WrapSmall(m);
    BufferOfLowBytes(m, 64);
    ModSmall(m, Pow2(512));
    ByteSizeFits(LowBytes(m, 64), bits / 8);
    ReadNumberPrinted(m, base, true);
    SignedWrap(0 - m);
    NegativeLowBytes(v, bits);
  }

  lemma PositiveRoundTrip(b: seq<byte>, bits: nat, base: int)
    requires Width(bits) && |b| == bits / 8 && base in {2, 8, 10, 16} && !Negative(b)
    ensures IntegerText(b, bits / 8, base).Ok?
    ensures ReadSigned(IntegerText(b, bits / 8, base).value, bits) == Ok(b)
  {
    hide Pow2, BitLength, ReadNumber, PrintValue, LowBytes, LittleEndian, Wrap;
    SignOfBuffer(b);
    LowBytesOfBuffer(b);
    EvenPower(bits - 1);
    EvenPower(511);
    Pow2Mono(bits - 1, 511);
    ByteSizeFits(b, bits / 8);
    ReadNumberPrinted(LittleEndian(b), base, true);
  }

  lemma SignOfBuffer(b: seq<byte>)
    requires |b| > 0
    ensures Negative(b) <==> LittleEndian(b) >= Pow2(8 * |b| - 1)
    ensures LittleEndian(b) < Pow2(8 * |b|)
  {
    hide Pow2;
    var n := |b| - 1;
    assert b == b[..n] + [b[n]];
    assert LittleEndian([b[n]]) == b[n];
    LittleEndianAppend(b[..n], [b[n]]);
    LittleEndianBound(b);
    LittleEndianBound(b[..n]);
    Pow2Add(8 * n, 7);
    HalfSizes();
    TopHalf(LittleEndian(b[..n]), b[n], Pow2(8 * n), 128);
  }

  /** Negating the sign-extended buffer leaves the magnitude. */
  lemma MagnitudeOf(b: seq<byte>, bits: nat)
    requires 0 < bits <= 512 && 8 * |b| == bits && Negative(b)
    ensures 0 < Pow2(bits) - LittleEndian(b) < Pow2(512)
    ensures Wrap(0 - LittleEndian(SignExtended(b))) == Pow2(bits) - LittleEndian(b)
  {
    hide Pow2, LittleEndian, Wrap, SignExtended, Negative;
    SignOfBuffer(b);
    Pow2Mono(bits, 512);
    ExtendedValue(b, bits);
    WrapBorrow(Pow2(bits) - LittleEndian(b));
  }

  /** The bytes of the sign amount to a borrow of 2^512. */
  lemma ExtendedValue(b: seq<byte>, bits: nat)
    requires 0 < bits <= 512 && 8 * |b| == bits && Negative(b)
    ensures LittleEndian(SignExtended(b)) == Pow2(512) - (Pow2(bits) - LittleEndian(b))
  {
    hide Pow2, LittleEndian;
    var n := 64 - |b|;
    LittleEndianAppend(b, Fill(n, 255));
    OnesFill(n);
    Pow2Add(bits, 8 * n);
    OnesProduct(LittleEndian(b), Pow2(bits), Pow2(8 * n));
  }

  lemma OnesProduct(v: nat, p: nat, q: nat)
    ensures v + p * (q - 1) == p * q - (p - v)
  {
  }

  /** The low bytes of the negated magnitude are the buffer's. */
  lemma NegativeLowBytes(v: nat, bits: nat)
    requires Width(bits) && 0 < v < Pow2(bits)
    ensures LowBytes(Wrap(v - Pow2(bits)), bits / 8) == LowBytes(v, bits / 8)
  {
    hide Pow2, LowBytes, Wrap;
    Pow2Mono(bits, 512);
    Pow2Add(512 - bits, bits);
    var h := Pow2(512 - bits) - 1;
    MulDist(h, 1, Pow2(bits));
    WrapShift(v - Pow2(bits), 1);
    WrapSmall(v + h * Pow2(bits));
    LowBytesShift(v, h, bits / 8);
  }
}
